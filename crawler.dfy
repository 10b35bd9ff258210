/** The crawl: list the user's repositories, let a bounded number of cooperative workers
    drain the shared list of entries, each appending one RepositoryInfo to the shared
    results per entry, and return the union of all the author sets.

    The workers share one thread and switch only at awaits; taking an entry (`pop`) and
    appending a result are each atomic. So a run is a sequence of atomic steps, Claim and
    Complete below, each done by some worker; what a worker does in between touches no
    shared state, and Complete does it in one go. */
module Crawler {
  import opened Model
  import opened Pagination
  import opened Repository

  /** Where one worker is in its loop. */
  datatype WorkerState =
    | Idle                                      // about to take the next entry
    | Busy(entry: RepositoryEntry, index: nat)  // took the entry at `index` and is processing it
    | Finished                                  // found the list empty and returned

  /** Where one entry of the initial list is. */
  datatype Slot =
    | Queued         // still in the list
    | Held(w: nat)   // taken by worker w, which is processing it
    | Done(p: nat)   // its info is results[p]

  /** The work a worker still has before it returns, counting the entry it holds. */
  function Cost(s: WorkerState): nat {
    match s
    case Idle => 1
    case Busy(_, _) => 2
    case Finished => 0
  }

  /** Total remaining work of all workers, apart from the entries still in the list. */
  function Load(ws: seq<WorkerState>): nat {
    if ws == [] then 0 else Load(ws[..|ws| - 1]) + Cost(ws[|ws| - 1])
  }

  lemma {:induction false} LoadUpdate(ws: seq<WorkerState>, w: nat, s: WorkerState)
    requires w < |ws|
    ensures Load(ws[w := s]) + Cost(ws[w]) == Load(ws) + Cost(s)
  {
    var n := |ws| - 1;
    var us := ws[w := s];
    if w == n {
      assert us[..n] == ws[..n];
    } else {
      assert us[..n] == ws[..n][w := s] && us[n] == ws[n];
      LoadUpdate(ws[..n], w, s);
    }
  }

  /** `idx` lists every index below n, each exactly once, and nothing else. */
  ghost predicate IsPermutationOf(idx: seq<nat>, n: nat) {
    && (forall p :: 0 <= p < |idx| ==> idx[p] < n)
    && (forall p, q :: 0 <= p < q < |idx| ==> idx[p] != idx[q])
    && (forall i :: 0 <= i < n ==> i in idx)
  }

  /** The pool invariant: the list is a prefix of the initial list, whose other entries are
      each either held by exactly one worker or completed exactly once; each result is the
      reference outcome of its entry; a worker has returned only once the list was empty. */
  ghost predicate PoolInvariant(
    server: Server, queue: seq<RepositoryEntry>, results: seq<RepositoryInfo>, workers: seq<WorkerState>,
    initial: seq<RepositoryEntry>, slots: seq<Slot>, completed: seq<nat>)
  {
    && |queue| <= |initial| && queue == initial[..|queue|]
    && |slots| == |initial| && |completed| == |results|
    && (forall i :: 0 <= i < |slots| ==> (i < |queue| <==> slots[i] == Queued))
    && (forall i :: 0 <= i < |slots| && slots[i].Held? ==>
          slots[i].w < |workers| && workers[slots[i].w] == Busy(initial[i], i))
    && (forall w :: 0 <= w < |workers| && workers[w].Busy? ==>
          workers[w].index < |slots| && slots[workers[w].index] == Held(w))
    && (forall i :: 0 <= i < |slots| && slots[i].Done? ==>
          slots[i].p < |completed| && completed[slots[i].p] == i)
    && (forall p :: 0 <= p < |completed| ==>
          completed[p] < |slots| && slots[completed[p]] == Done(p))
    && (forall p :: 0 <= p < |results| ==> RepositoryInfoOf(server, initial[completed[p]]) == Some(results[p]))
    && (Finished in workers ==> queue == [])
  }

  /** Appending the reference outcome of the entry a busy worker holds, marking that entry
      completed and the worker idle again, keeps the pool invariant. */
  lemma CompleteStep(
    server: Server, queue: seq<RepositoryEntry>, results: seq<RepositoryInfo>, workers: seq<WorkerState>,
    initial: seq<RepositoryEntry>, slots: seq<Slot>, completed: seq<nat>, w: nat, info: RepositoryInfo)
    requires PoolInvariant(server, queue, results, workers, initial, slots, completed)
    requires w < |workers| && workers[w].Busy?
    requires RepositoryInfoOf(server, workers[w].entry) == Some(info)
    ensures var index := workers[w].index;
      PoolInvariant(server, queue, results + [info], workers[w := Idle], initial,
        slots[index := Done(|results|)], completed + [index])
  {
  }

  /** The shared state of one crawl: the list of repository entries the workers pop from,
      the list of results they append to, and where each worker is. */
  class WorkPool {
    const server: Server
    var queue: seq<RepositoryEntry>
    var results: seq<RepositoryInfo>
    var workers: seq<WorkerState>
    ghost var initial: seq<RepositoryEntry>  // the list as the crawl started
    ghost var slots: seq<Slot>               // where each entry of `initial` is
    ghost var completed: seq<nat>            // results[p] is the info of initial[completed[p]]

    /** The pool invariant, of this pool's fields. */
    ghost predicate Valid()
      reads this
    {
      PoolInvariant(server, queue, results, workers, initial, slots, completed)
    }

    constructor (server: Server, entries: seq<RepositoryEntry>, numWorkers: nat)
      ensures Valid()
      ensures this.server == server && queue == entries && results == []
      ensures workers == seq(numWorkers, _ => Idle)
      ensures initial == entries && completed == []
    {
      this.server := server;
      queue := entries;
      results := [];
      workers := seq(numWorkers, _ => Idle);
      initial := entries;
      slots := seq(|entries|, _ => Queued);
      completed := [];
    }

    /** Worker `w` pops the last entry of the list, or returns if the list is empty. */
    method Claim(w: nat) returns (claimed: bool)
      requires Valid() && w < |workers| && workers[w] == Idle
      modifies this
      ensures Valid()
      ensures claimed <==> old(queue) != []
      ensures claimed ==>
        && queue == old(queue)[..|old(queue)| - 1]
        && workers == old(workers)[w := Busy(old(queue)[|old(queue)| - 1], |old(queue)| - 1)]
      ensures !claimed ==> queue == old(queue) && workers == old(workers)[w := Finished]
      ensures results == old(results) && completed == old(completed) && initial == old(initial)
    {
      if queue == [] {
        workers := workers[w := Finished];
        claimed := false;
      } else {
        var n := |queue| - 1;
        var entry := queue[n];
        queue := queue[..n];
        slots := slots[n := Held(w)];
        workers := workers[w := Busy(entry, n)];
        claimed := true;
        assert Finished !in workers by {
          assert Finished !in old(workers);
        }
      }
    }

    /** Worker `w` processes the entry it holds and appends one RepositoryInfo for it; the
        results already in the list stay as they are. If processing fails the crawl fails. */
    method Complete(w: nat) returns (failure: Option<Error>)
      requires Valid() && w < |workers| && workers[w].Busy?
      modifies this
      ensures Valid()
      ensures failure.None? <==> RepositoryInfoOf(server, old(workers[w].entry)).Some?
      ensures failure.None? ==>
        && results == old(results) + [RepositoryInfoOf(server, old(workers[w].entry)).value]
        && completed == old(completed) + [old(workers[w].index)]
        && workers == old(workers)[w := Idle]
      ensures failure.Some? ==> results == old(results) && completed == old(completed) && workers == old(workers)
      ensures failure.Some? ==> IsProcessingError(server, old(workers[w].entry), failure.value)
      ensures queue == old(queue) && initial == old(initial)
    {
      var entry, index := workers[w].entry, workers[w].index;
      var r, _, _, _, _ := ProcessRepository(server, entry);
      match r
      case Failure(e) =>
        failure := Some(e);
      case Success(info) =>
        CompleteStep(server, queue, results, workers, initial, slots, completed, w, info);
        slots := slots[index := Done(|results|)];
        results := results + [info];
        completed := completed + [index];
        workers := workers[w := Idle];
        failure := None;
    }

    /** One pass of a worker's loop: pop the last entry of the list, or return if the list is
        empty; then process the entry and append its info. */
    method Round(w: nat) returns (claimed: bool, failure: Option<Error>)
      requires Valid() && w < |workers| && workers[w] == Idle
      modifies this
      ensures Valid() && initial == old(initial)
      ensures claimed <==> old(queue) != []
      ensures !claimed ==>
        && failure.None? && queue == old(queue) && results == old(results) && completed == old(completed)
        && workers == old(workers)[w := Finished]
      ensures claimed ==> queue == old(queue)[..|old(queue)| - 1]
      ensures claimed && failure.None? ==>
        && |results| == |old(results)| + 1 && results[..|old(results)|] == old(results)
        && completed == old(completed) + [|old(queue)| - 1]
        && workers == old(workers)
      ensures claimed && failure.Some? ==>
        && results == old(results) && completed == old(completed)
        && RepositoryInfoOf(server, old(queue)[|old(queue)| - 1]).None?
        && IsProcessingError(server, old(queue)[|old(queue)| - 1], failure.value)
    {
      failure := None;
      claimed := Claim(w);
      if claimed {
        ghost var done := results;
        failure := Complete(w);
        if failure.None? {
          assert results[..|done|] == done;
        }
      }
    }

    /** One worker's loop run on its own: pop entries from the end of the list and append
        their infos until the list is empty. On success the list is empty, the worker has
        returned, and the entries were completed last to first. */
    method CollectRepositoryInformation(w: nat) returns (failure: Option<Error>)
      requires Valid() && w < |workers| && workers[w] == Idle
      modifies this
      ensures Valid() && initial == old(initial)
      ensures |old(results)| <= |results| && results[..|old(results)|] == old(results)
      ensures failure.None? ==>
        && queue == []
        && workers == old(workers)[w := Finished]
        && |results| == |old(results)| + |old(queue)|
        && forall p :: |old(results)| <= p < |results| ==>
             completed[p] == |old(queue)| - 1 - (p - |old(results)|)
      ensures failure.Some? ==>
        exists e :: e in old(queue) && RepositoryInfoOf(server, e).None? && IsProcessingError(server, e, failure.value)
    {
      failure := None;
      while true
        invariant Valid() && initial == old(initial)
        invariant w < |workers| && workers == old(workers)
        invariant |queue| <= |old(queue)| && queue == old(queue)[..|queue|]
        invariant |results| == |old(results)| + (|old(queue)| - |queue|)
        invariant forall p :: |old(results)| <= p < |results| ==>
          completed[p] == |old(queue)| - 1 - (p - |old(results)|)
        invariant |old(results)| <= |results| && results[..|old(results)|] == old(results)
        invariant failure.None?
        decreases |queue|
      {
        ghost var before, done, order := queue, results, completed;
        var claimed;
        claimed, failure := Round(w);
        if !claimed {
          return;
        }
        if failure.Some? {
          assert before[|before| - 1] in old(queue);
          return;
        }
        assert results[..|old(results)|] == done[..|old(results)|];
        forall p | |old(results)| <= p < |results|
          ensures completed[p] == |old(queue)| - 1 - (p - |old(results)|)
        {
          if p < |results| - 1 {
            assert completed[p] == order[p];
          }
        }
      }
    }

    /** All workers run to completion, interleaved in any order: at each step some worker that
        has not returned takes its next atomic step. On success every entry of the list was
        completed exactly once; a failure of any worker fails the crawl. */
    method Gather() returns (failure: Option<Error>)
      requires Valid() && completed == []
      requires forall w :: 0 <= w < |workers| ==> workers[w] == Idle
      modifies this
      ensures Valid() && initial == old(initial) && |workers| == old(|workers|)
      ensures |workers| == 0 ==> failure.None? && queue == old(queue) && results == old(results)
      ensures failure.None? && |workers| > 0 ==>
        && queue == []
        && (forall w :: 0 <= w < |workers| ==> workers[w] == Finished)
        && IsPermutationOf(completed, |initial|)
      ensures failure.Some? ==>
        exists e :: e in initial && RepositoryInfoOf(server, e).None? && IsProcessingError(server, e, failure.value)
    {
      failure := None;
      while exists w :: 0 <= w < |workers| && workers[w] != Finished
        invariant Valid() && initial == old(initial) && |workers| == old(|workers|)
        invariant |workers| == 0 ==> queue == old(queue) && results == old(results)
        invariant failure.None?
        decreases |queue|, Load(workers)
      {
        var w :| 0 <= w < |workers| && workers[w] != Finished;
        ghost var ws := workers;
        if workers[w] == Idle {
          var claimed := Claim(w);
          LoadUpdate(ws, w, workers[w]);
        } else {
          var entry := workers[w].entry;
          assert entry in initial by {
            assert entry == initial[workers[w].index];
          }
          failure := Complete(w);
          if failure.Some? {
            assert RepositoryInfoOf(server, entry).None?;
            return;
          }
          LoadUpdate(ws, w, Idle);
        }
      }
      if |workers| > 0 {
        assert workers[0] == Finished;
        assert forall i :: 0 <= i < |slots| ==> slots[i].Done?;
        forall i | 0 <= i < |initial| ensures i in completed {
          assert completed[slots[i].p] == i;
        }
      }
    }
  }

  /** How many workers the crawl starts: min(entries, num_max_concurrent), and none when that
      minimum is not positive. */
  function NumWorkers(numEntries: nat, numMaxConcurrent: int): (k: nat)
    ensures k <= numEntries && (k == 0 || k <= numMaxConcurrent)
    ensures k == numEntries || k == numMaxConcurrent || k == 0
    ensures k == 0 <==> numEntries == 0 || numMaxConcurrent <= 0
  {
    var m := if numEntries < numMaxConcurrent then numEntries else numMaxConcurrent;
    if m < 0 then 0 else m
  }

  /** The union of the author sets of a list of results. */
  function AllAuthors(infos: seq<RepositoryInfo>): (authors: set<CommitAuthor>)
    ensures forall info, a :: info in infos && a in info.commitAuthors ==> a in authors
    ensures forall a :: a in authors ==> exists info :: info in infos && a in info.commitAuthors
  {
    set info, a | info in infos && a in info.commitAuthors :: a
  }

  /** The union does not depend on the order in which results were appended. */
  lemma AllAuthorsIgnoresOrder(infos1: seq<RepositoryInfo>, infos2: seq<RepositoryInfo>)
    requires multiset(infos1) == multiset(infos2)
    ensures AllAuthors(infos1) == AllAuthors(infos2)
  {
    forall info ensures info in infos1 <==> info in infos2 {
      assert info in infos1 <==> info in multiset(infos1);
      assert info in infos2 <==> info in multiset(infos2);
    }
  }

  /** The authors that processing every entry of `entries` finds. */
  function ExpectedAuthors(server: Server, entries: seq<RepositoryEntry>): set<CommitAuthor> {
    set e, a | e in entries && RepositoryInfoOf(server, e).Some? && a in RepositoryInfoOf(server, e).value.commitAuthors :: a
  }

  /** Results that hold the reference outcome of each entry once, in any order, give as
      their union exactly the authors of all entries. */
  lemma {:induction false} CompletedAuthors(
    server: Server, entries: seq<RepositoryEntry>, completed: seq<nat>, results: seq<RepositoryInfo>)
    requires |completed| == |results| && IsPermutationOf(completed, |entries|)
    requires forall p :: 0 <= p < |results| ==>
      completed[p] < |entries| && RepositoryInfoOf(server, entries[completed[p]]) == Some(results[p])
    ensures AllAuthors(results) == ExpectedAuthors(server, entries)
  {
    forall a | a in AllAuthors(results) ensures a in ExpectedAuthors(server, entries) {
      var info :| info in results && a in info.commitAuthors;
      var p :| 0 <= p < |results| && results[p] == info;
      assert entries[completed[p]] in entries;
    }
    forall a | a in ExpectedAuthors(server, entries) ensures a in AllAuthors(results) {
      var e :| e in entries && RepositoryInfoOf(server, e).Some? && a in RepositoryInfoOf(server, e).value.commitAuthors;
      var i :| 0 <= i < |entries| && entries[i] == e;
      assert i in completed;
      var p :| 0 <= p < |completed| && completed[p] == i;
      assert results[p] in results;
    }
  }

  /** The repository listing of a user. */
  function RepositoryListing(server: Server, username: string): Result<seq<RepositoryEntry>> {
    Walk(server.repositories(username), false)
  }

  /** The whole crawl of `username`'s repositories. A failed listing fails the crawl. With at
      least one worker the crawl succeeds exactly when every repository can be processed, and
      then returns the union of all their author sets; with no worker nothing is processed. */
  method ObtainGithubAuthors(server: Server, username: string, numMaxConcurrent: int)
    returns (r: Result<set<CommitAuthor>>, ghost listingRequests: seq<Params>)
    ensures listingRequests == RequestLog(RequestCount(server.repositories(username)), PageParams)
    ensures RepositoryListing(server, username).Failure? ==>
      r == Failure(RepositoryListing(server, username).error)
    ensures RepositoryListing(server, username).Success? ==>
      var entries := RepositoryListing(server, username).value;
      var k := NumWorkers(|entries|, numMaxConcurrent);
      && (k == 0 ==> r == Success({}))
      && (k > 0 ==> (r.Success? <==> forall e :: e in entries ==> RepositoryInfoOf(server, e).Some?))
      && (r.Failure? ==> exists e :: e in entries && IsProcessingError(server, e, r.error))
      && (k > 0 && r.Success? ==> r.value == ExpectedAuthors(server, entries))
  {
    var listing, requests := PageWalk(server.repositories(username), false, PageParams);
    listingRequests := requests;
    if listing.Failure? {
      return Failure(listing.error), listingRequests;
    }
    var entries := listing.value;
    var k := NumWorkers(|entries|, numMaxConcurrent);
    var pool := new WorkPool(server, entries, k);
    var failure := pool.Gather();
    if failure.Some? {
      return Failure(failure.value), listingRequests;
    }
    if k > 0 {
      CompletedAuthors(server, entries, pool.completed, pool.results);
      forall e | e in entries ensures RepositoryInfoOf(server, e).Some? {
        var i :| 0 <= i < |entries| && entries[i] == e;
        assert i in pool.completed;
        var p :| 0 <= p < |pool.completed| && pool.completed[p] == i;
        assert RepositoryInfoOf(server, entries[pool.completed[p]]) == Some(pool.results[p]);
      }
    }
    assert AllAuthors([]) == {};
    r := Success(AllAuthors(pool.results));
  }
}
