/** What one worker does with one repository entry between taking it from the queue and
    appending its RepositoryInfo: walk the branches, walk every branch's commits (from the
    fork date on, for a fork), and collect the commit authors into a set. */
module Repository {
  import opened Model
  import opened Pagination

  /** The extra parameter of a fork's commits requests: only commits since it was created. */
  function ForkParameters(entry: RepositoryEntry): Params {
    if entry.fork then map["since" := StrValue(entry.createdAt)] else map[]
  }

  /** The shape of every commits request for `entry`: per_page 100, a page number, a branch,
      and `since = created_at` exactly when the repository is a fork. */
  ghost predicate IsCommitRequestFor(entry: RepositoryEntry, q: Params) {
    && "per_page" in q && q["per_page"] == IntValue(MAX_NUM_RESULTS_PER_PAGE)
    && "page" in q && q["page"].IntValue?
    && "sha" in q && q["sha"].StrValue?
    && ("since" in q <==> entry.fork)
    && (entry.fork ==> q["since"] == StrValue(entry.createdAt))
  }

  /** The query parameters of the request for `page` of the commits of `branch`: the page
      parameters and the branch, merged with the fork parameters. */
  function CommitRequestParams(entry: RepositoryEntry, branch: string, page: nat): (q: Params)
    ensures IsCommitRequestFor(entry, q)
    ensures q.Keys == {"per_page", "page", "sha"} + (if entry.fork then {"since"} else {})
    ensures q["page"] == IntValue(page) && q["sha"] == StrValue(branch)
  {
    (PageParams(page) + map["sha" := StrValue(branch)]) + ForkParameters(entry)
  }

  /** The filter that the server sees in those requests. */
  function CommitFilterOf(entry: RepositoryEntry, branch: string): (f: CommitFilter)
    ensures forall page: nat :: StrValue(f.sha) == CommitRequestParams(entry, branch, page)["sha"]
    ensures forall page: nat :: f.since.Some? <==> "since" in CommitRequestParams(entry, branch, page)
    ensures f.since.Some? ==> f.since.value == entry.createdAt
  {
    CommitFilter(branch, if entry.fork then Some(entry.createdAt) else None)
  }

  /** The branch listing of a repository. */
  function BranchWalk(server: Server, entry: RepositoryEntry): Result<seq<BranchEntry>> {
    Walk(server.branches(entry.fullName), false)
  }

  /** The commit listing of one branch; a 409 means the repository has no commits. */
  function BranchCommits(server: Server, entry: RepositoryEntry, branch: string): Result<seq<Commit>> {
    Walk(server.commits(entry.fullName, CommitFilterOf(entry, branch)), true)
  }

  /** The branch names of a branch listing, as a set. */
  function BranchNames(entries: seq<BranchEntry>): (names: set<string>)
    ensures forall e :: e in entries ==> e.name in names
    ensures forall n :: n in names ==> exists e :: e in entries && e.name == n
  {
    set e | e in entries :: e.name
  }

  /** The identity a commit contributes: its author, not its committer. */
  function AuthorOf(c: Commit): CommitAuthor {
    CommitAuthor(c.author.name, c.author.email)
  }

  /** The distinct authors of a list of commits. */
  function AuthorsOf(commits: seq<Commit>): (authors: set<CommitAuthor>)
    ensures forall c :: c in commits ==> AuthorOf(c) in authors
    ensures forall a :: a in authors ==> exists c :: c in commits && AuthorOf(c) == a
  {
    set c | c in commits :: AuthorOf(c)
  }

  /** Duplicate authors collapse: there are never more authors than commits. */
  lemma {:induction false} AuthorsAtMostCommits(commits: seq<Commit>)
    ensures |AuthorsOf(commits)| <= |commits|
  {
    if commits != [] {
      var rest := commits[1..];
      AuthorsAtMostCommits(rest);
      assert commits == [commits[0]] + rest;
      assert AuthorsOf(commits) == {AuthorOf(commits[0])} + AuthorsOf(rest);
    }
  }

  /** Two commits by the same author and one by another give a set of two authors. */
  lemma DuplicateAuthorCollapses(x: Signature, y: Signature, committer: Signature)
    requires x != y
    ensures |AuthorsOf([Commit(x, committer), Commit(x, committer), Commit(y, committer)])| == 2
  {
    var commits := [Commit(x, committer), Commit(x, committer), Commit(y, committer)];
    var a, b := AuthorOf(commits[0]), AuthorOf(commits[2]);
    assert a != b;
    assert AuthorsOf(commits) == {a, b};
  }

  /** The parameters of the commits requests for the walk of `branch`: pages 1 .. k, k being
      the number of requests that walk issues. */
  function BranchCommitRequests(server: Server, entry: RepositoryEntry, branch: string): seq<Params> {
    RequestLog(RequestCount(server.commits(entry.fullName, CommitFilterOf(entry, branch))), CommitPageParams(entry, branch))
  }

  /** The commits request parameters of `branch`, page by page. */
  function CommitPageParams(entry: RepositoryEntry, branch: string): nat -> Params {
    (page: nat) => CommitRequestParams(entry, branch, page)
  }

  /** The commits of the branches in `order`, walk after walk. */
  function CommitsAlong(server: Server, entry: RepositoryEntry, order: seq<string>): seq<Commit> {
    if order == [] then []
    else
      var walked := BranchCommits(server, entry, order[|order| - 1]);
      CommitsAlong(server, entry, order[..|order| - 1]) + (if walked.Success? then walked.value else [])
  }

  /** `order` lists every name of `names` exactly once, and nothing else. */
  ghost predicate IsVisitOrder(order: seq<string>, names: set<string>) {
    && (forall i, j :: 0 <= i < j < |order| ==> order[i] != order[j])
    && (forall b :: b in order <==> b in names)
  }

  /** `e` is the error of one of the walks processing `entry` runs: the branch walk, or the
      commit walk of one of its branches. */
  ghost predicate IsProcessingError(server: Server, entry: RepositoryEntry, e: Error) {
    || BranchWalk(server, entry) == Failure(e)
    || (&& BranchWalk(server, entry).Success?
        && exists b :: b in BranchNames(BranchWalk(server, entry).value) && BranchCommits(server, entry, b) == Failure(e))
  }

  /** What a successful processing of `entry` did: it visited every branch once, in `order`,
      gathered each visited branch's commits in that order, and issued each visited branch's
      commits requests in that order. */
  ghost predicate IsProcessingLog(
    server: Server, entry: RepositoryEntry, order: seq<string>, gathered: seq<Commit>, commitRequests: seq<Params>)
  {
    && BranchWalk(server, entry).Success?
    && IsVisitOrder(order, BranchNames(BranchWalk(server, entry).value))
    && gathered == CommitsAlong(server, entry, order)
    && commitRequests == RequestsAlong(server, entry, order)
  }

  /** The commits gathered along `order` are those of its branches' walks, when they all succeed. */
  lemma {:induction false} CommitsAlongMembers(server: Server, entry: RepositoryEntry, order: seq<string>)
    requires forall b :: b in order ==> BranchCommits(server, entry, b).Success?
    ensures forall c :: c in CommitsAlong(server, entry, order) <==>
      exists b :: b in order && c in BranchCommits(server, entry, b).value
  {
    if order != [] {
      var front, last := order[..|order| - 1], order[|order| - 1];
      assert forall b :: b in order <==> b in front || b == last;
      CommitsAlongMembers(server, entry, front);
    }
  }

  /** The commits requests of the branches in `order`, walk after walk. */
  function RequestsAlong(server: Server, entry: RepositoryEntry, order: seq<string>): seq<Params> {
    if order == [] then []
    else RequestsAlong(server, entry, order[..|order| - 1]) + BranchCommitRequests(server, entry, order[|order| - 1])
  }

  /** The authors found on a set of branches, each of whose commit walks succeeded. */
  function AuthorsOnBranches(server: Server, entry: RepositoryEntry, branches: set<string>): set<CommitAuthor>
    requires forall b :: b in branches ==> BranchCommits(server, entry, b).Success?
  {
    set b, c | b in branches && c in BranchCommits(server, entry, b).value :: AuthorOf(c)
  }

  /** The reference outcome of processing `entry`, independent of the order in which the
      branches are visited: None when the branch walk or some branch's commit walk fails,
      otherwise the entry's name and owner with the authors found on all of its branches. */
  function RepositoryInfoOf(server: Server, entry: RepositoryEntry): (info: Option<RepositoryInfo>)
    ensures info.Some? ==> info.value.name == entry.name && info.value.owner == entry.ownerLogin
    ensures info.Some? <==>
      && BranchWalk(server, entry).Success?
      && forall b :: b in BranchNames(BranchWalk(server, entry).value) ==> BranchCommits(server, entry, b).Success?
  {
    match BranchWalk(server, entry)
    case Failure(_) => None
    case Success(branchEntries) =>
      var names := BranchNames(branchEntries);
      if forall b :: b in names ==> BranchCommits(server, entry, b).Success? then
        Some(RepositoryInfo(entry.name, entry.ownerLogin, AuthorsOnBranches(server, entry, names)))
      else None
  }

  /** Processing of one repository entry, as the worker's loop body does it: the branch
      walk, then for each branch name, in whatever order the set yields them, its commit
      walk, extending one list of commits; the author set is taken over that list. It
      succeeds exactly when the reference outcome exists, and then returns it. The ghost
      outputs log what it did: the branch requests, the order in which it visited the
      branches (each branch name once), the commits it gathered and the commits requests it
      issued, each of these having the shape IsCommitRequestFor describes. */
  method ProcessRepository(server: Server, entry: RepositoryEntry)
    returns (r: Result<RepositoryInfo>, ghost branchRequests: seq<Params>, ghost order: seq<string>,
             ghost gathered: seq<Commit>, ghost commitRequests: seq<Params>)
    ensures branchRequests == RequestLog(RequestCount(server.branches(entry.fullName)), PageParams)
    ensures r.Success? <==> RepositoryInfoOf(server, entry).Some?
    ensures r.Failure? ==> IsProcessingError(server, entry, r.error)
    ensures r.Success? ==> r.value == RepositoryInfoOf(server, entry).value
    ensures r.Success? ==> IsProcessingLog(server, entry, order, gathered, commitRequests)
    ensures r.Success? ==> r.value.commitAuthors == AuthorsOf(gathered) && |r.value.commitAuthors| <= |gathered|
    ensures forall q :: q in commitRequests ==> IsCommitRequestFor(entry, q)
  {
    commitRequests, order := [], [];
    var branchResult, requests := PageWalk(server.branches(entry.fullName), false, PageParams);
    branchRequests := requests;
    if branchResult.Failure? {
      return Failure(branchResult.error), branchRequests, order, [], commitRequests;
    }
    var names := BranchNames(branchResult.value);
    var remaining := names;
    var commits: seq<Commit> := [];
    while remaining != {}
      invariant remaining <= names
      invariant IsVisitOrder(order, names - remaining)
      invariant forall b :: b in order ==> BranchCommits(server, entry, b).Success?
      invariant commits == CommitsAlong(server, entry, order)
      invariant commitRequests == RequestsAlong(server, entry, order)
      decreases remaining
    {
      var branch :| branch in remaining;
      var walked, walkRequests := PageWalk(
        server.commits(entry.fullName, CommitFilterOf(entry, branch)), true,
        CommitPageParams(entry, branch));
      AlongStep(server, entry, order, branch);
      commitRequests := commitRequests + walkRequests;
      if walked.Failure? {
        RequestsAlongShape(server, entry, order + [branch]);
        return Failure(walked.error), branchRequests, order, commits, commitRequests;
      }
      VisitOrderStep(order, names, remaining, branch);
      commits := commits + walked.value;
      order := order + [branch];
      remaining := remaining - {branch};
    }
    var info := RepositoryInfo(entry.name, entry.ownerLogin, AuthorsOf(commits));
    assert names - remaining == names;
    AuthorsAlong(server, entry, order, names);
    RequestsAlongShape(server, entry, order);
    AuthorsAtMostCommits(commits);
    r, gathered := Success(info), commits;
  }

  /** Visiting one more branch extends the commits and the requests by that branch's. */
  lemma AlongStep(server: Server, entry: RepositoryEntry, order: seq<string>, branch: string)
    ensures var walked := BranchCommits(server, entry, branch);
      CommitsAlong(server, entry, order + [branch]) ==
        CommitsAlong(server, entry, order) + (if walked.Success? then walked.value else [])
    ensures RequestsAlong(server, entry, order + [branch]) ==
      RequestsAlong(server, entry, order) + BranchCommitRequests(server, entry, branch)
  {
    assert (order + [branch])[..|order|] == order;
  }

  /** Visiting a branch not yet visited keeps the visit order free of repeats. */
  lemma VisitOrderStep(order: seq<string>, names: set<string>, remaining: set<string>, branch: string)
    requires remaining <= names && branch in remaining
    requires IsVisitOrder(order, names - remaining)
    ensures IsVisitOrder(order + [branch], names - (remaining - {branch}))
  {
    assert branch !in order;
  }

  /** The authors of the commits gathered along a visit of all `names` are the authors found
      on those branches, whatever the order of the visit. */
  lemma AuthorsAlong(server: Server, entry: RepositoryEntry, order: seq<string>, names: set<string>)
    requires IsVisitOrder(order, names)
    requires forall b :: b in names ==> BranchCommits(server, entry, b).Success?
    ensures AuthorsOf(CommitsAlong(server, entry, order)) == AuthorsOnBranches(server, entry, names)
  {
    CommitsAlongMembers(server, entry, order);
  }

  /** Every commits request issued along `order` has the shape of a commits request. */
  lemma {:induction false} RequestsAlongShape(server: Server, entry: RepositoryEntry, order: seq<string>)
    ensures forall q :: q in RequestsAlong(server, entry, order) ==> IsCommitRequestFor(entry, q)
  {
    if order != [] {
      RequestsAlongShape(server, entry, order[..|order| - 1]);
      var last := BranchCommitRequests(server, entry, order[|order| - 1]);
      assert forall q :: q in last ==> IsCommitRequestFor(entry, q);
    }
  }
}
