/** The paginated walk that the crawler runs over every listing: request page 1, 2, 3, ...
    with per_page = 100, concatenate the items, and stop at the first page holding fewer
    than 100 of them. The repositories, branches and commits walks are all this one walk. */
module Pagination {
  import opened Model

  /** The query parameters every listing request carries. */
  function PageParams(page: nat): (q: Params)
    ensures q.Keys == {"per_page", "page"}
    ensures q["per_page"] == IntValue(MAX_NUM_RESULTS_PER_PAGE) && q["page"] == IntValue(page)
  {
    map["per_page" := IntValue(MAX_NUM_RESULTS_PER_PAGE), "page" := IntValue(page)]
  }

  /** The parameters of the requests for pages 1 .. n, as `paramsFor` builds them. */
  function RequestLog(n: nat, paramsFor: nat -> Params): seq<Params> {
    seq(n, i requires 0 <= i => paramsFor(i + 1))
  }

  /** A log holding the requests for pages 1 .. n, one by one, is that log. */
  lemma RequestLogPointwise(requests: seq<Params>, n: nat, paramsFor: nat -> Params)
    requires |requests| == n
    requires forall i :: 0 <= i < n ==> requests[i] == paramsFor(i + 1)
    ensures requests == RequestLog(n, paramsFor)
  {
  }

  /** A response after which no further page is requested: it failed, or it was short. */
  predicate IsLastPage<T>(p: Page<T>) {
    !IsSuccess(p.status) || |p.items| < MAX_NUM_RESULTS_PER_PAGE
  }

  /** The concatenated items of a sequence of pages. */
  function Flatten<T>(pages: seq<Page<T>>): seq<T> {
    if pages == [] then [] else pages[0].items + Flatten(pages[1..])
  }

  /** `prefix` put in front of the items of a successful walk; a failure stays a failure. */
  function Prepend<T>(prefix: seq<T>, r: Result<seq<T>>): Result<seq<T>> {
    match r
    case Success(items) => Success(prefix + items)
    case Failure(e) => Failure(e)
  }

  /** Prepending twice is prepending the concatenation; prepending nothing changes nothing. */
  lemma PrependAssociates<T>(a: seq<T>, b: seq<T>, r: Result<seq<T>>)
    ensures Prepend(a, Prepend(b, r)) == Prepend(a + b, r)
    ensures Prepend([], r) == r
  {
    if r.Success? {
      assert (a + b) + r.value == a + (b + r.value);
      assert [] + r.value == r.value;
    }
  }

  /** What a walk yields when `pages` answers its requests in order. With `conflictEnds`
      (the commits walk) a 409 ends the walk without error. */
  function Walk<T>(pages: seq<Page<T>>, conflictEnds: bool): Result<seq<T>> {
    if pages == [] then Failure(Unanswered)
    else
      var p := pages[0];
      if conflictEnds && p.status == CONFLICT then Success([])
      else if !IsSuccess(p.status) then Failure(HttpStatus(p.status))
      else if |p.items| < MAX_NUM_RESULTS_PER_PAGE then Success(p.items)
      else Prepend(p.items, Walk(pages[1..], conflictEnds))
  }

  /** How many requests a walk over `pages` issues. */
  function RequestCount<T>(pages: seq<Page<T>>): nat {
    if pages == [] then 0
    else if IsLastPage(pages[0]) then 1
    else 1 + RequestCount(pages[1..])
  }

  /** Page k + 1 is the first response that ends the walk. */
  ghost predicate IsFirstLastPage<T>(pages: seq<Page<T>>, k: nat) {
    k < |pages| && IsLastPage(pages[k]) && forall j :: 0 <= j < k ==> !IsLastPage(pages[j])
  }

  /** The walk as the source runs it: a loop over page numbers that extends the collected
      items in place. It issues exactly the requests for pages 1, 2, ..., RequestCount(pages),
      built by `paramsFor`, and returns what Walk describes. */
  method PageWalk<T>(pages: seq<Page<T>>, conflictEnds: bool, paramsFor: nat -> Params)
    returns (r: Result<seq<T>>, ghost requests: seq<Params>)
    ensures r == Walk(pages, conflictEnds)
    ensures requests == RequestLog(RequestCount(pages), paramsFor)
  {
    var items: seq<T> := [];
    var page: nat := 1;
    requests := [];
    assert pages[page - 1..] == pages;
    PrependAssociates([], [], Walk(pages, conflictEnds));
    while page <= |pages|
      invariant 1 <= page <= |pages| + 1
      invariant |requests| == page - 1
      invariant forall i :: 0 <= i < |requests| ==> requests[i] == paramsFor(i + 1)
      invariant Walk(pages, conflictEnds) == Prepend(items, Walk(pages[page - 1..], conflictEnds))
      invariant RequestCount(pages) == page - 1 + RequestCount(pages[page - 1..])
      decreases |pages| + 1 - page
    {
      var response := pages[page - 1];
      assert pages[page - 1..][1..] == pages[page..];
      PrependAssociates(items, response.items, Walk(pages[page..], conflictEnds));
      requests := requests + [paramsFor(page)];
      if conflictEnds && response.status == CONFLICT {
        assert items + [] == items;
        RequestLogPointwise(requests, page, paramsFor);
        return Success(items), requests;
      }
      if !IsSuccess(response.status) {
        RequestLogPointwise(requests, page, paramsFor);
        return Failure(HttpStatus(response.status)), requests;
      }
      items := items + response.items;
      if |response.items| < MAX_NUM_RESULTS_PER_PAGE {
        RequestLogPointwise(requests, page, paramsFor);
        return Success(items), requests;
      }
      page := page + 1;
    }
    r := Failure(Unanswered);
    RequestLogPointwise(requests, page - 1, paramsFor);
  }

  /** A walk requests every page up to and including the first one that ends it, and no more.
      It returns the items of all those pages; a 409 on the commits walk contributes nothing
      but keeps what came before; any other failure returns the status and no items. */
  lemma {:induction false} WalkUpToLastPage<T>(pages: seq<Page<T>>, conflictEnds: bool, k: nat)
    requires IsFirstLastPage(pages, k)
    ensures RequestCount(pages) == k + 1
    ensures conflictEnds && pages[k].status == CONFLICT ==>
      Walk(pages, conflictEnds) == Success(Flatten(pages[..k]))
    ensures !(conflictEnds && pages[k].status == CONFLICT) && !IsSuccess(pages[k].status) ==>
      Walk(pages, conflictEnds) == Failure(HttpStatus(pages[k].status))
    ensures IsSuccess(pages[k].status) ==>
      Walk(pages, conflictEnds) == Success(Flatten(pages[..k + 1]))
  {
    if k == 0 {
      assert pages[..1] == [pages[0]];
      assert pages[..1][1..] == [];
      assert Flatten(pages[..1]) == pages[0].items + Flatten(pages[..1][1..]);
      assert pages[0].items + [] == pages[0].items;
      assert Flatten(pages[..0]) == [];
    } else {
      var rest := pages[1..];
      assert IsFirstLastPage(rest, k - 1) by {
        forall j | 0 <= j < k - 1 ensures !IsLastPage(rest[j]) {
          assert rest[j] == pages[j + 1];
        }
      }
      WalkUpToLastPage(rest, conflictEnds, k - 1);
      assert rest[k - 1] == pages[k];
      assert !IsLastPage(pages[0]);
      assert pages[..k][1..] == rest[..k - 1];
      assert pages[..k + 1][1..] == rest[..k];
    }
  }

  /** When no response ends the walk, every response is requested and the walk cannot complete. */
  lemma {:induction false} WalkWithoutLastPage<T>(pages: seq<Page<T>>, conflictEnds: bool)
    requires forall j :: 0 <= j < |pages| ==> !IsLastPage(pages[j])
    ensures RequestCount(pages) == |pages|
    ensures Walk(pages, conflictEnds) == Failure(Unanswered)
  {
    if pages != [] {
      var rest := pages[1..];
      assert forall j :: 0 <= j < |rest| ==> rest[j] == pages[j + 1];
      WalkWithoutLastPage(rest, conflictEnds);
      assert !IsLastPage(pages[0]);
    }
  }

  /** A successful page of exactly 100 items, with only full pages before it, is always
      followed by the request for the next page (when the server answers one). */
  lemma {:induction false} FullPageRequestsNext<T>(pages: seq<Page<T>>, i: nat)
    requires i + 1 < |pages|
    requires forall j :: 0 <= j < i ==> !IsLastPage(pages[j])
    requires IsSuccess(pages[i].status) && |pages[i].items| == MAX_NUM_RESULTS_PER_PAGE
    ensures RequestCount(pages) >= i + 2
  {
    if i == 0 {
      assert !IsLastPage(pages[0]);
      assert pages[1..] != [];
    } else {
      var rest := pages[1..];
      assert rest[i - 1] == pages[i];
      assert forall j :: 0 <= j < i - 1 ==> rest[j] == pages[j + 1];
      FullPageRequestsNext(rest, i - 1);
      assert !IsLastPage(pages[0]);
    }
  }

  /** `n` copies of `x`, the items of one page. */
  function Items<T>(n: nat, x: T): (s: seq<T>)
    ensures |s| == n
  {
    seq(n, _ => x)
  }

  /** Pages of 100, 100 and 37 items: three requests and 237 items. */
  lemma ShortThirdPage<T>(x: T)
    ensures var pages := [Page(200, Items(100, x)), Page(200, Items(100, x)), Page(200, Items(37, x))];
      RequestCount(pages) == 3 && Walk(pages, false).Success? && |Walk(pages, false).value| == 237
  {
    var pages := [Page(200, Items(100, x)), Page(200, Items(100, x)), Page(200, Items(37, x))];
    assert IsFirstLastPage(pages, 2);
    WalkUpToLastPage(pages, false, 2);
    assert pages[..3] == pages;
    assert Flatten(pages) == Items(100, x) + Flatten(pages[1..]);
    assert Flatten(pages[1..]) == Items(100, x) + Flatten(pages[2..]);
    assert Flatten(pages[2..]) == Items(37, x) + Flatten(pages[3..]);
  }

  /** Three full pages and then an empty one: the empty page is short, so the walk ends there. */
  lemma EmptyPageEndsWalk<T>(x: T)
    ensures var pages := [Page(200, Items(100, x)), Page(200, Items(100, x)), Page(200, Items(100, x)), Page(200, [])];
      RequestCount(pages) == 4 && Walk(pages, false).Success? && |Walk(pages, false).value| == 300
  {
    var pages := [Page(200, Items(100, x)), Page(200, Items(100, x)), Page(200, Items(100, x)), Page(200, [])];
    assert IsFirstLastPage(pages, 3);
    WalkUpToLastPage(pages, false, 3);
    assert pages[..4] == pages;
    assert Flatten(pages) == Items(100, x) + Flatten(pages[1..]);
    assert Flatten(pages[1..]) == Items(100, x) + Flatten(pages[2..]);
    assert Flatten(pages[2..]) == Items(100, x) + Flatten(pages[3..]);
    assert Flatten(pages[3..]) == [] + Flatten(pages[4..]);
  }
}
