# github_email_addresses, modelled in Dafny

This project models the core of `github_email_addresses`. The core is the crawler that
collects the commit authors (a name and an e-mail address each) found in the commit
history of all of a GitHub user's repositories. The crawler does three things:

- It lists the user's repositories through GitHub's REST API.
- It lets up to `num_max_concurrent` cooperative workers drain that list. For each
  repository a worker lists the branches, then the commits of every branch. For a fork,
  only commits since the fork's creation date are listed. The worker then records one
  `RepositoryInfo` (name, owner, set of commit authors).
- It returns the union of all author sets.

Every listing is the same paginated walk. It requests pages 1, 2, 3, ... with
`per_page = 100`, concatenates the items, and stops at the first page with fewer than
100 items. A non-2xx status aborts the crawl. The one exception is a 409 Conflict on the
commits listing: it means "this repository has no commits" and only ends that branch's
walk.

The model has four modules:

- `Model` (`model.dfy`): the entities. These are GitHub's JSON entries as far as the
  crawler reads them, page responses, `CommitAuthor` with its string form, and
  `RepositoryInfo`. The HTTP client is replaced by a `Server` value. For each endpoint
  and its non-page parameters, it gives the finite sequence of page responses.
- `Pagination` (`pagination.dfy`): the walk. `Walk` is a recursive reference function.
  `PageWalk` is the source's loop over page numbers, proved equal to `Walk`. `PageWalk`
  also returns the log of the request parameters it sends.
- `Repository` (`repository.dfy`): what a worker does with one entry. `RepositoryInfoOf`
  is the order-free reference outcome. `ProcessRepository` is the loop over the branch
  set, visited in an arbitrary order.
- `Crawler` (`crawler.dfy`): the shared state of a crawl, as the class `WorkPool`. Its
  fields are the entry list the workers pop from, the result list they append to, and
  each worker's position.
  - Python's asyncio workers share one thread and switch only at `await`. So a crawl is
    a sequence of atomic steps by some worker:
    - `Claim`: the `pop`, or returning on an empty list.
    - `Complete`: processing the held entry and the `append`.
  - `Round` is one pass of a worker's loop, a `Claim` and then a `Complete`.
  - `CollectRepositoryInformation` is one worker's loop run alone.
  - `Gather` runs all workers interleaved in any order the scheduler might choose.
  - `ObtainGithubAuthors` is the whole crawl.

## Model

| member | source | states |
|---|---|---|
| `Model.ToStringInjective` | github_email_addresses/__init__.py:13-19 | The string form "{email} {name}" tells two authors apart exactly when their structural equality does, provided neither e-mail address contains a space. |
| `Pagination.PageParams` | github_email_addresses/__init__.py:130-133 | A listing request carries exactly two parameters: `per_page` = 100 and the page number. |
| `Pagination.PageWalk` | github_email_addresses/__init__.py:129-140 | The page loop returns what the walk specification `Walk` returns. Its request log is `RequestLog(RequestCount(pages), paramsFor)`: exactly `RequestCount(pages)` requests, for pages 1, 2, ... in that order, each with the parameters the caller's `paramsFor` builds for that page. |
| `Pagination.WalkUpToLastPage` | github_email_addresses/__init__.py:77-97 | Let page k+1 be the first failed or short page. Then the walk sends exactly k+1 requests. A 409 on the commits walk gives the items of the first k pages. Any other non-2xx status gives that status and no items. A 2xx status gives the items of all k+1 pages, in order. |
| `Pagination.WalkWithoutLastPage` | github_email_addresses/__init__.py:55-66 | If every available page is a full 2xx page, all of them are requested and the walk cannot finish. |
| `Pagination.FullPageRequestsNext` | github_email_addresses/__init__.py:65-66 | A 2xx page of exactly 100 items, with only full pages before it, is always followed by a request for the next page (when the server holds a next page). |
| `Pagination.ShortThirdPage` | github_email_addresses/__init__.py:136-140 | Pages of 100, 100 and 37 items give 3 requests and 237 items. |
| `Pagination.EmptyPageEndsWalk` | github_email_addresses/__init__.py:136-140 | Three full pages followed by an empty one give 4 requests and 300 items. The empty page counts as short. |
| `Repository.CommitRequestParams` | github_email_addresses/__init__.py:70-84 | A commits request carries exactly `per_page` = 100, `page`, `sha` = the branch, and `since` = `created_at`. The `since` key is present exactly when the repository is a fork. |
| `Repository.CommitFilterOf` | github_email_addresses/__init__.py:70-84 | The filter the server sees has the request's `sha`. It has a `since` date exactly when the request carries `since`, and that date is the repository's creation date. |
| `Repository.BranchNames` | github_email_addresses/__init__.py:54-63 | The branch-name set holds the name of every branch entry and nothing else. |
| `Repository.AuthorsOf` | github_email_addresses/__init__.py:103-109 | The author set holds the author (name, e-mail) of every commit, taken from the author field and not the committer field, and nothing else. |
| `Repository.AuthorsAtMostCommits` | github_email_addresses/__init__.py:103-109 | Duplicates collapse: there are never more distinct authors than commits. |
| `Repository.DuplicateAuthorCollapses` | github_email_addresses/__init__.py:103-109 | Three commits, two by one author and one by another, give exactly two authors. |
| `Repository.RepositoryInfoOf` | github_email_addresses/__init__.py:99-111 | The reference outcome exists exactly when the branch walk and every branch's commit walk succeed. It then carries the entry's `name` and `owner.login`. |
| `Repository.ProcessRepository` | github_email_addresses/__init__.py:54-111 | Whatever order the branches are visited in, processing succeeds exactly when the reference outcome exists, and it then returns that outcome. On failure the error is that of the branch walk or of the commit walk of one of the branches (`IsProcessingError`). Its branch requests are those for pages 1 .. k of the branch listing, each with `per_page` = 100. On success its log (`IsProcessingLog`) says more. Every branch name is visited exactly once, in some order. The gathered commits are each visited branch's commits, walk after walk in that order. The commits requests are each visited branch's pages 1 .. k, in the same order. The author set is that of the gathered commits and no larger than their number. Every commits request it sends, also on failure, has the shape described in `IsCommitRequestFor`. |
| `Repository.CommitsAlongMembers` | github_email_addresses/__init__.py:74-94 | The commits gathered along a visit order are exactly the commits of the visited branches' walks. |
| `Repository.AuthorsAlong` | github_email_addresses/__init__.py:76-109 | Visiting all branch names once each, in any order, gives exactly the authors found on those branches. |
| `Repository.RequestsAlongShape` | github_email_addresses/__init__.py:77-85 | Every commits request issued along a visit order has the fork-aware shape `IsCommitRequestFor`. |
| `Crawler.WorkPool.constructor` | github_email_addresses/__init__.py:142-153 | A crawl starts with the full entry list, no results, and every worker idle about to take an entry. |
| `Crawler.WorkPool.Claim` | github_email_addresses/__init__.py:49-52 | An idle worker pops the last entry of the list and holds it. On an empty list the worker returns. The results are unchanged, and the pool invariant is kept. |
| `Crawler.WorkPool.Complete` | github_email_addresses/__init__.py:99-111 | A busy worker appends exactly one `RepositoryInfo`, the reference outcome of the entry it holds, behind the results already there. On failure nothing is appended, and the error is one of the held entry's failing walks. |
| `Crawler.WorkPool.Round` | github_email_addresses/__init__.py:49-111 | One pass of the worker's loop. It pops the last entry, or returns on an empty list. It then appends that entry's reference outcome, keeping the results already there. On failure it appends nothing and reports an error of that entry's walks. |
| `Crawler.WorkPool.CollectRepositoryInformation` | github_email_addresses/__init__.py:48-111 | Run alone, a worker drains the list from the end. On success the list is empty, the worker has returned, and one result per entry was appended, last entry first. Earlier results stay untouched. On failure the error is a walk error of some entry of the list, and that entry has no reference outcome. |
| `Crawler.WorkPool.Gather` | github_email_addresses/__init__.py:144-153 | Under any interleaving of the workers, with at least one worker, success means the list is empty, every worker has returned, and every initial entry was completed exactly once. Each result is its entry's reference outcome (pool invariant). On failure the error is a walk error of some initial entry, and that entry has no reference outcome. With no workers nothing happens. |
| `Crawler.NumWorkers` | github_email_addresses/__init__.py:142-151 | The crawl starts min(number of entries, `num_max_concurrent`) workers, and none when that minimum is not positive. |
| `Crawler.AllAuthors` | github_email_addresses/__init__.py:155-159 | The final set holds every author of every result and nothing else. |
| `Crawler.AllAuthorsIgnoresOrder` | github_email_addresses/__init__.py:155-159 | The union does not depend on the order in which results were appended. |
| `Crawler.CompletedAuthors` | github_email_addresses/__init__.py:155-159 | Suppose the results hold each entry's reference outcome exactly once, in any order. Then their union is exactly the set of authors of all entries. |
| `Crawler.ObtainGithubAuthors` | github_email_addresses/__init__.py:114-159 | The repository listing requests pages 1 .. k, each with `per_page` = 100. A failed repository listing fails the crawl with its status. With at least one worker, the crawl succeeds exactly when every repository can be processed, and then returns the union of the authors of all repositories; a failure then carries a walk error of some repository. With no workers, the result is the empty set. |

## Left out

- The HTTP client (httpx), authentication, base URL and TLS are not modelled. The server
  is an abstract `Server` value, and a request is modelled by its query parameters.
- JSON decoding is not modelled, and neither are payloads missing the keys the crawler
  reads (the source would raise `KeyError` there). Entries are typed records.
- `Unanswered` is an artefact of the model. It is what a walk yields when the modelled
  server holds no further page. A real server always answers, and the source would keep
  requesting while pages stay full.
- Success is modelled as a 2xx status. This follows what current httpx's
  `raise_for_status` accepts; redirects (3xx) are not followed.
- The `since` value is passed through as the entry's `created_at` string. Its meaning as
  a timestamp is the server's business and is not modelled.
- `Crawler.ObtainGithubAuthors`: the default of 5 for `num_max_concurrent` is not modelled. Dafny has no default arguments, so every caller passes the value.
- Real concurrency is modelled only down to the two shared-state steps. Processing one
  entry is taken as one atomic step (`Complete`). This is sound here because a worker
  touches no shared state between its awaits and the modelled server answers the same
  request with the same pages. Network latency and request concurrency are not modelled.
- `Crawler.WorkPool.Gather`: when one worker raises, the model stops the whole crawl at
  that step. In the source, `asyncio.gather` propagates the first exception while the
  sibling tasks keep running. The model promises that the error reported is a walk error of some
  failing entry. It does not say which one, because that depends on the scheduling and on
  the branch-set order.
- `Repository.ProcessRepository`: on failure, the error is a walk error of this entry
  (`IsProcessingError`). Which failing branch's error it is depends on the iteration order
  of the branch set. That order is a nondeterministic choice here, so the model does not fix it.
- The command-line front end (`cli.py`) and the script `github_email_addresses.py` are not
  part of this model. The script prints, sorts and groups authors per repository. The
  packaging file `setup.py` is not part of this model either.
- The grouping of authors by repository is done by the script, not by the core. The core
  returns only the union of the author sets, and that union is what is modelled.
