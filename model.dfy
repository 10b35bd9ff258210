/** The values the crawler works on: GitHub's JSON entries, as far as the crawler reads them,
    the page responses of the REST API, and the two records the crawler produces. */
module Model {

  /** The most items GitHub returns on one page of a listing; every request asks for it. */
  const MAX_NUM_RESULTS_PER_PAGE: nat := 100

  /** HTTP 409 Conflict: what the commits endpoint answers for a repository without commits. */
  const CONFLICT: int := 409

  datatype Option<T> = None | Some(value: T)

  /** Why a walk over a listing did not complete. */
  datatype Error =
    | HttpStatus(code: int)   // a response whose status is not 2xx (raise_for_status)
    | Unanswered              // the modelled server has no response for the next page

  datatype Result<T> = Success(value: T) | Failure(error: Error)

  /** The statuses raise_for_status lets through. */
  predicate IsSuccess(status: int) {
    200 <= status < 300
  }

  /** A query-parameter value: the crawler sends integers (per_page, page) and strings (sha, since). */
  datatype Value = IntValue(i: int) | StrValue(s: string)

  type Params = map<string, Value>

  /** One page response: its status code and the decoded JSON list. */
  datatype Page<T> = Page(status: int, items: seq<T>)

  /** The identity recorded on a commit, `commit.author` or `commit.committer` in the JSON. */
  datatype Signature = Signature(name: string, email: string)

  /** An entry of the commits listing. */
  datatype Commit = Commit(author: Signature, committer: Signature)

  /** An entry of the branches listing. */
  datatype BranchEntry = BranchEntry(name: string)

  /** An entry of the repositories listing: `full_name`, `name`, `owner.login`, `fork`, `created_at`. */
  datatype RepositoryEntry = RepositoryEntry(
    fullName: string,
    name: string,
    ownerLogin: string,
    fork: bool,
    createdAt: string)

  /** The non-page parameters of a commits request that choose what the server lists. */
  datatype CommitFilter = CommitFilter(sha: string, since: Option<string>)

  /** The REST API as the crawler sees it. Each endpoint, with its non-page parameters, answers
      a finite sequence of pages: element i is the response to the request for page i + 1. */
  datatype Server = Server(
    repositories: string -> seq<Page<RepositoryEntry>>,    // /users/{username}/repos
    branches: string -> seq<Page<BranchEntry>>,            // /repos/{full_name}/branches
    commits: (string, CommitFilter) -> seq<Page<Commit>>)  // /repos/{full_name}/commits

  /** A commit author; equality is structural, so a set of them holds each identity once. */
  datatype CommitAuthor = CommitAuthor(name: string, emailAddress: string) {

    /** The string form, "{email} {name}". */
    function ToString(): string {
      emailAddress + " " + name
    }
  }

  /** What the crawler records about one repository. */
  datatype RepositoryInfo = RepositoryInfo(name: string, owner: string, commitAuthors: set<CommitAuthor>)

  /** The string form loses nothing when e-mail addresses contain no space: it then tells
      authors apart exactly as their structural equality does. */
  lemma ToStringInjective(a: CommitAuthor, b: CommitAuthor)
    requires ' ' !in a.emailAddress && ' ' !in b.emailAddress
    ensures a.ToString() == b.ToString() <==> a == b
  {
    if a.ToString() == b.ToString() {
      var s := a.ToString();
      var m, n := |a.emailAddress|, |b.emailAddress|;
      assert s[m] == ' ' && b.ToString()[n] == ' ';
      assert forall k :: 0 <= k < m ==> s[k] == a.emailAddress[k];
      assert forall k :: 0 <= k < n ==> s[k] == b.emailAddress[k];
      assert m == n;
      assert a.emailAddress == s[..m] == b.emailAddress;
      assert a.name == s[m + 1..] == b.name;
    }
  }
}
