/**
 * The GitHub backends (src/api/github/review-backend.ts and
 * src/api/github/file-backend.ts): the request path each one fetches, and the
 * mapping from GitHub's pull-request and file payloads to the
 * platform-neutral `Review` and `FileChange`. The fetch itself is an oracle:
 * its outcome is a parameter, and a failure passes through unchanged.
 */
module GitHubBackends {
  import opened Wrappers
  import opened Strings
  import opened ApiTypes
  import opened GitHubTypes
  import opened Failures

  // ---------------------------------------------------------------------------
  // Request paths
  // ---------------------------------------------------------------------------

  /** The pieces of the review path between its slashes. */
  function ReviewPieces(owner: string, repo: string, number: nat): seq<string> {
    ["", "repos", owner, repo, "pulls", NatToDecimal(number)]
  }

  /** `/repos/<owner>/<repo>/pulls/<number>`, with the names put in as they are. */
  function ReviewPath(owner: string, repo: string, number: nat): string {
    Join(ReviewPieces(owner, repo, number), '/')
  }

  /** The files of the same pull request: `<review path>/files`. */
  function FilesPath(owner: string, repo: string, number: nat): string {
    Join(ReviewPieces(owner, repo, number) + ["files"], '/')
  }

  lemma NoSlashInDecimal(n: nat)
    ensures '/' !in NatToDecimal(n)
  {
    var d := NatToDecimal(n);
    assert forall k :: 0 <= k < |d| ==> d[k] != '/';
  }

  /**
   * With slash-free names the path splits back into its pieces, so distinct
   * requests never share a path.
   */
  lemma ReviewPathSplits(owner: string, repo: string, number: nat)
    requires '/' !in owner && '/' !in repo
    ensures Split(ReviewPath(owner, repo, number), '/') == ReviewPieces(owner, repo, number)
  {
    NoSlashInDecimal(number);
    var ps := ReviewPieces(owner, repo, number);
    assert forall i :: 0 <= i < |ps| ==> '/' !in ps[i];
    SplitJoin(ps, '/');
  }

  lemma ReviewPathInjective(o1: string, r1: string, n1: nat, o2: string, r2: string, n2: nat)
    requires '/' !in o1 && '/' !in r1 && '/' !in o2 && '/' !in r2
    ensures ReviewPath(o1, r1, n1) == ReviewPath(o2, r2, n2) <==> o1 == o2 && r1 == r2 && n1 == n2
  {
    if ReviewPath(o1, r1, n1) == ReviewPath(o2, r2, n2) {
      ReviewPathSplits(o1, r1, n1);
      ReviewPathSplits(o2, r2, n2);
      assert ReviewPieces(o1, r1, n1)[5] == ReviewPieces(o2, r2, n2)[5];
      NatToDecimalInjective(n1, n2);
    }
  }

  /** The files path is the review path with one more piece, `files`. */
  lemma FilesPathSplits(owner: string, repo: string, number: nat)
    requires '/' !in owner && '/' !in repo
    ensures FilesPath(owner, repo, number) == ReviewPath(owner, repo, number) + "/files"
    ensures Split(FilesPath(owner, repo, number), '/') == ReviewPieces(owner, repo, number) + ["files"]
  {
    NoSlashInDecimal(number);
    var ps := ReviewPieces(owner, repo, number) + ["files"];
    JoinSnoc(ReviewPieces(owner, repo, number), "files", '/');
    assert forall i :: 0 <= i < |ps| ==> '/' !in ps[i];
    SplitJoin(ps, '/');
  }

  // ---------------------------------------------------------------------------
  // Pull requests
  // ---------------------------------------------------------------------------

  /** `mapState`: a draft wins over merged, merged over the open/closed state. */
  function MapState(state: PullState, merged: bool, draft: bool): (r: ReviewState)
    ensures r == Draft <==> draft
    ensures r == Merged <==> !draft && merged
    ensures r == Open <==> !draft && !merged && state == PullOpen
    ensures r == Closed <==> !draft && !merged && state == PullClosed
  {
    if draft then Draft
    else if merged then Merged
    else match state
      case PullOpen => Open
      case PullClosed => Closed
  }

  /** `getReview`'s mapping; the two dates are taken as already parsed. */
  function MapReview(pr: GitHubPullRequest): (r: Review)
    ensures r.id == pr.id && r.number == pr.number && r.title == pr.title
    ensures pr.body.Some? ==> r.description == pr.body.value
    ensures pr.body.None? ==> r.description == ""
    ensures r.state == MapState(pr.state, pr.merged, pr.draft)
    ensures AllDigits(r.author.id) && DecimalValue(r.author.id) == pr.user.id
    ensures |r.author.id| > 1 ==> r.author.id[0] != '0'
    ensures r.author.displayName == pr.user.login && r.author.avatarUrl == pr.user.avatarUrl
    ensures r.sourceBranch == pr.head.ref && r.targetBranch == pr.base.ref
    ensures r.htmlUrl == pr.htmlUrl && r.createdAt == pr.createdAt && r.updatedAt == pr.updatedAt
  {
    Review(
      pr.id, pr.number, pr.title, pr.body.GetOr(""),
      MapState(pr.state, pr.merged, pr.draft),
      Author(NatToDecimal(pr.user.id), pr.user.login, pr.user.avatarUrl),
      pr.head.ref, pr.base.ref, pr.htmlUrl, pr.createdAt, pr.updatedAt)
  }

  /** Two pull requests have the same author id exactly when their users share the numeric id. */
  lemma AuthorIdFaithful(a: GitHubPullRequest, b: GitHubPullRequest)
    ensures MapReview(a).author.id == MapReview(b).author.id <==> a.user.id == b.user.id
  {
    NatToDecimalInjective(a.user.id, b.user.id);
  }

  /** `getReview`: the fetched pull request mapped, or the fetch's failure as it came. */
  function GetReview(fetched: Outcome<GitHubPullRequest>): (r: Outcome<Review>)
    ensures r.Success? <==> fetched.Success?
    ensures fetched.Success? ==> r.value == MapReview(fetched.value)
    ensures fetched.Failed? ==> r.failure == fetched.failure
  {
    match fetched
    case Success(pr) => Success(MapReview(pr))
    case Failed(f) => Failed(f)
  }

  // ---------------------------------------------------------------------------
  // Files
  // ---------------------------------------------------------------------------

  /** `mapStatus`: `added`, `removed` and `renamed` keep their meaning; every other status reads as modified. */
  function MapStatus(status: GitHubFileStatus): (r: FileChangeStatus)
    ensures r == Added <==> status == FileAdded
    ensures r == Deleted <==> status == FileRemoved
    ensures r == Renamed <==> status == FileRenamed
    ensures r == Modified <==> status !in {FileAdded, FileRemoved, FileRenamed}
  {
    match status
    case FileAdded => Added
    case FileRemoved => Deleted
    case FileRenamed => Renamed
    case _ => Modified
  }

  /**
   * One file of `getFiles`: a missing patch reads as empty, and the previous
   * name is kept only when it is present and not empty.
   */
  function MapFile(f: GitHubFile): (r: FileChange)
    ensures r.filename == f.filename && r.status == MapStatus(f.status)
    ensures r.additions == f.additions && r.deletions == f.deletions && r.changes == f.changes
    ensures f.patch.Some? ==> r.patch == f.patch.value
    ensures f.patch.None? ==> r.patch == ""
    ensures r.previousFilename.Some? <==> f.previousFilename.Some? && f.previousFilename.value != ""
    ensures r.previousFilename.Some? ==> r.previousFilename == f.previousFilename
  {
    var previous := if f.previousFilename.Some? && f.previousFilename.value != "" then f.previousFilename else None;
    FileChange(f.filename, MapStatus(f.status), f.additions, f.deletions, f.changes, f.patch.GetOr(""), previous)
  }

  /** `data.map(...)`: one change per file, in the order GitHub listed them. */
  function MapFiles(fs: seq<GitHubFile>): (r: seq<FileChange>)
    ensures |r| == |fs|
    ensures forall i :: 0 <= i < |fs| ==> r[i] == MapFile(fs[i])
  {
    seq(|fs|, i requires 0 <= i < |fs| => MapFile(fs[i]))
  }

  /** Mapping a concatenation maps each part: a page boundary changes nothing. */
  lemma MapFilesAppend(xs: seq<GitHubFile>, ys: seq<GitHubFile>)
    ensures MapFiles(xs + ys) == MapFiles(xs) + MapFiles(ys)
  {
    assert forall i :: 0 <= i < |xs| + |ys| ==> MapFiles(xs + ys)[i] == (MapFiles(xs) + MapFiles(ys))[i];
  }

  /** `getFiles`: the fetched list mapped, or the fetch's failure as it came. */
  function GetFiles(fetched: Outcome<seq<GitHubFile>>): (r: Outcome<seq<FileChange>>)
    ensures r.Success? <==> fetched.Success?
    ensures fetched.Success? ==> r.value == MapFiles(fetched.value)
    ensures fetched.Failed? ==> r.failure == fetched.failure
  {
    match fetched
    case Success(fs) => Success(MapFiles(fs))
    case Failed(f) => Failed(f)
  }
}
