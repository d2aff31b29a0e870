/**
 * GitHub REST payloads (src/api/github/types.ts). Date strings are taken as
 * already parsed into milliseconds since the epoch.
 */
module GitHubTypes {
  import opened Wrappers
  import opened CommentTypes

  datatype GitHubUser = GitHubUser(id: nat, login: string, avatarUrl: string)

  datatype GitHubBranch = GitHubBranch(ref: string, sha: string)

  datatype PullState = PullOpen | PullClosed

  datatype GitHubPullRequest = GitHubPullRequest(
    id: nat,
    number: nat,
    title: string,
    body: Option<string>,
    state: PullState,
    merged: bool,
    draft: bool,
    user: GitHubUser,
    head: GitHubBranch,
    base: GitHubBranch,
    htmlUrl: string,
    createdAt: int,
    updatedAt: int)

  /** The seven file statuses GitHub reports. */
  datatype GitHubFileStatus = FileAdded | FileModified | FileRemoved | FileRenamed
                            | FileCopied | FileChanged | FileUnchanged

  datatype GitHubFile = GitHubFile(
    filename: string,
    status: GitHubFileStatus,
    additions: nat,
    deletions: nat,
    changes: nat,
    patch: Option<string>,
    previousFilename: Option<string>)

  /**
   * A pull-request review comment with the fields the comments store reads;
   * `line`, `position` and `inReplyToId` are GitHub's nullable numbers.
   */
  datatype GitHubReviewComment = GitHubReviewComment(
    id: nat,
    body: string,
    user: GitHubUser,
    createdAt: int,
    updatedAt: int,
    path: string,
    line: Option<nat>,
    side: Side,
    position: Option<nat>,
    inReplyToId: Option<nat>)
}
