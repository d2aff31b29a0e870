/** The platform-neutral review and file-change records (src/api/types.ts). */
module ApiTypes {
  import opened Wrappers

  datatype ReviewState = Open | Closed | Merged | Draft

  datatype Author = Author(id: string, displayName: string, avatarUrl: string)

  /** A pull request as the review pages see it; dates are milliseconds since the epoch. */
  datatype Review = Review(
    id: nat,
    number: nat,
    title: string,
    description: string,
    state: ReviewState,
    author: Author,
    sourceBranch: string,
    targetBranch: string,
    htmlUrl: string,
    createdAt: int,
    updatedAt: int)

  datatype FileChangeStatus = Added | Modified | Deleted | Renamed

  /** One changed file; `previousFilename` is the optional property of the source. */
  datatype FileChange = FileChange(
    filename: string,
    status: FileChangeStatus,
    additions: nat,
    deletions: nat,
    changes: nat,
    patch: string,
    previousFilename: Option<string>)
}
