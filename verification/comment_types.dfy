/** Review comments and threads (src/features/comments/types.ts); dates are milliseconds. */
module CommentTypes {
  import opened Wrappers

  datatype Side = Left | Right

  /** `"LEFT"` or `"RIGHT"`, as the side is written in keys and payloads. */
  function SideName(side: Side): string {
    match side
    case Left => "LEFT"
    case Right => "RIGHT"
  }

  datatype CommentAuthor = CommentAuthor(id: string, login: string, avatarUrl: string)

  /** `inReplyTo` is the optional property: None when the comment is not a reply. */
  datatype Comment = Comment(
    id: string,
    body: string,
    author: CommentAuthor,
    createdAt: int,
    updatedAt: int,
    path: string,
    line: nat,
    side: Side,
    position: Option<nat>,
    inReplyTo: Option<string>)

  datatype ReviewThread = ReviewThread(
    id: string,
    path: string,
    line: nat,
    side: Side,
    comments: seq<Comment>,
    isResolved: bool)

  /** The sort key of the store and of the diff view: a comment's creation time. */
  function CreatedAt(c: Comment): int {
    c.createdAt
  }
}
