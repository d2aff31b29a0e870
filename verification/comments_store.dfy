/**
 * The review-comments store (src/features/comments/stores/useCommentsStore.ts):
 * each action is a function from the state before to the state after. The
 * clock reading and the locally created ids are parameters.
 */
module CommentsStore {
  import opened Wrappers
  import opened Strings
  import opened CommentTypes
  import opened GitHubTypes
  import opened CommentThreads
  import opened Failures

  datatype CommentsState = CommentsState(
    threads: seq<ReviewThread>,
    isLoading: bool,
    error: Option<string>,
    announcement: string,
    currentUser: CommentAuthor)

  const DefaultCurrentUser := CommentAuthor("local-user", "you", "https://avatars.githubusercontent.com/u/583231?v=4")

  const Initial := CommentsState([], false, None, "", DefaultCurrentUser)

  /** `loadThreads` before its request: loading, no error, threads kept. */
  function LoadThreadsStarted(st: CommentsState): (r: CommentsState)
    ensures r.isLoading && r.error.None?
    ensures r.(isLoading := st.isLoading, error := st.error) == st
  {
    st.(isLoading := true, error := None)
  }

  /** `loadThreads` after the comments arrived: the threads are rebuilt from them. */
  function LoadThreadsSucceeded(st: CommentsState, batch: seq<GitHubReviewComment>): (r: CommentsState)
    requires RepliesAcyclic(batch)
    ensures r.threads == GroupCommentsIntoThreads(batch)
    ensures !r.isLoading && CommentCount(r.threads) == |batch|
    ensures forall i :: 0 <= i < |r.threads| ==> |r.threads[i].comments| > 0
    ensures r.(threads := st.threads, isLoading := st.isLoading) == st
  {
    st.(threads := GroupCommentsIntoThreads(batch), isLoading := false)
  }

  /** The message of a failed `loadThreads`, with the thrown error's message appended when it has one. */
  function LoadThreadsMessage(owner: string, repo: string, number: nat, failure: Failure): (m: string)
    ensures StartsWith(m, "Unable to load comments for pull request #" + NatToDecimal(number) + " in " + owner + "/" + repo)
    ensures failure.OtherFailure? ==> m == "Unable to load comments for pull request #" + NatToDecimal(number) + " in " + owner + "/" + repo
    ensures !failure.OtherFailure? ==> m == "Unable to load comments for pull request #" + NatToDecimal(number) + " in " + owner + "/" + repo + ": " + failure.message
  {
    var base := "Unable to load comments for pull request #" + NatToDecimal(number) + " in " + owner + "/" + repo;
    match failure
    case ApiFailure(_, message) => base + ": " + message
    case ErrorFailure(message) => base + ": " + message
    case OtherFailure => base
  }

  /** `loadThreads` after its request failed: the error is set and the threads are left as they were. */
  function LoadThreadsFailed(st: CommentsState, owner: string, repo: string, number: nat, failure: Failure): (r: CommentsState)
    ensures !r.isLoading && r.error == Some(LoadThreadsMessage(owner, repo, number, failure))
    ensures r.threads == st.threads && r.announcement == st.announcement && r.currentUser == st.currentUser
  {
    st.(error := Some(LoadThreadsMessage(owner, repo, number, failure)), isLoading := false)
  }

  predicate Anchored(t: ReviewThread, path: string, line: nat, side: Side) {
    t.path == path && t.line == line && t.side == side
  }

  /** `threads.findIndex`: the first thread anchored at (path, line, side). */
  function FindThread(threads: seq<ReviewThread>, path: string, line: nat, side: Side): (r: Option<nat>)
    ensures r.Some? ==> r.value < |threads| && Anchored(threads[r.value], path, line, side)
                        && forall j :: 0 <= j < r.value ==> !Anchored(threads[j], path, line, side)
    ensures r.None? ==> forall j :: 0 <= j < |threads| ==> !Anchored(threads[j], path, line, side)
    decreases |threads|
  {
    if |threads| == 0 then None
    else if Anchored(threads[0], path, line, side) then Some(0)
    else match FindThread(threads[1..], path, line, side)
         case Some(j) => Some(j + 1)
         case None => None
  }

  /**
   * `addComment`: the new comment joins the end of the first thread at its
   * anchor, or starts a new unresolved thread at the end of the list.
   */
  function AddComment(st: CommentsState, path: string, line: nat, side: Side, body: string,
                      position: Option<nat>, now: int, commentId: string, threadId: string): (r: CommentsState)
    ensures var c := Comment(commentId, body, st.currentUser, now, now, path, line, side, position, None);
            match FindThread(st.threads, path, line, side)
            case Some(i) =>
              && |r.threads| == |st.threads|
              && r.threads[i] == st.threads[i].(comments := st.threads[i].comments + [c])
              && forall j :: 0 <= j < |st.threads| && j != i ==> r.threads[j] == st.threads[j]
            case None =>
              r.threads == st.threads + [ReviewThread(threadId, path, line, side, [c], false)]
    ensures r.announcement == "Comment posted."
    ensures r.(threads := st.threads, announcement := st.announcement) == st
  {
    var c := Comment(commentId, body, st.currentUser, now, now, path, line, side, position, None);
    match FindThread(st.threads, path, line, side)
    case Some(i) =>
      st.(threads := st.threads[i := st.threads[i].(comments := st.threads[i].comments + [c])],
          announcement := "Comment posted.")
    case None =>
      st.(threads := st.threads + [ReviewThread(threadId, path, line, side, [c], false)],
          announcement := "Comment posted.")
  }

  /**
   * The reply `addReply` appends to thread `t`: anchored like the thread,
   * answering its last comment (when that has a non-empty id) and taking
   * that comment's position.
   */
  function Reply(t: ReviewThread, id: string, body: string, author: CommentAuthor, now: int): (c: Comment)
    ensures c.path == t.path && c.line == t.line && c.side == t.side
    ensures c.position == (if |t.comments| > 0 then t.comments[|t.comments| - 1].position else None)
    ensures c.inReplyTo.Some? <==> |t.comments| > 0 && t.comments[|t.comments| - 1].id != ""
    ensures c.inReplyTo.Some? ==> c.inReplyTo.value == t.comments[|t.comments| - 1].id
  {
    var last := if |t.comments| > 0 then Some(t.comments[|t.comments| - 1]) else None;
    Comment(id, body, author, now, now, t.path, t.line, t.side,
            if last.Some? then last.value.position else None,
            if last.Some? && last.value.id != "" then Some(last.value.id) else None)
  }

  function ReplyAll(threads: seq<ReviewThread>, threadId: string, body: string, author: CommentAuthor,
                    now: int, freshId: nat -> string): (r: seq<ReviewThread>)
    ensures |r| == |threads|
    ensures forall i :: 0 <= i < |threads| ==>
              r[i] == if threads[i].id == threadId
                      then threads[i].(comments := threads[i].comments + [Reply(threads[i], freshId(i), body, author, now)])
                      else threads[i]
  {
    if |threads| == 0 then []
    else
      var n := |threads| - 1;
      var t := threads[n];
      ReplyAll(threads[..n], threadId, body, author, now, freshId)
      + [if t.id == threadId then t.(comments := t.comments + [Reply(t, freshId(n), body, author, now)]) else t]
  }

  /**
   * `addReply`: every thread with the given id gains one reply at its end
   * (`freshId(i)` is the id created while mapping thread `i`); the other
   * threads are untouched.
   */
  function AddReply(st: CommentsState, threadId: string, body: string, now: int, freshId: nat -> string): (r: CommentsState)
    ensures |r.threads| == |st.threads|
    ensures forall i :: 0 <= i < |st.threads| && st.threads[i].id != threadId ==> r.threads[i] == st.threads[i]
    ensures forall i :: 0 <= i < |st.threads| && st.threads[i].id == threadId ==>
              && r.threads[i].(comments := st.threads[i].comments) == st.threads[i]
              && |r.threads[i].comments| == |st.threads[i].comments| + 1
              && r.threads[i].comments[..|st.threads[i].comments|] == st.threads[i].comments
              && r.threads[i].comments[|st.threads[i].comments|]
                 == Reply(st.threads[i], freshId(i), body, st.currentUser, now)
    ensures r.announcement == "Reply posted."
    ensures r.(threads := st.threads, announcement := st.announcement) == st
  {
    var threads := ReplyAll(st.threads, threadId, body, st.currentUser, now, freshId);
    assert forall i :: 0 <= i < |st.threads| && st.threads[i].id == threadId ==>
             threads[i].comments[..|st.threads[i].comments|] == st.threads[i].comments;
    st.(threads := threads, announcement := "Reply posted.")
  }

  /** The comments of `cs` with `id` edited: new body and update time. */
  function EditIn(cs: seq<Comment>, id: string, body: string, now: int): (r: seq<Comment>)
    ensures |r| == |cs|
    ensures forall k :: 0 <= k < |cs| ==>
              r[k] == if cs[k].id == id then cs[k].(body := body, updatedAt := now) else cs[k]
  {
    if |cs| == 0 then []
    else
      var n := |cs| - 1;
      EditIn(cs[..n], id, body, now)
      + [if cs[n].id == id then cs[n].(body := body, updatedAt := now) else cs[n]]
  }

  function EditAll(threads: seq<ReviewThread>, id: string, body: string, now: int): (r: seq<ReviewThread>)
    ensures |r| == |threads|
    ensures forall i :: 0 <= i < |threads| ==>
              r[i] == threads[i].(comments := EditIn(threads[i].comments, id, body, now))
  {
    if |threads| == 0 then []
    else
      var n := |threads| - 1;
      EditAll(threads[..n], id, body, now)
      + [threads[n].(comments := EditIn(threads[n].comments, id, body, now))]
  }

  /** `editComment`: only the body and update time of the comments with the id change. */
  function EditComment(st: CommentsState, commentId: string, body: string, now: int): (r: CommentsState)
    ensures |r.threads| == |st.threads|
    ensures forall i :: 0 <= i < |st.threads| ==>
              && r.threads[i].(comments := st.threads[i].comments) == st.threads[i]
              && |r.threads[i].comments| == |st.threads[i].comments|
    ensures forall i, k :: 0 <= i < |st.threads| && 0 <= k < |st.threads[i].comments| ==>
              var c := st.threads[i].comments[k];
              r.threads[i].comments[k] == if c.id == commentId then c.(body := body, updatedAt := now) else c
    ensures r.announcement == "Comment updated."
    ensures r.(threads := st.threads, announcement := st.announcement) == st
  {
    st.(threads := EditAll(st.threads, commentId, body, now), announcement := "Comment updated.")
  }

  /** `comments.filter(c => c.id !== id)`. */
  function Without(cs: seq<Comment>, id: string): (r: seq<Comment>)
    ensures forall c :: c in r <==> c in cs && c.id != id
    ensures |r| <= |cs|
  {
    if |cs| == 0 then []
    else
      var n := |cs| - 1;
      Without(cs[..n], id) + (if cs[n].id != id then [cs[n]] else [])
  }

  /** Each thread with the comments carrying `id` removed. */
  function StripAll(threads: seq<ReviewThread>, id: string): seq<ReviewThread> {
    seq(|threads|, i requires 0 <= i < |threads| => threads[i].(comments := Without(threads[i].comments, id)))
  }

  /** `threads.filter(t => t.comments.length > 0)`. */
  function NonEmptyThreads(threads: seq<ReviewThread>): seq<ReviewThread> {
    if |threads| == 0 then []
    else
      var n := |threads| - 1;
      NonEmptyThreads(threads[..n]) + (if |threads[n].comments| > 0 then [threads[n]] else [])
  }

  /**
   * `deleteComment`: no comment with the id survives, every other comment
   * stays in a thread with its thread's id, and no thread is left empty.
   * The threads left are the non-empty ones of the stripped threads, in
   * order, each an old thread with only the comments carrying the id gone.
   */
  function DeleteComment(st: CommentsState, commentId: string): (r: CommentsState)
    ensures r.threads == NonEmptyThreads(StripAll(st.threads, commentId))
    ensures forall t :: t in r.threads ==>
              exists i :: 0 <= i < |st.threads| && t == st.threads[i].(comments := Without(st.threads[i].comments, commentId))
    ensures forall t :: t in r.threads ==> |t.comments| > 0
    ensures forall t, c :: t in r.threads && c in t.comments ==> c.id != commentId
    ensures forall i, c :: 0 <= i < |st.threads| && c in st.threads[i].comments && c.id != commentId ==>
              exists t :: t in r.threads && c in t.comments && t.id == st.threads[i].id
    ensures r.announcement == "Comment deleted."
    ensures r.(threads := st.threads, announcement := st.announcement) == st
  {
    var stripped := StripAll(st.threads, commentId);
    var threads := NonEmptyThreads(stripped);
    NonEmptyThreadsMembers(stripped);
    forall i, c | 0 <= i < |st.threads| && c in st.threads[i].comments && c.id != commentId
      ensures exists t :: t in threads && c in t.comments && t.id == st.threads[i].id
    {
      assert c in stripped[i].comments;
      assert stripped[i] in threads;
    }
    forall t | t in threads
      ensures exists i :: 0 <= i < |st.threads| && t == st.threads[i].(comments := Without(st.threads[i].comments, commentId))
    {
      var i :| 0 <= i < |stripped| && stripped[i] == t;
    }
    forall t, c | t in threads && c in t.comments ensures c.id != commentId {
      var i :| 0 <= i < |stripped| && stripped[i] == t;
    }
    st.(threads := threads, announcement := "Comment deleted.")
  }

  function ToggleAll(threads: seq<ReviewThread>, threadId: string): (r: seq<ReviewThread>)
    ensures |r| == |threads|
    ensures forall i :: 0 <= i < |threads| ==>
              r[i] == if threads[i].id == threadId then threads[i].(isResolved := !threads[i].isResolved) else threads[i]
  {
    if |threads| == 0 then []
    else
      var n := |threads| - 1;
      var t := threads[n];
      ToggleAll(threads[..n], threadId) + [if t.id == threadId then t.(isResolved := !t.isResolved) else t]
  }

  /** `toggleResolved`: flips the resolved flag of the threads with the id; comments and announcement are untouched. */
  function ToggleResolved(st: CommentsState, threadId: string): (r: CommentsState)
    ensures |r.threads| == |st.threads|
    ensures forall i :: 0 <= i < |st.threads| ==>
              && r.threads[i].(isResolved := st.threads[i].isResolved) == st.threads[i]
              && (r.threads[i].isResolved <==> (st.threads[i].isResolved != (st.threads[i].id == threadId)))
    ensures r.(threads := st.threads) == st
  {
    st.(threads := ToggleAll(st.threads, threadId))
  }

  function ClearError(st: CommentsState): (r: CommentsState)
    ensures r.error.None? && r.(error := st.error) == st
  {
    st.(error := None)
  }

  function ClearAnnouncement(st: CommentsState): (r: CommentsState)
    ensures r.announcement == "" && r.(announcement := st.announcement) == st
  {
    st.(announcement := "")
  }

  /** `reset`: no threads, not loading, no error, no announcement; the current user stays. */
  function Reset(st: CommentsState): (r: CommentsState)
    ensures r == Initial.(currentUser := st.currentUser)
  {
    st.(threads := [], isLoading := false, error := None, announcement := "")
  }

  /** Toggling a thread twice restores the state's threads. */
  lemma ToggleTwice(st: CommentsState, threadId: string)
    ensures ToggleResolved(ToggleResolved(st, threadId), threadId) == st
  {
    var once := ToggleResolved(st, threadId);
    var twice := ToggleResolved(once, threadId);
    assert twice.threads == st.threads;
  }

  /** Some comment of some thread carries `id`. */
  ghost predicate UsesCommentId(threads: seq<ReviewThread>, id: string) {
    exists t, c :: t in threads && c in t.comments && c.id == id
  }

  /**
   * Deleting a freshly added comment gives the threads back, provided its id
   * was not in use and no thread was empty.
   */
  lemma DeleteUndoesAdd(st: CommentsState, path: string, line: nat, side: Side, body: string,
                        position: Option<nat>, now: int, commentId: string, threadId: string)
    requires !UsesCommentId(st.threads, commentId)
    requires forall t :: t in st.threads ==> |t.comments| > 0
    ensures DeleteComment(AddComment(st, path, line, side, body, position, now, commentId, threadId), commentId).threads
            == st.threads
  {
    var added := AddComment(st, path, line, side, body, position, now, commentId, threadId).threads;
    var c := Comment(commentId, body, st.currentUser, now, now, path, line, side, position, None);
    match FindThread(st.threads, path, line, side)
    case Some(i) =>
      assert added == st.threads[i := st.threads[i].(comments := st.threads[i].comments + [c])];
      DeleteUndoesAppend(st.threads, i, c);
    case None =>
      assert added == st.threads + [ReviewThread(threadId, path, line, side, [c], false)];
      DeleteUndoesNewThread(st.threads, ReviewThread(threadId, path, line, side, [c], false), c);
  }

  lemma NoneStripped(threads: seq<ReviewThread>, id: string)
    requires !UsesCommentId(threads, id)
    ensures forall j :: 0 <= j < |threads| ==> Without(threads[j].comments, id) == threads[j].comments
  {
    forall j | 0 <= j < |threads| ensures Without(threads[j].comments, id) == threads[j].comments {
      WithoutAbsent(threads[j].comments, id);
    }
  }

  lemma DeleteUndoesAppend(threads: seq<ReviewThread>, i: nat, c: Comment)
    requires i < |threads| && !UsesCommentId(threads, c.id)
    requires forall t :: t in threads ==> |t.comments| > 0
    ensures NonEmptyThreads(StripAll(threads[i := threads[i].(comments := threads[i].comments + [c])], c.id))
            == threads
  {
    var u := threads[i];
    var added := threads[i := u.(comments := u.comments + [c])];
    var stripped := StripAll(added, c.id);
    NoneStripped(threads, c.id);
    forall j | 0 <= j < |threads| ensures stripped[j] == threads[j] {
      if j == i {
        var cs := u.comments + [c];
        assert cs[..|cs| - 1] == u.comments;
        assert Without(cs, c.id) == Without(u.comments, c.id);
      }
    }
    assert stripped == threads;
    forall j | 0 <= j < |threads| ensures |threads[j].comments| > 0 {
      assert threads[j] in threads;
    }
    NonEmptyThreadsKeeps(threads);
  }

  lemma DeleteUndoesNewThread(threads: seq<ReviewThread>, t: ReviewThread, c: Comment)
    requires !UsesCommentId(threads, c.id) && t.comments == [c]
    requires forall t :: t in threads ==> |t.comments| > 0
    ensures NonEmptyThreads(StripAll(threads + [t], c.id)) == threads
  {
    NoneStripped(threads, c.id);
    assert Without([c], c.id) == [] by {
      assert [c][..0] == [];
    }
    var stripped := StripAll(threads + [t], c.id);
    assert stripped[..|threads|] == threads;
    assert stripped == threads + [t.(comments := [])];
    NonEmptyThreadsKeeps(threads);
  }

  lemma {:induction false} WithoutAbsent(cs: seq<Comment>, id: string)
    requires forall c :: c in cs ==> c.id != id
    ensures Without(cs, id) == cs
    decreases |cs|
  {
    if |cs| > 0 {
      WithoutAbsent(cs[..|cs| - 1], id);
      assert cs == cs[..|cs| - 1] + [cs[|cs| - 1]];
    }
  }

  lemma {:induction false} NonEmptyThreadsMembers(threads: seq<ReviewThread>)
    ensures forall t :: t in NonEmptyThreads(threads) <==> t in threads && |t.comments| > 0
    decreases |threads|
  {
    if |threads| > 0 {
      var n := |threads| - 1;
      NonEmptyThreadsMembers(threads[..n]);
      assert threads == threads[..n] + [threads[n]];
    }
  }

  lemma {:induction false} NonEmptyThreadsKeeps(threads: seq<ReviewThread>)
    requires forall i :: 0 <= i < |threads| ==> |threads[i].comments| > 0
    ensures NonEmptyThreads(threads) == threads
    decreases |threads|
  {
    if |threads| > 0 {
      var n := |threads| - 1;
      NonEmptyThreadsKeeps(threads[..n]);
      assert threads == threads[..n] + [threads[n]];
    }
  }
}
