/**
 * Rebuilding review threads from GitHub's flat list of review comments
 * (`mapGitHubComment` and `groupCommentsIntoThreads` of the comments store).
 */
module CommentThreads {
  import opened Wrappers
  import opened Strings
  import opened Sorting
  import opened Grouping
  import opened CommentTypes
  import opened GitHubTypes

  /** The store's view of one GitHub comment: ids printed in decimal, a missing line read as 0. */
  function MapGitHubComment(c: GitHubReviewComment): (r: Comment)
    ensures AllDigits(r.id) && DecimalValue(r.id) == c.id
    ensures AllDigits(r.author.id) && DecimalValue(r.author.id) == c.user.id
    ensures r.line == (if c.line.Some? then c.line.value else 0)
    ensures r.inReplyTo.Some? <==> c.inReplyToId.Some?
    ensures r.inReplyTo.Some? ==> AllDigits(r.inReplyTo.value) && DecimalValue(r.inReplyTo.value) == c.inReplyToId.value
    ensures (r.body, r.path, r.side, r.position, r.createdAt, r.updatedAt)
            == (c.body, c.path, c.side, c.position, c.createdAt, c.updatedAt)
  {
    Comment(
      NatToDecimal(c.id),
      c.body,
      CommentAuthor(NatToDecimal(c.user.id), c.user.login, c.user.avatarUrl),
      c.createdAt,
      c.updatedAt,
      c.path,
      c.line.GetOr(0),
      c.side,
      c.position,
      match c.inReplyToId
      case Some(p) => Some(NatToDecimal(p))
      case None => None)
  }

  /**
   * The index of the comment the batch's id map holds for `id` among the
   * first `n` comments: the last one carrying it, since a later `set` wins.
   */
  function LastWithId(batch: seq<GitHubReviewComment>, id: nat, n: nat): (r: Option<nat>)
    requires n <= |batch|
    ensures r.Some? ==> r.value < n && batch[r.value].id == id
                        && forall j :: r.value < j < n ==> batch[j].id != id
    ensures r.None? ==> forall j :: 0 <= j < n ==> batch[j].id != id
  {
    if n == 0 then None
    else if batch[n - 1].id == id then Some(n - 1)
    else LastWithId(batch, id, n - 1)
  }

  /**
   * The comment the root walk moves to from comment `i`: the one its
   * `in_reply_to_id` names, when that id is truthy (not 0) and in the batch.
   */
  function ParentIndex(batch: seq<GitHubReviewComment>, i: nat): (r: Option<nat>)
    requires i < |batch|
    ensures r.Some? <==> batch[i].inReplyToId.Some? && batch[i].inReplyToId.value != 0
                         && exists j :: 0 <= j < |batch| && batch[j].id == batch[i].inReplyToId.value
    ensures r.Some? ==> r.value < |batch| && batch[r.value].id == batch[i].inReplyToId.value
  {
    match batch[i].inReplyToId
    case Some(p) => if p == 0 then None else LastWithId(batch, p, |batch|)
    case None => None
  }

  /** The walk from comment `i` reaches a comment without a parent within `fuel` steps. */
  ghost predicate ChainEnds(batch: seq<GitHubReviewComment>, i: nat, fuel: nat)
    requires i < |batch|
    decreases fuel
  {
    match ParentIndex(batch, i)
    case None => true
    case Some(j) => fuel > 0 && ChainEnds(batch, j, fuel - 1)
  }

  /** The index of the first comment among the first `n` that carries `id`. */
  function FirstWithId(batch: seq<GitHubReviewComment>, id: nat, n: nat): (r: Option<nat>)
    requires n <= |batch|
    ensures r.Some? ==> r.value < n && batch[r.value].id == id
  {
    if n == 0 then None
    else match FirstWithId(batch, id, n - 1)
      case Some(j) => Some(j)
      case None => if batch[n - 1].id == id then Some(n - 1) else None
  }

  lemma {:induction false} FirstWithIdIsFirst(batch: seq<GitHubReviewComment>, id: nat, n: nat)
    requires n <= |batch|
    ensures FirstWithId(batch, id, n).Some? ==> forall j :: 0 <= j < FirstWithId(batch, id, n).value ==> batch[j].id != id
    ensures FirstWithId(batch, id, n).None? ==> forall j :: 0 <= j < n ==> batch[j].id != id
    decreases n
  {
    if n > 0 {
      FirstWithIdIsFirst(batch, id, n - 1);
    }
  }

  /**
   * The first comment of the batch with the id of comment `k`: the one whose
   * walk fills the root cache for that id.
   */
  function FirstOfId(batch: seq<GitHubReviewComment>, k: nat): (f: nat)
    requires k < |batch|
    ensures f <= k && batch[f].id == batch[k].id
  {
    FirstWithId(batch, batch[k].id, k + 1).value
  }

  /** No comment before the first of an id carries that id. */
  lemma FirstOfIdIsFirst(batch: seq<GitHubReviewComment>, k: nat)
    requires k < |batch|
    ensures forall j :: 0 <= j < FirstOfId(batch, k) ==> batch[j].id != batch[k].id
    ensures IsFirstOfId(batch, FirstOfId(batch, k))
  {
    FirstWithIdIsFirst(batch, batch[k].id, k + 1);
  }

  /** No comment before `k` carries the id of comment `k`. */
  ghost predicate IsFirstOfId(batch: seq<GitHubReviewComment>, k: nat)
    requires k < |batch|
  {
    forall j :: 0 <= j < k ==> batch[j].id != batch[k].id
  }

  /**
   * Every walk `getRootId` starts ends: the walks start only at the first
   * comment of each id, and one that never revisits a comment ends within
   * `|batch|` steps, while one that does revisit never ends.
   */
  ghost predicate RepliesAcyclic(batch: seq<GitHubReviewComment>) {
    forall i :: 0 <= i < |batch| && IsFirstOfId(batch, i) ==> ChainEnds(batch, i, |batch|)
  }

  /** The walk of `getRootId`'s loop from comment `i`; `fuel` only bounds the proof. */
  function RootIndex(batch: seq<GitHubReviewComment>, i: nat, ghost fuel: nat): (r: nat)
    requires i < |batch| && ChainEnds(batch, i, fuel)
    ensures r < |batch| && ParentIndex(batch, r).None?
    decreases fuel
  {
    match ParentIndex(batch, i)
    case None => i
    case Some(j) => RootIndex(batch, j, fuel - 1)
  }

  lemma {:induction false} RootIndexFuel(batch: seq<GitHubReviewComment>, i: nat, f: nat, g: nat)
    requires i < |batch| && ChainEnds(batch, i, f) && ChainEnds(batch, i, g)
    ensures RootIndex(batch, i, f) == RootIndex(batch, i, g)
    decreases f
  {
    match ParentIndex(batch, i)
    case None =>
    case Some(j) => RootIndexFuel(batch, j, f - 1, g - 1);
  }

  /**
   * `getRootId` of comment `i`, root cache included: the first comment with
   * a given id walks to its root and caches it, and every later comment
   * with that id gets the cached root without walking.
   */
  function RootId(batch: seq<GitHubReviewComment>, i: nat): nat
    requires i < |batch| && RepliesAcyclic(batch)
  {
    FirstOfIdIsFirst(batch, i);
    batch[RootIndex(batch, FirstOfId(batch, i), |batch|)].id
  }

  /** A repeated id takes the root found for its first occurrence. */
  lemma RepeatedIdCached(batch: seq<GitHubReviewComment>, i: nat, j: nat)
    requires i < |batch| && j < |batch| && RepliesAcyclic(batch)
    requires batch[i].id == batch[j].id
    ensures RootId(batch, i) == RootId(batch, j)
  {
    assert FirstOfId(batch, i) == FirstOfId(batch, j) by {
      var fi, fj := FirstOfId(batch, i), FirstOfId(batch, j);
      FirstOfIdIsFirst(batch, i);
      FirstOfIdIsFirst(batch, j);
      assert batch[fi].id == batch[j].id;
      assert batch[fj].id == batch[i].id;
    }
  }

  /**
   * A comment whose id is first carried by a comment without a parent in the
   * batch (no reply id, id 0, or an id not in the batch) is its own root.
   */
  lemma OwnRoot(batch: seq<GitHubReviewComment>, i: nat)
    requires i < |batch| && RepliesAcyclic(batch)
    requires var f := batch[FirstOfId(batch, i)];
             f.inReplyToId.None? || f.inReplyToId.value == 0
             || forall j :: 0 <= j < |batch| ==> batch[j].id != f.inReplyToId.value
    ensures RootId(batch, i) == batch[i].id
  {
    assert ParentIndex(batch, FirstOfId(batch, i)).None?;
  }

  /**
   * The first comment of an id that answers the first (hence only) comment
   * of another id has the root of the comment it answers.
   */
  lemma ReplySharesRoot(batch: seq<GitHubReviewComment>, i: nat)
    requires i < |batch| && RepliesAcyclic(batch) && FirstOfId(batch, i) == i
    requires ParentIndex(batch, i).Some? && FirstOfId(batch, ParentIndex(batch, i).value) == ParentIndex(batch, i).value
    ensures RootId(batch, i) == RootId(batch, ParentIndex(batch, i).value)
  {
    var j := ParentIndex(batch, i).value;
    assert ChainEnds(batch, i, |batch|) by { FirstOfIdIsFirst(batch, i); }
    assert ChainEnds(batch, j, |batch| - 1);
    assert ChainEnds(batch, j, |batch|) by { FirstOfIdIsFirst(batch, j); }
    RootIndexFuel(batch, j, |batch| - 1, |batch|);
  }

  /** The first `n` comments of the batch keyed by their root id. */
  function RootPairs(batch: seq<GitHubReviewComment>, n: nat): (pairs: seq<(nat, GitHubReviewComment)>)
    requires n <= |batch| && RepliesAcyclic(batch)
    ensures |pairs| == n
    ensures forall k :: 0 <= k < n ==> pairs[k] == (RootId(batch, k), batch[k])
  {
    seq(n, k requires 0 <= k < n => (RootId(batch, k), batch[k]))
  }

  /** The batch grouped by root id, in first-occurrence order of the roots. */
  function RootGroups(batch: seq<GitHubReviewComment>): seq<Group<nat, GitHubReviewComment>>
    requires RepliesAcyclic(batch)
  {
    GroupBy(RootPairs(batch, |batch|))
  }

  function MapAll(cs: seq<GitHubReviewComment>): (r: seq<Comment>)
    ensures |r| == |cs|
    ensures forall k :: 0 <= k < |cs| ==> r[k] == MapGitHubComment(cs[k])
  {
    if |cs| == 0 then [] else MapAll(cs[..|cs| - 1]) + [MapGitHubComment(cs[|cs| - 1])]
  }

  lemma MapAllHolds(cs: seq<GitHubReviewComment>, c: GitHubReviewComment)
    requires c in cs
    ensures MapGitHubComment(c) in MapAll(cs)
  {
    var i :| 0 <= i < |cs| && cs[i] == c;
    assert MapAll(cs)[i] == MapGitHubComment(c);
  }

  /** The thread of one root group: header fields from its first comment, comments sorted by creation time. */
  function ThreadOf(g: Group<nat, GitHubReviewComment>): ReviewThread
    requires |g.members| > 0
  {
    var first := g.members[0];
    ReviewThread(NatToDecimal(g.key), first.path, first.line.GetOr(0), first.side,
                 SortBy(MapAll(g.members), CreatedAt), false)
  }

  function ThreadsOf(gs: seq<Group<nat, GitHubReviewComment>>): (r: seq<ReviewThread>)
    requires NoEmptyGroup(gs)
    ensures |r| == |gs|
    ensures forall i :: 0 <= i < |gs| ==> r[i] == ThreadOf(gs[i])
  {
    seq(|gs|, i requires 0 <= i < |gs| => ThreadOf(gs[i]))
  }

  /** The number of comments held by all threads together. */
  function CommentCount(threads: seq<ReviewThread>): nat {
    if |threads| == 0 then 0
    else CommentCount(threads[..|threads| - 1]) + |threads[|threads| - 1].comments|
  }

  lemma {:induction false} CountOfThreads(gs: seq<Group<nat, GitHubReviewComment>>)
    requires NoEmptyGroup(gs)
    ensures CommentCount(ThreadsOf(gs)) == Size(gs)
    decreases |gs|
  {
    if |gs| > 0 {
      var p := gs[..|gs| - 1];
      assert NoEmptyGroup(p);
      CountOfThreads(p);
      var t := ThreadsOf(gs);
      assert t[..|t| - 1] == ThreadsOf(p) by {
        assert |t[..|t| - 1]| == |ThreadsOf(p)|;
        forall i | 0 <= i < |p| ensures t[i] == ThreadsOf(p)[i] {
        }
      }
    }
  }

  /**
   * `groupCommentsIntoThreads`: a partition of the batch into threads with
   * distinct ids, none empty or resolved, together holding every comment,
   * each sorted by creation time.
   */
  function GroupCommentsIntoThreads(batch: seq<GitHubReviewComment>): (threads: seq<ReviewThread>)
    requires RepliesAcyclic(batch)
    ensures forall i, j :: 0 <= i < j < |threads| ==> threads[i].id != threads[j].id
    ensures forall i :: 0 <= i < |threads| ==> |threads[i].comments| > 0 && !threads[i].isResolved
    ensures CommentCount(threads) == |batch|
    ensures forall i :: 0 <= i < |threads| ==> SortedBy(threads[i].comments, CreatedAt)
  {
    var gs := RootGroups(batch);
    ThreadIdsDistinct(gs);
    CountOfThreads(gs);
    ThreadsOf(gs)
  }

  lemma ThreadIdsDistinct(gs: seq<Group<nat, GitHubReviewComment>>)
    requires NoEmptyGroup(gs) && DistinctKeys(gs)
    ensures forall i, j :: 0 <= i < j < |ThreadsOf(gs)| ==> ThreadsOf(gs)[i].id != ThreadsOf(gs)[j].id
  {
    forall i, j | 0 <= i < j < |gs| ensures ThreadOf(gs[i]).id != ThreadOf(gs[j]).id {
      NatToDecimalInjective(gs[i].key, gs[j].key);
    }
  }

  lemma {:induction false} MembersHolds<V>(pairs: seq<(nat, V)>, k: nat)
    requires k < |pairs|
    ensures pairs[k].1 in Members(pairs, pairs[k].0)
    decreases |pairs|
  {
    if k < |pairs| - 1 {
      MembersHolds(pairs[..|pairs| - 1], k);
    }
  }

  lemma {:induction false} MembersFirst<V>(pairs: seq<(nat, V)>, key: nat)
    requires FirstAt(pairs, key) < |pairs|
    ensures |Members(pairs, key)| > 0 && Members(pairs, key)[0] == pairs[FirstAt(pairs, key)].1
    decreases |pairs|
  {
    var p := pairs[..|pairs| - 1];
    assert pairs == p + [pairs[|pairs| - 1]];
    FirstAtSnoc(p, pairs[|pairs| - 1], key);
    if FirstAt(p, key) < |p| {
      MembersFirst(p, key);
    } else {
      MembersAbsent(p, key);
    }
  }

  /** The index of the thread that comment `k` of the batch lands in. */
  function ThreadIndexOf(batch: seq<GitHubReviewComment>, k: nat): (t: nat)
    requires RepliesAcyclic(batch) && k < |batch|
    ensures t < |GroupCommentsIntoThreads(batch)| && t < |RootGroups(batch)|
    ensures RootGroups(batch)[t].key == RootId(batch, k)
    ensures GroupCommentsIntoThreads(batch)[t].id == NatToDecimal(RootId(batch, k))
    ensures MapGitHubComment(batch[k]) in GroupCommentsIntoThreads(batch)[t].comments
  {
    var pairs := RootPairs(batch, |batch|);
    var gs := RootGroups(batch);
    assert FirstAt(pairs, RootId(batch, k)) <= k;
    var t := FindKey(gs, RootId(batch, k)).value;
    MembersHolds(pairs, k);
    MapAllHolds(gs[t].members, batch[k]);
    assert MapGitHubComment(batch[k]) in multiset(MapAll(gs[t].members));
    t
  }

  /** Every comment lands in exactly one thread: the one of its root, whose id no other thread has. */
  lemma CommentInOneThread(batch: seq<GitHubReviewComment>, k: nat, t: nat)
    requires RepliesAcyclic(batch) && k < |batch| && t < |GroupCommentsIntoThreads(batch)|
    ensures GroupCommentsIntoThreads(batch)[t].id == NatToDecimal(RootId(batch, k))
            <==> t == ThreadIndexOf(batch, k)
  {
  }

  /**
   * A reply lands in the thread of the comment it answers, when both are the
   * first comments of their ids.
   */
  lemma ReplyInParentThread(batch: seq<GitHubReviewComment>, k: nat)
    requires RepliesAcyclic(batch) && k < |batch| && FirstOfId(batch, k) == k
    requires ParentIndex(batch, k).Some? && FirstOfId(batch, ParentIndex(batch, k).value) == ParentIndex(batch, k).value
    ensures ThreadIndexOf(batch, k) == ThreadIndexOf(batch, ParentIndex(batch, k).value)
  {
    ReplySharesRoot(batch, k);
  }

  /** Comment `k` is the first of its root in input order. */
  ghost predicate FirstOfRoot(batch: seq<GitHubReviewComment>, k: nat)
    requires RepliesAcyclic(batch) && k < |batch|
  {
    forall j :: 0 <= j < k ==> RootId(batch, j) != RootId(batch, k)
  }

  lemma FirstOfRootAt(batch: seq<GitHubReviewComment>, k: nat)
    requires RepliesAcyclic(batch) && k < |batch| && FirstOfRoot(batch, k)
    ensures FirstAt(RootPairs(batch, |batch|), RootId(batch, k)) == k
  {
    var pairs := RootPairs(batch, |batch|);
    var r := FirstAt(pairs, RootId(batch, k));
    assert pairs[k].0 == RootId(batch, k);
  }

  /** The thread's path, line and side are those of the first comment of its group in input order. */
  lemma ThreadFieldsFromFirst(batch: seq<GitHubReviewComment>, k: nat)
    requires RepliesAcyclic(batch) && k < |batch|
    requires FirstOfRoot(batch, k)
    ensures var t := GroupCommentsIntoThreads(batch)[ThreadIndexOf(batch, k)];
            t.path == batch[k].path && t.line == batch[k].line.GetOr(0) && t.side == batch[k].side
  {
    var pairs := RootPairs(batch, |batch|);
    var gs := RootGroups(batch);
    var key := RootId(batch, k);
    var t := ThreadIndexOf(batch, k);
    assert gs[t].members[0] == batch[k] by {
      FirstOfRootAt(batch, k);
      MembersFirst(pairs, key);
      assert MembersExact(pairs, gs);
    }
    assert GroupCommentsIntoThreads(batch)[t] == ThreadOf(gs[t]);
  }

  /** Threads come in the order in which their roots first appear. */
  lemma ThreadsInFirstOccurrenceOrder(batch: seq<GitHubReviewComment>, k1: nat, k2: nat)
    requires RepliesAcyclic(batch) && k1 < k2 < |batch|
    requires FirstOfRoot(batch, k1) && FirstOfRoot(batch, k2)
    ensures ThreadIndexOf(batch, k1) < ThreadIndexOf(batch, k2)
  {
    var pairs := RootPairs(batch, |batch|);
    var gs := RootGroups(batch);
    var t1 := ThreadIndexOf(batch, k1);
    var t2 := ThreadIndexOf(batch, k2);
    FirstOfRootAt(batch, k1);
    FirstOfRootAt(batch, k2);
    OrderOfFirsts(pairs, gs, t1, t2);
  }

  /**
   * A thread holds exactly the comments sharing its root, ascending by
   * creation time, those created at the same time in input order.
   */
  lemma ThreadContents(batch: seq<GitHubReviewComment>, k: nat, time: int)
    requires RepliesAcyclic(batch) && k < |batch|
    ensures var cs := GroupCommentsIntoThreads(batch)[ThreadIndexOf(batch, k)].comments;
            var same := MapAll(Members(RootPairs(batch, |batch|), RootId(batch, k)));
            && multiset(cs) == multiset(same)
            && SortedBy(cs, CreatedAt)
            && WithKey(cs, CreatedAt, time) == WithKey(same, CreatedAt, time)
  {
    var gs := RootGroups(batch);
    var t := ThreadIndexOf(batch, k);
  }

  /** No two comments of the batch share an id, as GitHub's comment ids never do. */
  ghost predicate DistinctIds(batch: seq<GitHubReviewComment>) {
    forall i, j :: 0 <= i < j < |batch| ==> batch[i].id != batch[j].id
  }

  /** With distinct ids every comment fills the cache itself, so every reply lands in its parent's thread. */
  lemma DistinctIdsReplyInParentThread(batch: seq<GitHubReviewComment>, k: nat)
    requires RepliesAcyclic(batch) && DistinctIds(batch) && k < |batch| && ParentIndex(batch, k).Some?
    ensures ThreadIndexOf(batch, k) == ThreadIndexOf(batch, ParentIndex(batch, k).value)
  {
    var j := ParentIndex(batch, k).value;
    assert FirstOfId(batch, k) == k;
    assert FirstOfId(batch, j) == j;
    ReplyInParentThread(batch, k);
  }

  /** A comment with only an id and a reply link. */
  function BareComment(id: nat, parent: Option<nat>): GitHubReviewComment {
    GitHubReviewComment(id, "", GitHubUser(0, "", ""), 0, 0, "", None, Right, None, parent)
  }

  /**
   * The root cache decides a repeated id: in `[1, 2, 1 answering 2]` the
   * third comment takes the cached root of the first, so it joins thread
   * "1" and not the thread of the comment it answers.
   */
  lemma CachedRootOnRepeatedId()
    ensures var batch := [BareComment(1, None), BareComment(2, None), BareComment(1, Some(2))];
            && RepliesAcyclic(batch)
            && RootId(batch, 2) == 1 && RootId(batch, 1) == 2
            && ParentIndex(batch, 2) == Some(1)
  {
    var batch := [BareComment(1, None), BareComment(2, None), BareComment(1, Some(2))];
    assert FirstOfId(batch, 2) == 0;
    assert ParentIndex(batch, 0).None? && ParentIndex(batch, 1).None?;
    assert ParentIndex(batch, 2) == Some(1);
    assert RepliesAcyclic(batch) by {
      forall i | 0 <= i < |batch| && IsFirstOfId(batch, i) ensures ChainEnds(batch, i, |batch|) {
        assert i < 2 by { assert batch[0].id == batch[2].id; }
      }
    }
  }
}
