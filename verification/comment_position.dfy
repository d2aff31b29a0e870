/**
 * GitHub's review-comment "position": the 1-based index of a diff line among
 * the non-header lines of the file's diff (src/features/diff/utils/comment-position.ts).
 */
module CommentPosition {
  import opened Wrappers
  import opened DiffTypes

  /** The number of non-header lines among the first `k` lines. */
  function NonHeaderCount(lines: seq<ParsedDiffLine>, k: nat): nat
    requires k <= |lines|
  {
    if k == 0 then 0
    else NonHeaderCount(lines, k - 1) + (if IsHeader(lines[k - 1]) then 0 else 1)
  }

  /** The number of lines a position can address. */
  function Total(lines: seq<ParsedDiffLine>): nat {
    NonHeaderCount(lines, |lines|)
  }

  lemma {:induction false} NonHeaderCountMonotone(lines: seq<ParsedDiffLine>, i: nat, j: nat)
    requires i <= j <= |lines|
    ensures NonHeaderCount(lines, i) <= NonHeaderCount(lines, j)
    ensures NonHeaderCount(lines, j) - NonHeaderCount(lines, i) <= j - i
    decreases j
  {
    if i < j {
      NonHeaderCountMonotone(lines, i, j - 1);
    }
  }

  /** `getDiffLinePosition` as a definition: the count of non-header lines up to and including the target. */
  function PositionFor(lines: seq<ParsedDiffLine>, targetIndex: int): Option<nat> {
    if targetIndex < 0 || targetIndex >= |lines| then None
    else if IsHeader(lines[targetIndex]) then None
    else Some(NonHeaderCount(lines, targetIndex + 1))
  }

  /** `getDiffLinePosition`: the counting loop of the source. */
  method GetDiffLinePosition(lines: seq<ParsedDiffLine>, targetIndex: int) returns (r: Option<nat>)
    ensures r.None? <==> targetIndex < 0 || targetIndex >= |lines| || IsHeader(lines[targetIndex])
    ensures r.Some? ==> r.value == NonHeaderCount(lines, targetIndex + 1)
    ensures r.Some? ==> 1 <= r.value <= Total(lines)
    ensures r == PositionFor(lines, targetIndex)
  {
    if targetIndex < 0 || targetIndex >= |lines| {
      return None;
    }
    if IsHeader(lines[targetIndex]) {
      return None;
    }
    var position := 0;
    var i := 0;
    while i <= targetIndex
      invariant 0 <= i <= targetIndex + 1
      invariant position == NonHeaderCount(lines, i)
    {
      if !IsHeader(lines[i]) {
        position := position + 1;
      }
      i := i + 1;
    }
    NonHeaderCountMonotone(lines, targetIndex + 1, |lines|);
    return Some(position);
  }

  /**
   * The search loop of `getDiffLineIndexForPosition` from line `i` on, having
   * counted `current` non-header lines before it: the first non-header line
   * that brings the count to `position`.
   */
  function IndexFrom(lines: seq<ParsedDiffLine>, position: int, i: nat, current: nat): (r: Option<nat>)
    requires i <= |lines| && current == NonHeaderCount(lines, i) && current < position
    ensures r.None? <==> position > Total(lines)
    ensures r.Some? ==> i <= r.value < |lines| && !IsHeader(lines[r.value])
                        && NonHeaderCount(lines, r.value + 1) == position
    decreases |lines| - i
  {
    if i == |lines| then None
    else if IsHeader(lines[i]) then IndexFrom(lines, position, i + 1, current)
    else if current + 1 == position then
      assert position <= Total(lines) by { NonHeaderCountMonotone(lines, i + 1, |lines|); }
      Some(i)
    else IndexFrom(lines, position, i + 1, current + 1)
  }

  /** `getDiffLineIndexForPosition` as a definition. */
  function IndexFor(lines: seq<ParsedDiffLine>, position: int): (r: Option<nat>)
    ensures r.None? <==> position <= 0 || position > Total(lines)
    ensures r.Some? ==> r.value < |lines| && !IsHeader(lines[r.value])
                        && NonHeaderCount(lines, r.value + 1) == position
  {
    if position <= 0 then None else IndexFrom(lines, position, 0, 0)
  }

  /** `getDiffLineIndexForPosition`: the loop of the source, with its early return. */
  method GetDiffLineIndexForPosition(lines: seq<ParsedDiffLine>, position: int) returns (r: Option<nat>)
    ensures r.None? <==> position <= 0 || position > Total(lines)
    ensures r.Some? ==> r.value < |lines| && !IsHeader(lines[r.value])
                        && NonHeaderCount(lines, r.value + 1) == position
  {
    if position <= 0 {
      return None;
    }
    var current := 0;
    var i := 0;
    while i < |lines|
      invariant 0 <= i <= |lines|
      invariant current == NonHeaderCount(lines, i) && current < position
    {
      if IsHeader(lines[i]) {
        i := i + 1;
        continue;
      }
      current := current + 1;
      if current == position {
        NonHeaderCountMonotone(lines, i + 1, |lines|);
        return Some(i);
      }
      i := i + 1;
    }
    return None;
  }

  /** A position, when there is one, lies between 1 and the number of non-header lines. */
  lemma PositionBounds(lines: seq<ParsedDiffLine>, targetIndex: int)
    requires PositionFor(lines, targetIndex).Some?
    ensures 1 <= PositionFor(lines, targetIndex).value <= Total(lines)
  {
    NonHeaderCountMonotone(lines, targetIndex + 1, |lines|);
  }

  /** Positions strictly increase from one non-header line to a later one. */
  lemma PositionsIncrease(lines: seq<ParsedDiffLine>, i: nat, j: nat)
    requires i < j < |lines| && !IsHeader(lines[i]) && !IsHeader(lines[j])
    ensures PositionFor(lines, i).value < PositionFor(lines, j).value
  {
    NonHeaderCountMonotone(lines, i + 1, j);
  }

  /** The index found for a line's position is that line. */
  lemma IndexOfPosition(lines: seq<ParsedDiffLine>, i: int)
    requires PositionFor(lines, i).Some?
    ensures IndexFor(lines, PositionFor(lines, i).value) == Some(i)
  {
    var p := PositionFor(lines, i).value;
    PositionBounds(lines, i);
    var j := IndexFor(lines, p).value;
    if j < i {
      PositionsIncrease(lines, j, i);
    } else if i < j {
      PositionsIncrease(lines, i, j);
    }
  }

  /** The position of the line found for a position is that position. */
  lemma PositionOfIndex(lines: seq<ParsedDiffLine>, position: int)
    requires IndexFor(lines, position).Some?
    ensures PositionFor(lines, IndexFor(lines, position).value) == Some(position)
  {
  }
}
