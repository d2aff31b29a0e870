/**
 * The hunk-header regular expression of parsePatch,
 * `^@@ -(\d+)(?:,\d+)? \+(\d+)(?:,\d+)? @@`, as a deterministic reader over
 * positions of the line, with both directions of its meaning proved.
 */
module HunkHeader {
  import opened Wrappers
  import opened Strings

  /**
   * Reads `\d+(?:,\d+)?` at position `i` of `s`: the value of the digit run
   * there and the position after the optional `,<count>`; None when no digit
   * is at `i`. A `,` without digits after it is left unread, as the optional
   * group then matches nothing.
   */
  function RangeAt(s: string, i: nat): (r: Option<(nat, nat)>)
    requires i <= |s|
    ensures r.Some? ==> i < r.value.1 <= |s|
  {
    var n := DigitsAt(s, i);
    if n == 0 then None
    else
      var j := i + n;
      var m := if j < |s| && s[j] == ',' then DigitsAt(s, j + 1) else 0;
      Some((DecimalValueIn(s, i, j), if m > 0 then j + 1 + m else j))
  }

  /**
   * The old and new start numbers of a line that matches the hunk-header
   * pattern, or None when it does not match. The digit runs are greedy and
   * followed by a non-digit, so the match is unique; the pattern is anchored
   * at the start only.
   */
  function HunkStarts(line: string): Option<(nat, nat)> {
    if !OccursAt(line, 0, "@@ -") then None
    else
      var oldRange := RangeAt(line, 4);
      if oldRange.None? || !OccursAt(line, oldRange.value.1, " +") then None
      else
        var newRange := RangeAt(line, oldRange.value.1 + 2);
        if newRange.None? || !OccursAt(line, newRange.value.1, " @@") then None
        else Some((oldRange.value.0, newRange.value.0))
  }

  /** The optional `,<count>` part of a hunk range. */
  function CountSuffix(count: Option<string>): string {
    match count
    case None => ""
    case Some(d) => "," + d
  }

  predicate ValidCount(count: Option<string>) {
    count.Some? ==> |count.value| > 0 && AllDigits(count.value)
  }

  /** A line made of the hunk header `@@ -a[,b] +c[,d] @@` followed by `rest`. */
  function HunkHeaderLine(a: string, b: Option<string>, c: string, d: Option<string>, rest: string): string {
    "@@ -" + (a + (CountSuffix(b) + (" +" + (c + (CountSuffix(d) + (" @@" + rest))))))
  }

  // ---------------------------------------------------------------------------
  // Occurrences
  // ---------------------------------------------------------------------------

  /** The first character of an occurrence of a text that starts with a space. */
  lemma SpaceAt(s: string, i: nat, t: string)
    requires OccursAt(s, i, t) && |t| > 0 && t[0] == ' '
    ensures i < |s| && s[i] == ' '
  {
  }

  /** A digit string placed at `i` gives the digit run there and its value. */
  lemma {:induction false} DigitsOccurring(s: string, i: nat, a: string)
    requires OccursAt(s, i, a) && AllDigits(a)
    ensures DigitsIn(s, i, i + |a|) && DecimalValueIn(s, i, i + |a|) == DecimalValue(a)
    decreases |a|
  {
    if |a| > 0 {
      var a' := a[..|a| - 1];
      assert a == a' + [a[|a| - 1]];
      OccursSplit(s, i, a', [a[|a| - 1]]);
      DigitsOccurring(s, i, a');
      OccursIndex(s, i, a, |a| - 1);
    }
  }

  /** The digits of `s` from `i` up to `j`, as a string. */
  lemma DigitsSlice(s: string, i: nat, j: nat)
    requires i <= j <= |s| && DigitsIn(s, i, j)
    ensures AllDigits(s[i..j]) && DecimalValueIn(s, i, j) == DecimalValue(s[i..j])
  {
    DecimalValueInSlice(s, i, j);
  }

  // ---------------------------------------------------------------------------
  // Reading a range
  // ---------------------------------------------------------------------------

  /** A digit run at `i` directly followed by a space. */
  lemma RangeAtPlain(s: string, i: nat, k: nat)
    requires 0 < k && i + k < |s| && DigitsIn(s, i, i + k) && s[i + k] == ' '
    ensures RangeAt(s, i) == Some((DecimalValueIn(s, i, i + k), i + k))
  {
    DigitsAtOf(s, i, k);
  }

  /** A digit run at `i`, then `,` and a run of `m` digits, then a space. */
  lemma RangeAtCounted(s: string, i: nat, k: nat, m: nat)
    requires 0 < k && i + k < |s| && DigitsIn(s, i, i + k) && s[i + k] == ','
    requires 0 < m && i + k + 1 + m < |s| && DigitsIn(s, i + k + 1, i + k + 1 + m)
    requires s[i + k + 1 + m] == ' '
    ensures RangeAt(s, i) == Some((DecimalValueIn(s, i, i + k), i + k + 1 + m))
  {
    DigitsAtOf(s, i, k);
    DigitsAtOf(s, i + k + 1, m);
  }

  /**
   * A well-formed range placed at `i` and followed by a space reads as its
   * start number and stops at the space.
   */
  lemma RangeAtOf(s: string, i: nat, a: string, b: Option<string>)
    requires OccursAt(s, i, a + CountSuffix(b)) && |a| > 0 && AllDigits(a) && ValidCount(b)
    requires i + |a| + |CountSuffix(b)| < |s| && s[i + |a| + |CountSuffix(b)|] == ' '
    ensures RangeAt(s, i) == Some((DecimalValue(a), i + |a| + |CountSuffix(b)|))
  {
    OccursSplit(s, i, a, CountSuffix(b));
    DigitsOccurring(s, i, a);
    match b
    case None =>
      RangeAtPlain(s, i, |a|);
    case Some(d) =>
      OccursSplit(s, i + |a|, ",", d);
      OccursIndex(s, i + |a|, ",", 0);
      DigitsOccurring(s, i + |a| + 1, d);
      RangeAtCounted(s, i, |a|, |d|);
  }

  /** A successful range read: the digit run, the optional count, and where the read stopped. */
  lemma RangeAtSound(s: string, i: nat) returns (a: string, b: Option<string>)
    requires i <= |s| && RangeAt(s, i).Some?
    ensures |a| > 0 && AllDigits(a) && ValidCount(b)
    ensures OccursAt(s, i, a + CountSuffix(b))
    ensures RangeAt(s, i).value.1 == i + |a| + |CountSuffix(b)|
    ensures RangeAt(s, i).value.0 == DecimalValue(a)
  {
    var n := DigitsAt(s, i);
    var j := i + n;
    a := s[i..j];
    DigitsSlice(s, i, j);
    OccursSlice(s, i, j);
    var m := if j < |s| && s[j] == ',' then DigitsAt(s, j + 1) else 0;
    if m > 0 {
      var d := s[j + 1..j + 1 + m];
      DigitsSlice(s, j + 1, j + 1 + m);
      b := Some(d);
      OccursSlice(s, j + 1, j + 1 + m);
      assert OccursAt(s, j, ",");
      OccursJoin(s, j, ",", d);
      OccursJoin(s, i, a, "," + d);
    } else {
      b := None;
      assert a + CountSuffix(b) == a;
    }
  }

  // ---------------------------------------------------------------------------
  // The header, both ways
  // ---------------------------------------------------------------------------

  /**
   * Where the five parts of the pattern sit in a line for ranges `a[,b]` and
   * `c[,d]`: `j1` is where ` +` starts and `j2` where ` @@` starts.
   */
  predicate PartsAt(line: string, a: string, b: Option<string>, c: string, d: Option<string>, j1: nat, j2: nat) {
    j1 == 4 + |a| + |CountSuffix(b)| && j2 == j1 + 2 + |c| + |CountSuffix(d)|
    && OccursAt(line, 0, "@@ -") && OccursAt(line, 4, a + CountSuffix(b)) && OccursAt(line, j1, " +")
    && OccursAt(line, j1 + 2, c + CountSuffix(d)) && OccursAt(line, j2, " @@")
  }

  /** The same positions once the two ranges have been read. */
  predicate MatchedAt(line: string, j1: nat, j2: nat, start1: nat, start2: nat) {
    4 <= |line| && OccursAt(line, 0, "@@ -")
    && RangeAt(line, 4) == Some((start1, j1))
    && j1 + 2 <= |line| && OccursAt(line, j1, " +")
    && RangeAt(line, j1 + 2) == Some((start2, j2))
    && OccursAt(line, j2, " @@")
  }

  lemma HunkStartsMatched(line: string, j1: nat, j2: nat, start1: nat, start2: nat)
    requires MatchedAt(line, j1, j2, start1, start2)
    ensures HunkStarts(line) == Some((start1, start2))
  {
  }

  lemma MatchedOfHunkStarts(line: string) returns (j1: nat, j2: nat)
    requires HunkStarts(line).Some?
    ensures MatchedAt(line, j1, j2, HunkStarts(line).value.0, HunkStarts(line).value.1)
  {
    j1 := RangeAt(line, 4).value.1;
    j2 := RangeAt(line, j1 + 2).value.1;
  }

  /** `x`, `y` and `z` in a row: the occurrence of `x + y` and that of `z` after it. */
  lemma OccursThree(s: string, i: nat, x: string, y: string, z: string)
    requires OccursAt(s, i, x + (y + z))
    ensures OccursAt(s, i, x + y) && OccursAt(s, i + |x| + |y|, z)
  {
    OccursSplit(s, i, x, y + z);
    OccursSplit(s, i + |x|, y, z);
    OccursJoin(s, i, x, y);
  }

  lemma PartsOfPieces(line: string, a: string, b: Option<string>, c: string, d: Option<string>, rest: string,
                      t1: string, r1: string, t2: string, r2: string)
    requires r2 == " @@" + rest && t2 == c + (CountSuffix(d) + r2)
    requires r1 == " +" + t2 && t1 == a + (CountSuffix(b) + r1)
    requires line == "@@ -" + t1
    ensures PartsAt(line, a, b, c, d, 4 + |a| + |CountSuffix(b)|, 4 + |a| + |CountSuffix(b)| + 2 + |c| + |CountSuffix(d)|)
  {
    var j1 := 4 + |a| + |CountSuffix(b)|;
    var j2 := j1 + 2 + |c| + |CountSuffix(d)|;
    OccursSelf(line);
    OccursSplit(line, 0, "@@ -", t1);
    OccursThree(line, 4, a, CountSuffix(b), r1);
    OccursSplit(line, j1, " +", t2);
    OccursThree(line, j1 + 2, c, CountSuffix(d), r2);
    OccursSplit(line, j2, " @@", rest);
  }

  lemma HeaderLineParts(a: string, b: Option<string>, c: string, d: Option<string>, rest: string)
    ensures PartsAt(HunkHeaderLine(a, b, c, d, rest), a, b, c, d,
                    4 + |a| + |CountSuffix(b)|, 4 + |a| + |CountSuffix(b)| + 2 + |c| + |CountSuffix(d)|)
  {
    var r2 := " @@" + rest;
    var t2 := c + (CountSuffix(d) + r2);
    var r1 := " +" + t2;
    var t1 := a + (CountSuffix(b) + r1);
    PartsOfPieces(HunkHeaderLine(a, b, c, d, rest), a, b, c, d, rest, t1, r1, t2, r2);
  }

  /** A range `a[,b]` at `i` followed by a text that starts with a space. */
  lemma RangeBefore(line: string, i: nat, a: string, b: Option<string>, e: nat, t: string)
    requires |a| > 0 && AllDigits(a) && ValidCount(b) && e == i + |a| + |CountSuffix(b)|
    requires OccursAt(line, i, a + CountSuffix(b))
    requires OccursAt(line, e, t) && |t| > 0 && t[0] == ' '
    ensures RangeAt(line, i) == Some((DecimalValue(a), e))
  {
    SpaceAt(line, e, t);
    RangeAtOf(line, i, a, b);
  }

  lemma MatchedOfParts(line: string, a: string, b: Option<string>, c: string, d: Option<string>, j1: nat, j2: nat)
    requires |a| > 0 && AllDigits(a) && |c| > 0 && AllDigits(c)
    requires ValidCount(b) && ValidCount(d)
    requires PartsAt(line, a, b, c, d, j1, j2)
    ensures MatchedAt(line, j1, j2, DecimalValue(a), DecimalValue(c))
  {
    assert RangeAt(line, 4) == Some((DecimalValue(a), j1)) by {
      RangeBefore(line, 4, a, b, j1, " +");
    }
    assert RangeAt(line, j1 + 2) == Some((DecimalValue(c), j2)) by {
      RangeBefore(line, j1 + 2, c, d, j2, " @@");
    }
  }

  /** Every well-formed hunk header is recognised, whatever follows it, with its two start numbers. */
  lemma HunkHeaderRecognised(a: string, b: Option<string>, c: string, d: Option<string>, rest: string)
    requires |a| > 0 && AllDigits(a) && |c| > 0 && AllDigits(c)
    requires ValidCount(b) && ValidCount(d)
    ensures HunkStarts(HunkHeaderLine(a, b, c, d, rest)) == Some((DecimalValue(a), DecimalValue(c)))
  {
    var line := HunkHeaderLine(a, b, c, d, rest);
    var j1 := 4 + |a| + |CountSuffix(b)|;
    var j2 := j1 + 2 + |c| + |CountSuffix(d)|;
    assert PartsAt(line, a, b, c, d, j1, j2) by {
      HeaderLineParts(a, b, c, d, rest);
    }
    assert MatchedAt(line, j1, j2, DecimalValue(a), DecimalValue(c)) by {
      MatchedOfParts(line, a, b, c, d, j1, j2);
    }
    HunkStartsMatched(line, j1, j2, DecimalValue(a), DecimalValue(c));
  }

  /** A line holding the five parts is the header they spell, followed by what comes after. */
  lemma LineOfParts(line: string, a: string, b: Option<string>, c: string, d: Option<string>, j1: nat, j2: nat)
    requires PartsAt(line, a, b, c, d, j1, j2)
    ensures line == HunkHeaderLine(a, b, c, d, line[j2 + 3..])
  {
    var rest := line[j2 + 3..];
    var r2 := " @@" + rest;
    var t2 := c + (CountSuffix(d) + r2);
    var r1 := " +" + t2;
    var t1 := a + (CountSuffix(b) + r1);
    assert OccursAt(line, j2, r2) by {
      OccursSlice(line, j2 + 3, |line|);
      assert line[j2 + 3..|line|] == rest;
      OccursJoin(line, j2, " @@", rest);
    }
    assert OccursAt(line, j1 + 2, t2) by {
      OccursSplit(line, j1 + 2, c, CountSuffix(d));
      OccursJoin(line, j1 + 2 + |c|, CountSuffix(d), r2);
      OccursJoin(line, j1 + 2, c, CountSuffix(d) + r2);
    }
    assert OccursAt(line, j1, r1) by {
      OccursJoin(line, j1, " +", t2);
    }
    assert OccursAt(line, 4, t1) by {
      OccursSplit(line, 4, a, CountSuffix(b));
      OccursJoin(line, 4 + |a|, CountSuffix(b), r1);
      OccursJoin(line, 4, a, CountSuffix(b) + r1);
    }
    OccursJoin(line, 0, "@@ -", t1);
    OccursWhole(line, HunkHeaderLine(a, b, c, d, rest));
  }

  /** The two ranges of a matched line, as strings. */
  lemma PartsOfMatched(line: string, j1: nat, j2: nat, start1: nat, start2: nat)
    returns (a: string, b: Option<string>, c: string, d: Option<string>)
    requires MatchedAt(line, j1, j2, start1, start2)
    ensures |a| > 0 && AllDigits(a) && |c| > 0 && AllDigits(c) && ValidCount(b) && ValidCount(d)
    ensures start1 == DecimalValue(a) && start2 == DecimalValue(c)
    ensures PartsAt(line, a, b, c, d, j1, j2)
  {
    a, b := RangeAtSound(line, 4);
    c, d := RangeAtSound(line, j1 + 2);
  }

  /** Conversely, a recognised header is a well-formed header followed by arbitrary text. */
  lemma HunkStartsSound(line: string) returns (a: string, b: Option<string>, c: string, d: Option<string>, rest: string)
    requires HunkStarts(line).Some?
    ensures |a| > 0 && AllDigits(a) && |c| > 0 && AllDigits(c) && ValidCount(b) && ValidCount(d)
    ensures line == HunkHeaderLine(a, b, c, d, rest)
    ensures HunkStarts(line) == Some((DecimalValue(a), DecimalValue(c)))
  {
    var j1, j2 := MatchedOfHunkStarts(line);
    a, b, c, d := PartsOfMatched(line, j1, j2, HunkStarts(line).value.0, HunkStarts(line).value.1);
    rest := line[j2 + 3..];
    LineOfParts(line, a, b, c, d, j1, j2);
  }
}
