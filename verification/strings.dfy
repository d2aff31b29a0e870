/**
 * String helpers shared by the model: JavaScript's `startsWith`, `split`,
 * `join`, `trim`, greedy digit runs, ASCII `toLowerCase`, `String(n)` for naturals and
 * `parseInt(digits, 10)`.
 */
module Strings {

  predicate StartsWith(s: string, prefix: string) {
    |prefix| <= |s| && s[..|prefix|] == prefix
  }

  predicate IsDigit(c: char) {
    '0' <= c <= '9'
  }

  predicate AllDigits(s: string) {
    forall i :: 0 <= i < |s| ==> IsDigit(s[i])
  }

  function DigitValue(c: char): (d: nat)
    requires IsDigit(c)
    ensures d < 10
  {
    (c as int) - ('0' as int)
  }

  function DigitChar(d: nat): (c: char)
    requires d < 10
    ensures IsDigit(c) && DigitValue(c) == d
  {
    ((('0' as int) + d) as char)
  }

  /** The decimal value of a run of digits, as `parseInt(s, 10)` reads it. */
  function DecimalValue(s: string): nat
    requires AllDigits(s)
  {
    if |s| == 0 then 0 else DecimalValue(s[..|s| - 1]) * 10 + DigitValue(s[|s| - 1])
  }

  /** `String(n)` for a natural number: its decimal digits, no leading zero. */
  function NatToDecimal(n: nat): (r: string)
    ensures |r| > 0 && AllDigits(r)
    ensures DecimalValue(r) == n
    ensures |r| > 1 ==> r[0] != '0'
  {
    if n < 10 then [DigitChar(n)]
    else
      var prefix := NatToDecimal(n / 10);
      var r := prefix + [DigitChar(n % 10)];
      assert r[..|r| - 1] == prefix;
      r
  }

  /** Distinct numbers print differently, so a map keyed by the number and one keyed by its string agree. */
  lemma NatToDecimalInjective(a: nat, b: nat)
    ensures NatToDecimal(a) == NatToDecimal(b) <==> a == b
  {
    if NatToDecimal(a) == NatToDecimal(b) {
      assert DecimalValue(NatToDecimal(a)) == DecimalValue(NatToDecimal(b));
    }
  }

  /** In digits followed by a non-digit separator, the first separator ends the digits. */
  lemma DigitsThenSeparator(d: string, sep: char, x: string)
    requires AllDigits(d) && !IsDigit(sep)
    ensures (d + [sep] + x)[|d|] == sep
    ensures forall i :: 0 <= i < |d| ==> (d + [sep] + x)[i] != sep
  {
  }

  /**
   * A number printed in front of a non-digit separator can be read back: two
   * such texts are equal exactly when the numbers and the tails are.
   */
  lemma DecimalThenSeparator(a: nat, x: string, b: nat, y: string, sep: char)
    requires !IsDigit(sep)
    ensures NatToDecimal(a) + [sep] + x == NatToDecimal(b) + [sep] + y <==> a == b && x == y
  {
    var da, db := NatToDecimal(a), NatToDecimal(b);
    var s := da + [sep] + x;
    if s == db + [sep] + y {
      assert |da| == |db| by {
        DigitsThenSeparator(da, sep, x);
        DigitsThenSeparator(db, sep, y);
      }
      assert da == s[..|da|] && db == s[..|db|];
      assert x == s[|da| + 1..] && y == s[|db| + 1..];
      NatToDecimalInjective(a, b);
    }
  }

  /** Every character of `s` from position `i` up to (not including) `j` is a digit. */
  predicate DigitsIn(s: string, i: nat, j: nat)
    requires i <= j <= |s|
    decreases j - i
  {
    i == j || (IsDigit(s[j - 1]) && DigitsIn(s, i, j - 1))
  }

  lemma {:induction false} DigitsInCons(s: string, i: nat, j: nat)
    requires i < j <= |s|
    ensures DigitsIn(s, i, j) <==> IsDigit(s[i]) && DigitsIn(s, i + 1, j)
    decreases j - i
  {
    if j > i + 1 {
      DigitsInCons(s, i, j - 1);
    }
  }

  /** The number of digits in `s` from position `i` on: the run a greedy `\d+` consumes there. */
  function DigitsAt(s: string, i: nat): (n: nat)
    requires i <= |s|
    ensures i + n <= |s|
    ensures DigitsIn(s, i, i + n)
    ensures i + n < |s| ==> !IsDigit(s[i + n])
    decreases |s| - i
  {
    if i < |s| && IsDigit(s[i]) then
      var n := DigitsAt(s, i + 1);
      DigitsInCons(s, i, i + 1 + n);
      1 + n
    else 0
  }

  /** A run of `k` digits at `i` followed by a non-digit (or by the end) is exactly what `DigitsAt` measures. */
  lemma {:induction false} DigitsAtOf(s: string, i: nat, k: nat)
    requires i + k <= |s| && DigitsIn(s, i, i + k)
    requires i + k < |s| ==> !IsDigit(s[i + k])
    ensures DigitsAt(s, i) == k
    decreases k
  {
    if k > 0 {
      DigitsInCons(s, i, i + k);
      DigitsAtOf(s, i + 1, k - 1);
    }
  }

  /** The decimal value of the digits of `s` from `i` up to `j`. */
  function DecimalValueIn(s: string, i: nat, j: nat): nat
    requires i <= j <= |s| && DigitsIn(s, i, j)
    decreases j - i
  {
    if j == i then 0 else DecimalValueIn(s, i, j - 1) * 10 + DigitValue(s[j - 1])
  }

  /** The digits of `s` from `i` up to `j` read as the string they form. */
  lemma {:induction false} DecimalValueInSlice(s: string, i: nat, j: nat)
    requires i <= j <= |s| && DigitsIn(s, i, j)
    ensures AllDigits(s[i..j]) && DecimalValueIn(s, i, j) == DecimalValue(s[i..j])
    decreases j - i
  {
    if j > i {
      DecimalValueInSlice(s, i, j - 1);
      assert s[i..j][..j - i - 1] == s[i..j - 1];
    }
  }

  /** `parts.join(sep)`. */
  function Join(parts: seq<string>, sep: char): string {
    if |parts| == 0 then ""
    else if |parts| == 1 then parts[0]
    else parts[0] + [sep] + Join(parts[1..], sep)
  }

  /** `s.split(sep)` for a one-character separator: never empty; the pieces hold no separator and join back to `s`. */
  function Split(s: string, sep: char): (parts: seq<string>)
    ensures |parts| >= 1
    ensures forall i :: 0 <= i < |parts| ==> sep !in parts[i]
    ensures Join(parts, sep) == s
  {
    if |s| == 0 then [""]
    else
      var rest := Split(s[1..], sep);
      if s[0] == sep then
        assert s == [sep] + s[1..];
        [""] + rest
      else
        var parts := [[s[0]] + rest[0]] + rest[1..];
        assert parts[1..] == rest[1..];
        parts
  }

  /** Splitting a join of separator-free pieces gives the pieces back. */
  lemma {:induction false} SplitJoin(parts: seq<string>, sep: char)
    requires |parts| >= 1
    requires forall i :: 0 <= i < |parts| ==> sep !in parts[i]
    ensures Split(Join(parts, sep), sep) == parts
    decreases |parts|, |parts[0]|
  {
    if |parts| == 1 {
      SplitPiece(parts[0], sep);
    } else if |parts[0]| == 0 {
      var tail := Join(parts[1..], sep);
      assert Join(parts, sep) == [sep] + tail;
      SplitJoin(parts[1..], sep);
      assert [""] + parts[1..] == parts;
    } else {
      var shorter := [parts[0][1..]] + parts[1..];
      assert shorter[1..] == parts[1..];
      assert Join(parts, sep) == [parts[0][0]] + Join(shorter, sep);
      SplitJoin(shorter, sep);
      assert [parts[0][0]] + parts[0][1..] == parts[0];
      assert [[parts[0][0]] + shorter[0]] + shorter[1..] == parts;
    }
  }

  lemma {:induction false} SplitPiece(p: string, sep: char)
    requires sep !in p
    ensures Split(p, sep) == [p]
    decreases |p|
  {
    if |p| > 0 {
      SplitPiece(p[1..], sep);
      assert [p[0]] + p[1..] == p;
    }
  }

  lemma {:induction false} JoinSnoc(parts: seq<string>, last: string, sep: char)
    requires |parts| >= 1
    ensures Join(parts + [last], sep) == Join(parts, sep) + [sep] + last
    decreases |parts|
  {
    if |parts| == 1 {
      assert (parts + [last])[1..] == [last];
    } else {
      assert (parts + [last])[1..] == parts[1..] + [last];
      JoinSnoc(parts[1..], last, sep);
    }
  }

  /** A text splits into two or more pieces exactly when it holds the separator. */
  lemma SplitCount(s: string, sep: char)
    ensures |Split(s, sep)| >= 2 <==> sep in s
  {
    if sep !in s {
      SplitPiece(s, sep);
    }
  }

  predicate EndsWith(s: string, suffix: string) {
    |suffix| <= |s| && s[|s| - |suffix|..] == suffix
  }

  /** ECMAScript WhiteSpace and LineTerminator code points: what `String.prototype.trim` strips. */
  predicate IsJsWhitespace(c: char) {
    var u := c as int;
    u == 0x09 || u == 0x0A || u == 0x0B || u == 0x0C || u == 0x0D || u == 0x20
    || u == 0xA0 || u == 0x1680 || (0x2000 <= u <= 0x200A) || u == 0x2028
    || u == 0x2029 || u == 0x202F || u == 0x205F || u == 0x3000 || u == 0xFEFF
  }

  predicate AllWhitespace(s: string) {
    forall i :: 0 <= i < |s| ==> IsJsWhitespace(s[i])
  }

  function TrimStart(s: string): (r: string)
    ensures |r| <= |s| && r == s[|s| - |r|..]
    ensures AllWhitespace(s[..|s| - |r|])
    ensures |r| > 0 ==> !IsJsWhitespace(r[0])
  {
    if |s| > 0 && IsJsWhitespace(s[0]) then TrimStart(s[1..]) else s
  }

  function TrimEnd(s: string): (r: string)
    ensures |r| <= |s| && r == s[..|r|]
    ensures AllWhitespace(s[|r|..])
    ensures |r| > 0 ==> !IsJsWhitespace(r[|r| - 1])
  {
    if |s| > 0 && IsJsWhitespace(s[|s| - 1]) then TrimEnd(s[..|s| - 1]) else s
  }

  /** `s.trim()`: whitespace stripped from both ends. */
  function Trim(s: string): (r: string)
    ensures |r| <= |s|
    ensures |r| == 0 || (!IsJsWhitespace(r[0]) && !IsJsWhitespace(r[|r| - 1]))
  {
    TrimEnd(TrimStart(s))
  }

  /** The trim is the slice of `s` from `i` on, with only whitespace around it. */
  lemma TrimSlice(s: string) returns (i: nat)
    ensures i + |Trim(s)| <= |s| && s[i..i + |Trim(s)|] == Trim(s)
    ensures AllWhitespace(s[..i]) && AllWhitespace(s[i + |Trim(s)|..])
  {
    var t := TrimStart(s);
    var r := TrimEnd(t);
    i := |s| - |t|;
    SliceOfSlice(s, i, |r|);
  }

  lemma SliceOfSlice<T>(s: seq<T>, i: nat, n: nat)
    requires i + n <= |s|
    ensures s[i..][..n] == s[i..i + n] && s[i..][n..] == s[i + n..]
  {
  }

  /** A string that neither starts nor ends with whitespace is its own trim. */
  lemma TrimNoEdgeWhitespace(s: string)
    requires |s| == 0 || (!IsJsWhitespace(s[0]) && !IsJsWhitespace(s[|s| - 1]))
    ensures Trim(s) == s
  {
  }

  /** One leading space is trimmed away from a text without whitespace at its edges. */
  lemma TrimLeadingSpace(s: string)
    requires |s| == 0 || (!IsJsWhitespace(s[0]) && !IsJsWhitespace(s[|s| - 1]))
    ensures Trim(" " + s) == s
  {
    assert (" " + s)[1..] == s;
    assert TrimStart(" " + s) == TrimStart(s);
  }

  /** The capitals whose lower case is an ASCII letter: `A`-`Z` and the Kelvin sign U+212A, which lowers to `k`. */
  predicate IsCapital(c: char) {
    'A' <= c <= 'Z' || c == '\U{212A}'
  }

  /** A character changes under lower-casing exactly when it is a capital, and what comes out is never one. */
  lemma LowerCharCapitals(c: char)
    ensures IsCapital(c) <==> LowerChar(c) != c
    ensures !IsCapital(LowerChar(c))
  {
  }

  function LowerChar(c: char): char {
    if 'A' <= c <= 'Z' then ((c as int) + 32) as char
    else if c == '\U{212A}' then 'k'
    else c
  }

  /**
   * `s.toLowerCase()` on the characters whose lower case is ASCII; every
   * other character is kept.
   */
  function ToLower(s: string): (r: string)
    ensures |r| == |s|
    ensures forall i :: 0 <= i < |s| ==> r[i] == LowerChar(s[i])
  {
    if |s| == 0 then "" else [LowerChar(s[0])] + ToLower(s[1..])
  }

  lemma ToLowerIdempotent(s: string)
    ensures ToLower(ToLower(s)) == ToLower(s)
  {
    var l := ToLower(s);
    assert forall i :: 0 <= i < |l| ==> LowerChar(l[i]) == l[i];
  }

  /** Every character of `s` is ASCII. */
  predicate IsAscii(s: string) {
    forall i :: 0 <= i < |s| ==> (s[i] as int) < 128
  }

  lemma LowerCharAscii(c: char)
    requires (LowerChar(c) as int) < 128
    ensures (c as int) < 128 || c == '\U{212A}'
  {
  }

  lemma {:induction false} LowerAsciiAt(e: string, i: nat)
    requires i < |e| && IsAscii(ToLower(e))
    ensures (e[i] as int) < 128 || e[i] == '\U{212A}'
  {
    assert (ToLower(e)[i] as int) < 128;
    LowerCharAscii(e[i]);
  }

  /** A text whose lower case is ASCII holds only ASCII characters and Kelvin signs. */
  lemma {:induction false} LowerAsciiFrom(e: string)
    requires IsAscii(ToLower(e))
    ensures forall i :: 0 <= i < |e| ==> (e[i] as int) < 128 || e[i] == '\U{212A}'
  {
    forall i | 0 <= i < |e| ensures (e[i] as int) < 128 || e[i] == '\U{212A}' {
      LowerAsciiAt(e, i);
    }
  }

  predicate NoCapitals(s: string) {
    |s| == 0 || (!IsCapital(s[0]) && NoCapitals(s[1..]))
  }

  /** A string without capitals is its own lower case. */
  lemma {:induction false} ToLowerNoCapitals(s: string)
    requires NoCapitals(s)
    ensures ToLower(s) == s
    decreases |s|
  {
    if |s| > 0 {
      ToLowerNoCapitals(s[1..]);
      assert s == [s[0]] + s[1..];
    }
  }

  // ---------------------------------------------------------------------------
  // Occurrences of a text at a position
  // ---------------------------------------------------------------------------

  /** `t` occurs in `s` at position `i`. */
  predicate OccursAt(s: string, i: nat, t: string) {
    OccursFrom(s, i, t, 0)
  }

  /** `t` fits in `s` at `i`, and its characters from position `k` on match there. */
  predicate OccursFrom(s: string, i: nat, t: string, k: nat)
    requires k <= |t|
    decreases |t| - k
  {
    i + |t| <= |s| && (k == |t| || (s[i + k] == t[k] && OccursFrom(s, i, t, k + 1)))
  }

  lemma {:induction false} OccursFromIndex(s: string, i: nat, t: string, m: nat, k: nat)
    requires m <= k < |t| && OccursFrom(s, i, t, m)
    ensures s[i + k] == t[k]
    decreases k - m
  {
    if m < k {
      OccursFromIndex(s, i, t, m + 1, k);
    }
  }

  lemma {:induction false} OccursFromPointwise(s: string, i: nat, t: string, m: nat)
    requires m <= |t| && i + |t| <= |s|
    requires forall k :: m <= k < |t| ==> s[i + k] == t[k]
    ensures OccursFrom(s, i, t, m)
    decreases |t| - m
  {
    if m < |t| {
      OccursFromPointwise(s, i, t, m + 1);
    }
  }

  lemma OccursIndex(s: string, i: nat, t: string, k: nat)
    requires OccursAt(s, i, t) && k < |t|
    ensures s[i + k] == t[k]
  {
    OccursFromIndex(s, i, t, 0, k);
  }

  /** An occurrence is a fit plus a character-by-character match. */
  lemma OccursPointwise(s: string, i: nat, t: string)
    requires i + |t| <= |s|
    requires forall k :: 0 <= k < |t| ==> s[i + k] == t[k]
    ensures OccursAt(s, i, t)
  {
    OccursFromPointwise(s, i, t, 0);
  }

  lemma OccursSplit(s: string, i: nat, x: string, y: string)
    requires OccursAt(s, i, x + y)
    ensures OccursAt(s, i, x) && OccursAt(s, i + |x|, y)
  {
    forall k | 0 <= k < |x|
      ensures s[i + k] == x[k]
    {
      OccursIndex(s, i, x + y, k);
    }
    OccursPointwise(s, i, x);
    forall k | 0 <= k < |y|
      ensures s[i + |x| + k] == y[k]
    {
      OccursIndex(s, i, x + y, |x| + k);
    }
    OccursPointwise(s, i + |x|, y);
  }

  lemma OccursJoin(s: string, i: nat, x: string, y: string)
    requires OccursAt(s, i, x) && OccursAt(s, i + |x|, y)
    ensures OccursAt(s, i, x + y)
  {
    forall k | 0 <= k < |x + y|
      ensures s[i + k] == (x + y)[k]
    {
      if k < |x| {
        OccursIndex(s, i, x, k);
      } else {
        OccursIndex(s, i + |x|, y, k - |x|);
      }
    }
    OccursPointwise(s, i, x + y);
  }

  lemma OccursSlice(s: string, i: nat, j: nat)
    requires i <= j <= |s|
    ensures OccursAt(s, i, s[i..j])
  {
    OccursPointwise(s, i, s[i..j]);
  }

  lemma OccursWhole(s: string, t: string)
    requires OccursAt(s, 0, t) && |t| == |s|
    ensures s == t
  {
    forall k | 0 <= k < |s|
      ensures s[k] == t[k]
    {
      OccursIndex(s, 0, t, k);
    }
  }

  lemma OccursSelf(s: string)
    ensures OccursAt(s, 0, s)
  {
    OccursPointwise(s, 0, s);
  }
}
