/**
 * `parseGitHubPRUrl` (src/features/pr/utils/parse-pr-url.ts): the unanchored
 * regular expression `(?:https?:\/\/)?github\.com\/([^/]+)\/([^/]+)\/pull\/(\d+)`
 * as a leftmost search for `github.com/<owner>/<repo>/pull/<digits>`.
 *
 * The optional protocol only moves where a match starts, never what it
 * captures: a match with the protocol at `i` has its host at `i + 7` or
 * `i + 8`, and no host can start inside `http://` or `https://`, which hold
 * no `g`. So the captures are those of the leftmost host match.
 *
 * Matching works on positions (a `Span`); the captured strings are cut out
 * of the text once, by `Captures`.
 */
module ParsePrUrl {
  import opened Wrappers
  import opened Strings

  datatype ParsedPRUrl = ParsedPRUrl(owner: string, repo: string, number: nat)

  /**
   * Where the three groups of a match lie: the owner at `ownerStart..ownerEnd`,
   * the repository at `ownerEnd + 1..repoEnd`, the digits from
   * `repoEnd + |PullSegment|` to `numberEnd`.
   */
  datatype Span = Span(ownerStart: nat, ownerEnd: nat, repoEnd: nat, numberEnd: nat)

  const Host: string := "github.com/"
  const PullSegment: string := "/pull/"

  predicate NoSlash(s: string) {
    forall k :: 0 <= k < |s| ==> s[k] != '/'
  }

  /** The end of `[^/]+` read greedily from `i`: the first `/` at or after `i`, or the end. */
  function NonSlashEnd(s: string, i: nat): (e: nat)
    requires i <= |s|
    ensures i <= e <= |s|
    ensures e < |s| ==> s[e] == '/'
    decreases |s| - i
  {
    if i == |s| || s[i] == '/' then i else NonSlashEnd(s, i + 1)
  }

  /** The end of `\d+` read greedily from `i`. */
  function DigitEnd(s: string, i: nat): (e: nat)
    requires i <= |s|
    ensures i <= e <= |s|
    ensures e < |s| ==> !IsDigit(s[e])
    decreases |s| - i
  {
    if i == |s| || !IsDigit(s[i]) then i else DigitEnd(s, i + 1)
  }

  /** No `/` lies before the end of the run read from `i`. */
  lemma {:induction false} NonSlashRun(s: string, i: nat)
    requires i <= |s|
    ensures forall k :: i <= k < NonSlashEnd(s, i) ==> s[k] != '/'
    decreases |s| - i
  {
    if i < |s| && s[i] != '/' {
      NonSlashRun(s, i + 1);
    }
  }

  /** Every character before the end of the digit run read from `i` is a digit. */
  lemma {:induction false} DigitRun(s: string, i: nat)
    requires i <= |s|
    ensures forall k :: i <= k < DigitEnd(s, i) ==> IsDigit(s[k])
    decreases |s| - i
  {
    if i < |s| && IsDigit(s[i]) {
      DigitRun(s, i + 1);
    }
  }

  /** The span lies inside `s`, its groups are non-empty and its number is a whole digit run. */
  predicate Fits(s: string, m: Span) {
    && m.ownerStart < m.ownerEnd < m.repoEnd
    && m.repoEnd + |PullSegment| < m.numberEnd <= |s|
    && DigitEnd(s, m.repoEnd + |PullSegment|) == m.numberEnd
  }

  /** The values a match captures: both names as they stand and the number's value. */
  function Captures(s: string, m: Span): ParsedPRUrl
    requires Fits(s, m)
  {
    var c := m.repoEnd + |PullSegment|;
    assert AllDigits(s[c..m.numberEnd]) by { DigitRun(s, c); }
    ParsedPRUrl(s[m.ownerStart..m.ownerEnd], s[m.ownerEnd + 1..m.repoEnd], DecimalValue(s[c..m.numberEnd]))
  }

  /**
   * The match of `github\.com\/([^/]+)\/([^/]+)\/pull\/(\d+)` with its host at
   * `p`. Each `[^/]+` must be followed by `/`, so it can only take the whole
   * run of non-slash characters; `\d+` takes the whole digit run.
   */
  function MatchAt(s: string, p: nat): (r: Option<Span>)
    requires p <= |s|
    ensures r.Some? ==> Fits(s, r.value)
  {
    if OccursAt(s, p, Host) then OwnerFrom(s, p + |Host|) else None
  }

  /** `([^/]+)\/` from `a`, then the rest of the pattern. */
  function OwnerFrom(s: string, a: nat): (r: Option<Span>)
    requires a <= |s|
    ensures r.Some? ==> Fits(s, r.value)
  {
    var e1 := NonSlashEnd(s, a);
    if e1 == a || e1 == |s| then None else RepoFrom(s, a, e1)
  }

  /** With the owner at `a..e1` and a `/` after it: `([^/]+)\/pull\/`, then the number. */
  function RepoFrom(s: string, a: nat, e1: nat): (r: Option<Span>)
    requires a < e1 < |s|
    ensures r.Some? ==> Fits(s, r.value)
  {
    var e2 := NonSlashEnd(s, e1 + 1);
    if e2 == e1 + 1 || !OccursAt(s, e2, PullSegment) then None else NumberFrom(s, a, e1, e2)
  }

  /** With the owner at `a..e1`, the repository up to `e2` and `/pull/` after it: `(\d+)`. */
  function NumberFrom(s: string, a: nat, e1: nat, e2: nat): (r: Option<Span>)
    requires a < e1 < e2 && e2 + |PullSegment| <= |s|
    ensures r.Some? ==> Fits(s, r.value)
  {
    var c := e2 + |PullSegment|;
    var e3 := DigitEnd(s, c);
    if e3 == c then None else Some(Span(a, e1, e2, e3))
  }

  /** The first position from `p` on where a match has its host, or `|s|` when there is none. */
  function FirstMatch(s: string, p: nat): (q: nat)
    requires p <= |s|
    ensures p <= q <= |s|
    ensures forall k :: p <= k < q ==> MatchAt(s, k).None?
    ensures q < |s| ==> MatchAt(s, q).Some?
    decreases |s| - p
  {
    if p == |s| || MatchAt(s, p).Some? then p else FirstMatch(s, p + 1)
  }

  /**
   * `parseGitHubPRUrl`: the captures of the leftmost match, if any; a result
   * exists exactly when a match exists somewhere.
   */
  function ParseGitHubPRUrl(url: string): Option<ParsedPRUrl> {
    var q := FirstMatch(url, 0);
    if q < |url| then Some(Captures(url, MatchAt(url, q).value)) else None
  }

  /** A result exists exactly when a match exists somewhere. */
  lemma ParseFindsMatch(url: string)
    ensures ParseGitHubPRUrl(url).Some? <==> exists p: nat :: p <= |url| && MatchAt(url, p).Some?
  {
    assert MatchAt(url, |url|).None? by { assert !OccursAt(url, |url|, Host); }
  }

  // ---------------------------------------------------------------------------
  // What a match is, stated over the text
  // ---------------------------------------------------------------------------

  /** The text of a pull-request address without its protocol. */
  function Address(owner: string, repo: string, digits: string): string {
    Host + owner + "/" + repo + PullSegment + digits
  }

  /** `github.com/<owner>/<repo>/pull/<digits>` occurs at `p`, with both names non-empty and slash-free. */
  predicate Occurrence(s: string, p: nat, owner: string, repo: string, digits: string) {
    && OccursAt(s, p, Address(owner, repo, digits))
    && |owner| > 0 && NoSlash(owner) && |repo| > 0 && NoSlash(repo)
    && |digits| > 0 && AllDigits(digits)
  }

  /** The digits of an occurrence end the digit run of the text. */
  predicate DigitsMaximal(s: string, p: nat, owner: string, repo: string, digits: string) {
    var e := p + |Address(owner, repo, digits)|;
    e <= |s| ==> (e == |s| || !IsDigit(s[e]))
  }

  lemma {:induction false} NonSlashEndAt(s: string, i: nat, e: nat)
    requires i <= e <= |s| && (e == |s| || s[e] == '/')
    requires forall k :: i <= k < e ==> s[k] != '/'
    ensures NonSlashEnd(s, i) == e
    decreases e - i
  {
    if i < e {
      NonSlashEndAt(s, i + 1, e);
    }
  }

  lemma {:induction false} DigitEndAt(s: string, i: nat, e: nat)
    requires i <= e <= |s| && (e == |s| || !IsDigit(s[e]))
    requires forall k :: i <= k < e ==> IsDigit(s[k])
    ensures DigitEnd(s, i) == e
    decreases e - i
  {
    if i < e {
      DigitEndAt(s, i + 1, e);
    }
  }

  /** Splits an occurrence into its five pieces at their positions. */
  lemma OccurrenceParts(s: string, p: nat, owner: string, repo: string, digits: string)
    requires OccursAt(s, p, Address(owner, repo, digits))
    ensures var a := p + |Host|;
            var b := a + |owner| + 1;
            var c := b + |repo| + |PullSegment|;
            && OccursAt(s, p, Host) && OccursAt(s, a, owner) && a + |owner| < |s| && s[a + |owner|] == '/'
            && OccursAt(s, b, repo) && OccursAt(s, b + |repo|, PullSegment) && OccursAt(s, c, digits)
  {
    var a := p + |Host|;
    OccursSplit(s, p, Host + owner + "/" + repo + PullSegment, digits);
    OccursSplit(s, p, Host + owner + "/" + repo, PullSegment);
    OccursSplit(s, p, Host + owner + "/", repo);
    OccursSplit(s, p, Host + owner, "/");
    OccursSplit(s, p, Host, owner);
    OccursIndex(s, a + |owner|, "/", 0);
  }

  lemma OccursSliceEq(s: string, i: nat, t: string)
    requires OccursAt(s, i, t)
    ensures i + |t| <= |s| && s[i..i + |t|] == t
  {
    forall k | 0 <= k < |t| ensures s[i + k] == t[k] {
      OccursIndex(s, i, t, k);
    }
  }

  /** A name occurring at `i` without a slash, with a slash after it, is the whole run read there. */
  lemma NameRun(s: string, i: nat, name: string)
    requires OccursAt(s, i, name) && NoSlash(name) && i + |name| < |s| && s[i + |name|] == '/'
    ensures NonSlashEnd(s, i) == i + |name| && s[i..i + |name|] == name
  {
    forall k | i <= k < i + |name| ensures s[k] != '/' {
      OccursIndex(s, i, name, k - i);
    }
    NonSlashEndAt(s, i, i + |name|);
    OccursSliceEq(s, i, name);
  }

  /** Digits after `/pull/` give a number; when they end the run it is their value. */
  lemma NumberOfDigits(s: string, a: nat, e1: nat, e2: nat, digits: string)
    requires a < e1 < e2 && OccursAt(s, e2 + |PullSegment|, digits) && |digits| > 0 && AllDigits(digits)
    ensures NumberFrom(s, a, e1, e2).Some?
    ensures var c := e2 + |PullSegment|;
            var e := c + |digits|;
            (e == |s| || !IsDigit(s[e])) ==> NumberFrom(s, a, e1, e2) == Some(Span(a, e1, e2, e))
  {
    var c := e2 + |PullSegment|;
    var e := c + |digits|;
    OccursSliceEq(s, c, digits);
    assert IsDigit(s[c]) by { OccursIndex(s, c, digits, 0); }
    if e == |s| || !IsDigit(s[e]) {
      forall k | c <= k < e ensures IsDigit(s[k]) {
        OccursIndex(s, c, digits, k - c);
      }
      DigitEndAt(s, c, e);
    }
  }

  /**
   * An occurrence at `p` is matched at `p`: the names are captured as they
   * stand, and the number is the value of the digits when they end the run.
   */
  lemma MatchAtComplete(s: string, p: nat, owner: string, repo: string, digits: string)
    requires Occurrence(s, p, owner, repo, digits)
    ensures p <= |s| && MatchAt(s, p).Some?
    ensures Captures(s, MatchAt(s, p).value).owner == owner
    ensures Captures(s, MatchAt(s, p).value).repo == repo
    ensures DigitsMaximal(s, p, owner, repo, digits) ==>
              Captures(s, MatchAt(s, p).value) == ParsedPRUrl(owner, repo, DecimalValue(digits))
  {
    OccurrenceParts(s, p, owner, repo, digits);
    var a := p + |Host|;
    var e1 := a + |owner|;
    var e2 := e1 + 1 + |repo|;
    assert e2 < |s| && s[e2] == '/' by { OccursIndex(s, e2, PullSegment, 0); }
    NameRun(s, a, owner);
    NameRun(s, e1 + 1, repo);
    assert MatchAt(s, p) == OwnerFrom(s, a) by {
      assert OccursAt(s, p, Host);
    }
    assert OwnerFrom(s, a) == RepoFrom(s, a, e1);
    assert RepoFrom(s, a, e1) == NumberFrom(s, a, e1, e2) by {
      assert OccursAt(s, e2, PullSegment);
    }
    NumberOfDigits(s, a, e1, e2, digits);
    var c := e2 + |PullSegment|;
    var m := MatchAt(s, p).value;
    assert m == Span(a, e1, e2, DigitEnd(s, c));
    var r := Captures(s, m);
    assert r.owner == owner && r.repo == repo by {
      CapturesOf(s, m);
    }
    if DigitsMaximal(s, p, owner, repo, digits) {
      assert p + |Address(owner, repo, digits)| == c + |digits|;
      assert m.numberEnd == c + |digits|;
      assert s[c..c + |digits|] == digits by { OccursSliceEq(s, c, digits); }
      CapturesOf(s, m);
    }
  }

  /** The captures of a span are its two name slices and the value of its digit slice. */
  lemma CapturesOf(s: string, m: Span)
    requires Fits(s, m)
    ensures var c := m.repoEnd + |PullSegment|;
            && Captures(s, m).owner == s[m.ownerStart..m.ownerEnd]
            && Captures(s, m).repo == s[m.ownerEnd + 1..m.repoEnd]
            && AllDigits(s[c..m.numberEnd]) && Captures(s, m).number == DecimalValue(s[c..m.numberEnd])
  {
    DigitRun(s, m.repoEnd + |PullSegment|);
  }

  /** A match at `p` is an occurrence there whose digits end the run, and it captures its pieces. */
  lemma MatchAtSound(s: string, p: nat) returns (digits: string)
    requires p <= |s| && MatchAt(s, p).Some?
    ensures var r := Captures(s, MatchAt(s, p).value);
            && Occurrence(s, p, r.owner, r.repo, digits)
            && DigitsMaximal(s, p, r.owner, r.repo, digits)
            && r.number == DecimalValue(digits)
  {
    var m := MatchAt(s, p).value;
    var a := p + |Host|;
    var e1 := NonSlashEnd(s, a);
    var e2 := if e1 < |s| then NonSlashEnd(s, e1 + 1) else e1;
    var c := e2 + |PullSegment|;
    var e3 := if c <= |s| then DigitEnd(s, c) else c;
    assert m == Span(a, e1, e2, e3) && OccursAt(s, p, Host) && OccursAt(s, e2, PullSegment) by {
      assert OccursAt(s, p, Host);
      assert e1 != a && e1 != |s|;
      assert e2 != e1 + 1 && OccursAt(s, e2, PullSegment);
    }
    digits := s[c..e3];
    var owner, repo := s[a..e1], s[e1 + 1..e2];
    var r := Captures(s, m);
    assert r.owner == owner && NoSlash(owner) && r.repo == repo && NoSlash(repo)
           && AllDigits(digits) && r.number == DecimalValue(digits) by {
      SpanPieces(s, m);
    }
    assert OccursAt(s, p, Address(owner, repo, digits)) by {
      AddressAt(s, p, e1, e2, e3);
    }
    assert p + |Address(owner, repo, digits)| == e3;
  }

  /** The captures of a span read by the matcher are slash-free names and a digit string's value. */
  lemma SpanPieces(s: string, m: Span)
    requires Fits(s, m)
    requires NonSlashEnd(s, m.ownerStart) == m.ownerEnd && NonSlashEnd(s, m.ownerEnd + 1) == m.repoEnd
    ensures var r := Captures(s, m);
            var c := m.repoEnd + |PullSegment|;
            && r.owner == s[m.ownerStart..m.ownerEnd] && NoSlash(r.owner)
            && r.repo == s[m.ownerEnd + 1..m.repoEnd] && NoSlash(r.repo)
            && AllDigits(s[c..m.numberEnd]) && r.number == DecimalValue(s[c..m.numberEnd])
  {
    NonSlashRun(s, m.ownerStart);
    NonSlashRun(s, m.ownerEnd + 1);
    DigitRun(s, m.repoEnd + |PullSegment|);
  }

  /** The pieces read at their positions spell out an address. */
  lemma AddressAt(s: string, p: nat, e1: nat, e2: nat, e3: nat)
    requires p + |Host| <= e1 < e2 && e2 + |PullSegment| <= e3 <= |s|
    requires OccursAt(s, p, Host) && s[e1] == '/' && OccursAt(s, e2, PullSegment)
    ensures OccursAt(s, p, Address(s[p + |Host|..e1], s[e1 + 1..e2], s[e2 + |PullSegment|..e3]))
  {
    var a, c := p + |Host|, e2 + |PullSegment|;
    var owner, repo, digits := s[a..e1], s[e1 + 1..e2], s[c..e3];
    assert OccursAt(s, p, Host + owner) by {
      OccursSlice(s, a, e1);
      OccursJoin(s, p, Host, owner);
    }
    assert OccursAt(s, p, Host + owner + "/") by {
      OccursSlice(s, e1, e1 + 1);
      assert s[e1..e1 + 1] == "/";
      OccursJoin(s, p, Host + owner, "/");
    }
    assert OccursAt(s, p, Host + owner + "/" + repo) by {
      OccursSlice(s, e1 + 1, e2);
      OccursJoin(s, p, Host + owner + "/", repo);
    }
    assert OccursAt(s, p, Host + owner + "/" + repo + PullSegment) by {
      OccursJoin(s, p, Host + owner + "/" + repo, PullSegment);
    }
    OccursSlice(s, c, e3);
    OccursJoin(s, p, Host + owner + "/" + repo + PullSegment, digits);
  }

  /**
   * The leftmost occurrence decides: a result is found whenever the address
   * occurs anywhere, and it comes from no later position than that occurrence.
   */
  lemma ParseFindsOccurrence(s: string, p: nat, owner: string, repo: string, digits: string)
    requires Occurrence(s, p, owner, repo, digits)
    ensures ParseGitHubPRUrl(s).Some? && FirstMatch(s, 0) <= p
  {
    MatchAtComplete(s, p, owner, repo, digits);
  }

  /** A result comes from an occurrence, and no occurrence lies to its left. */
  lemma ParseSound(s: string) returns (p: nat, digits: string)
    requires ParseGitHubPRUrl(s).Some?
    ensures var r := ParseGitHubPRUrl(s).value;
            && Occurrence(s, p, r.owner, r.repo, digits) && DigitsMaximal(s, p, r.owner, r.repo, digits)
            && r.number == DecimalValue(digits)
            && forall q: nat, o, n, d :: q < p ==> !Occurrence(s, q, o, n, d)
  {
    p := FirstMatch(s, 0);
    assert ParseGitHubPRUrl(s).value == Captures(s, MatchAt(s, p).value);
    digits := MatchAtSound(s, p);
    forall q: nat, o, n, d | q < p ensures !Occurrence(s, q, o, n, d) {
      if Occurrence(s, q, o, n, d) {
        MatchAtComplete(s, q, o, n, d);
      }
    }
  }

  /**
   * The canonical address, followed by anything that does not continue the
   * digits (such as `/files`), gives its owner, repository and number.
   */
  lemma ParseAddress(owner: string, repo: string, digits: string, rest: string)
    requires |owner| > 0 && NoSlash(owner) && |repo| > 0 && NoSlash(repo)
    requires |digits| > 0 && AllDigits(digits)
    requires |rest| == 0 || !IsDigit(rest[0])
    ensures ParseGitHubPRUrl(Address(owner, repo, digits) + rest)
            == Some(ParsedPRUrl(owner, repo, DecimalValue(digits)))
  {
    var s := Address(owner, repo, digits) + rest;
    OccursSlice(s, 0, |Address(owner, repo, digits)|);
    assert s[..|Address(owner, repo, digits)|] == Address(owner, repo, digits);
    MatchAtComplete(s, 0, owner, repo, digits);
  }

  // ---------------------------------------------------------------------------
  // The optional protocol
  // ---------------------------------------------------------------------------

  predicate NoG(s: string) {
    forall k :: 0 <= k < |s| ==> s[k] != 'g'
  }

  function Shifted(m: Span, n: nat): Span {
    Span(m.ownerStart + n, m.ownerEnd + n, m.repoEnd + n, m.numberEnd + n)
  }

  function ShiftMatch(r: Option<Span>, n: nat): Option<Span> {
    match r
    case Some(m) => Some(Shifted(m, n))
    case None => None
  }

  lemma OccursShift(pre: string, s: string, i: nat, t: string)
    ensures OccursAt(pre + s, |pre| + i, t) <==> OccursAt(s, i, t)
  {
    if OccursAt(s, i, t) {
      forall k | 0 <= k < |t| ensures (pre + s)[|pre| + i + k] == t[k] {
        OccursIndex(s, i, t, k);
      }
      OccursPointwise(pre + s, |pre| + i, t);
    }
    if OccursAt(pre + s, |pre| + i, t) {
      forall k | 0 <= k < |t| ensures s[i + k] == t[k] {
        OccursIndex(pre + s, |pre| + i, t, k);
      }
      OccursPointwise(s, i, t);
    }
  }

  lemma {:induction false} NonSlashEndShift(pre: string, s: string, i: nat)
    requires i <= |s|
    ensures NonSlashEnd(pre + s, |pre| + i) == |pre| + NonSlashEnd(s, i)
    decreases |s| - i
  {
    if i < |s| && s[i] != '/' {
      NonSlashEndShift(pre, s, i + 1);
    }
  }

  lemma {:induction false} DigitEndShift(pre: string, s: string, i: nat)
    requires i <= |s|
    ensures DigitEnd(pre + s, |pre| + i) == |pre| + DigitEnd(s, i)
    decreases |s| - i
  {
    if i < |s| && IsDigit(s[i]) {
      DigitEndShift(pre, s, i + 1);
    }
  }

  lemma NumberFromShift(pre: string, s: string, a: nat, e1: nat, e2: nat)
    requires a < e1 < e2 && e2 + |PullSegment| <= |s|
    ensures NumberFrom(pre + s, |pre| + a, |pre| + e1, |pre| + e2) == ShiftMatch(NumberFrom(s, a, e1, e2), |pre|)
  {
    DigitEndShift(pre, s, e2 + |PullSegment|);
  }

  lemma RepoFromShift(pre: string, s: string, a: nat, e1: nat)
    requires a < e1 < |s|
    ensures RepoFrom(pre + s, |pre| + a, |pre| + e1) == ShiftMatch(RepoFrom(s, a, e1), |pre|)
  {
    NonSlashEndShift(pre, s, e1 + 1);
    var e2 := NonSlashEnd(s, e1 + 1);
    OccursShift(pre, s, e2, PullSegment);
    if e2 != e1 + 1 && OccursAt(s, e2, PullSegment) {
      NumberFromShift(pre, s, a, e1, e2);
    }
  }

  lemma OwnerFromShift(pre: string, s: string, a: nat)
    requires a <= |s|
    ensures OwnerFrom(pre + s, |pre| + a) == ShiftMatch(OwnerFrom(s, a), |pre|)
  {
    NonSlashEndShift(pre, s, a);
    var e1 := NonSlashEnd(s, a);
    if e1 != a && e1 != |s| {
      RepoFromShift(pre, s, a, e1);
    }
  }

  lemma MatchAtShift(pre: string, s: string, p: nat)
    requires p <= |s|
    ensures MatchAt(pre + s, |pre| + p) == ShiftMatch(MatchAt(s, p), |pre|)
  {
    OccursShift(pre, s, p, Host);
    if OccursAt(s, p, Host) {
      OwnerFromShift(pre, s, p + |Host|);
    }
  }

  lemma {:induction false} FirstMatchShift(pre: string, s: string, p: nat)
    requires p <= |s|
    ensures FirstMatch(pre + s, |pre| + p) == |pre| + FirstMatch(s, p)
    decreases |s| - p
  {
    MatchAtShift(pre, s, p);
    if p < |s| && MatchAt(s, p).None? {
      FirstMatchShift(pre, s, p + 1);
    }
  }

  /** A shifted span cuts the same captures out of the longer text. */
  lemma CapturesShift(pre: string, s: string, m: Span)
    requires Fits(s, m)
    ensures Fits(pre + s, Shifted(m, |pre|))
    ensures Captures(pre + s, Shifted(m, |pre|)) == Captures(s, m)
  {
    FitsShift(pre, s, m);
    var c := m.repoEnd + |PullSegment|;
    var x, y := Captures(pre + s, Shifted(m, |pre|)), Captures(s, m);
    assert x.owner == y.owner by {
      SliceShift(pre, s, m.ownerStart, m.ownerEnd);
    }
    assert x.repo == y.repo by {
      SliceShift(pre, s, m.ownerEnd + 1, m.repoEnd);
    }
    assert x.number == y.number by {
      SliceShift(pre, s, c, m.numberEnd);
    }
  }

  lemma FitsShift(pre: string, s: string, m: Span)
    requires Fits(s, m)
    ensures Fits(pre + s, Shifted(m, |pre|))
  {
    DigitEndShift(pre, s, m.repoEnd + |PullSegment|);
  }

  lemma SliceShift(pre: string, s: string, a: nat, b: nat)
    requires a <= b <= |s|
    ensures (pre + s)[|pre| + a..|pre| + b] == s[a..b]
  {
    assert forall k :: 0 <= k < b - a ==> (pre + s)[|pre| + a..|pre| + b][k] == s[a..b][k];
  }

  /** No match has its host inside a prefix without a `g`. */
  lemma {:induction false} NoMatchInPrefix(pre: string, s: string, k: nat)
    requires NoG(pre) && k <= |pre|
    ensures FirstMatch(pre + s, k) == FirstMatch(pre + s, |pre|)
    decreases |pre| - k
  {
    if k < |pre| {
      assert (pre + s)[k] != 'g';
      assert !OccursAt(pre + s, k, Host);
      NoMatchInPrefix(pre, s, k + 1);
    }
  }

  /** Text without a `g` in front of the address changes nothing, `http://` and `https://` included. */
  lemma PrefixIgnored(pre: string, s: string)
    requires NoG(pre)
    ensures ParseGitHubPRUrl(pre + s) == ParseGitHubPRUrl(s)
  {
    var q := FirstMatch(s, 0);
    assert FirstMatch(pre + s, 0) == |pre| + q by {
      NoMatchInPrefix(pre, s, 0);
      FirstMatchShift(pre, s, 0);
    }
    if q < |s| {
      var m := MatchAt(s, q).value;
      assert MatchAt(pre + s, |pre| + q) == Some(Shifted(m, |pre|)) by { MatchAtShift(pre, s, q); }
      CapturesShift(pre, s, m);
    }
  }

  /** `https://` and `http://` in front of the address do not change the captured values. */
  lemma ProtocolIgnored(s: string)
    ensures ParseGitHubPRUrl("https://" + s) == ParseGitHubPRUrl(s)
    ensures ParseGitHubPRUrl("http://" + s) == ParseGitHubPRUrl(s)
  {
    assert NoG("https://") && NoG("http://");
    PrefixIgnored("https://", s);
    PrefixIgnored("http://", s);
  }
}
