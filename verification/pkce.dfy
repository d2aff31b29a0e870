/**
 * The PKCE helpers (src/features/auth/utils/pkce.ts): `base64UrlEncode`,
 * which is `btoa` followed by three replacements, and the verifier, state
 * and challenge built with it. The random bytes and the SHA-256 digest are
 * parameters.
 *
 * `btoa` is the standard base64 of section 4 of RFC 4648 over the byte
 * values (each byte becomes one Latin-1 character first, so `btoa` sees
 * exactly the bytes). The result is shown to be the unpadded base64url of
 * section 5 of RFC 4648, which a decoder reads back.
 */
module Pkce {
  import opened Wrappers

  type Byte = x: int | 0 <= x < 256

  // ---------------------------------------------------------------------------
  // The two alphabets
  // ---------------------------------------------------------------------------

  /** The standard alphabet ends in `+` and `/`, the URL-safe one in `-` and `_`. */
  datatype Alphabet = Standard | UrlSafe

  /** The character of a six-bit value: `A-Z`, `a-z`, `0-9`, then the two alphabet-specific ones. */
  function Digit(alpha: Alphabet, v: nat): (c: char)
    requires v < 64
  {
    if v < 26 then ('A' as int + v) as char
    else if v < 52 then ('a' as int + v - 26) as char
    else if v < 62 then ('0' as int + v - 52) as char
    else if v == 62 then (if alpha == Standard then '+' else '-')
    else (if alpha == Standard then '/' else '_')
  }

  /** The base64url alphabet: `A-Z a-z 0-9 - _`. */
  predicate IsUrlChar(c: char) {
    ('A' <= c <= 'Z') || ('a' <= c <= 'z') || ('0' <= c <= '9') || c == '-' || c == '_'
  }

  /** The six-bit value of a base64url character. */
  function UrlValue(c: char): (v: Option<nat>)
    ensures v.Some? <==> IsUrlChar(c)
    ensures v.Some? ==> v.value < 64 && Digit(UrlSafe, v.value) == c
  {
    if 'A' <= c <= 'Z' then Some(c as int - 'A' as int)
    else if 'a' <= c <= 'z' then Some(c as int - 'a' as int + 26)
    else if '0' <= c <= '9' then Some(c as int - '0' as int + 52)
    else if c == '-' then Some(62)
    else if c == '_' then Some(63)
    else None
  }

  /** Every URL-safe digit is a base64url character, and it reads back as its value. */
  lemma UrlDigitValue(v: nat)
    requires v < 64
    ensures IsUrlChar(Digit(UrlSafe, v)) && UrlValue(Digit(UrlSafe, v)) == Some(v)
  {
  }

  // ---------------------------------------------------------------------------
  // Encoding
  // ---------------------------------------------------------------------------

  /** Three bytes as four digits: the 24 bits split into four sixes, most significant first. */
  function Quad(alpha: Alphabet, b0: Byte, b1: Byte, b2: Byte): string {
    [Digit(alpha, b0 / 4), Digit(alpha, (b0 % 4) * 16 + b1 / 16),
     Digit(alpha, (b1 % 16) * 4 + b2 / 64), Digit(alpha, b2 % 64)]
  }

  /**
   * Base64 of section 4 of RFC 4648 with the given alphabet: one quad per
   * three bytes, a last group of one or two bytes as two or three digits,
   * followed by `==` or `=` when `pad` is set.
   */
  function Encode(b: seq<Byte>, alpha: Alphabet, pad: bool): string
    decreases |b|
  {
    if |b| == 0 then ""
    else if |b| == 1 then
      [Digit(alpha, b[0] / 4), Digit(alpha, (b[0] % 4) * 16)] + (if pad then "==" else "")
    else if |b| == 2 then
      [Digit(alpha, b[0] / 4), Digit(alpha, (b[0] % 4) * 16 + b[1] / 16), Digit(alpha, (b[1] % 16) * 4)]
      + (if pad then "=" else "")
    else Quad(alpha, b[0], b[1], b[2]) + Encode(b[3..], alpha, pad)
  }

  /** `btoa` over the bytes. */
  function Btoa(b: seq<Byte>): string {
    Encode(b, Standard, true)
  }

  /** `.replace(/\+/g, '-').replace(/\//g, '_')`. */
  function Translate(s: string): (r: string)
    ensures |r| == |s|
  {
    seq(|s|, i requires 0 <= i < |s| => if s[i] == '+' then '-' else if s[i] == '/' then '_' else s[i])
  }

  /** `.replace(/=+$/, '')`: the run of `=` at the end removed. */
  function StripPadding(s: string): (r: string)
    decreases |s|
  {
    if |s| > 0 && s[|s| - 1] == '=' then StripPadding(s[..|s| - 1]) else s
  }

  /** `base64UrlEncode`. */
  function Base64UrlEncode(b: seq<Byte>): string {
    StripPadding(Translate(Btoa(b)))
  }

  // ---------------------------------------------------------------------------
  // `base64UrlEncode` is unpadded base64url
  // ---------------------------------------------------------------------------

  /** The padding a group of `n` bytes gets. */
  function Padding(n: nat): string {
    if n % 3 == 1 then "==" else if n % 3 == 2 then "=" else ""
  }

  lemma {:induction false} EncodePadded(b: seq<Byte>, alpha: Alphabet)
    ensures Encode(b, alpha, true) == Encode(b, alpha, false) + Padding(|b|)
    decreases |b|
  {
    if |b| >= 3 {
      EncodePadded(b[3..], alpha);
      assert Padding(|b|) == Padding(|b[3..]|);
    }
  }

  lemma TranslateAppend(x: string, y: string)
    ensures Translate(x + y) == Translate(x) + Translate(y)
  {
    assert forall i :: 0 <= i < |x + y| ==> (x + y)[i] == if i < |x| then x[i] else y[i - |x|];
  }

  lemma {:induction false} TranslateEncode(b: seq<Byte>)
    ensures Translate(Encode(b, Standard, false)) == Encode(b, UrlSafe, false)
    decreases |b|
  {
    if |b| >= 3 {
      TranslateAppend(Quad(Standard, b[0], b[1], b[2]), Encode(b[3..], Standard, false));
      TranslateEncode(b[3..]);
      var q := Quad(Standard, b[0], b[1], b[2]);
      assert Translate(q) == Quad(UrlSafe, b[0], b[1], b[2]) by {
        assert forall i :: 0 <= i < 4 ==> Translate(q)[i] == Quad(UrlSafe, b[0], b[1], b[2])[i];
      }
    } else {
      var e := Encode(b, Standard, false);
      assert forall i :: 0 <= i < |e| ==> Translate(e)[i] == Encode(b, UrlSafe, false)[i];
    }
  }

  /** Every character of the URL-safe encoding is a base64url character. */
  lemma {:induction false} EncodeUrlChars(b: seq<Byte>)
    ensures forall i :: 0 <= i < |Encode(b, UrlSafe, false)| ==> IsUrlChar(Encode(b, UrlSafe, false)[i])
    decreases |b|
  {
    if |b| >= 3 {
      EncodeUrlChars(b[3..]);
      var q, e := Quad(UrlSafe, b[0], b[1], b[2]), Encode(b[3..], UrlSafe, false);
      assert forall i :: 0 <= i < |q + e| ==> (q + e)[i] == if i < 4 then q[i] else e[i - 4];
    }
  }

  lemma {:induction false} StripPaddingOf(x: string, n: nat)
    requires |x| == 0 || x[|x| - 1] != '='
    requires n <= 2
    ensures StripPadding(x + Padding(n)) == x
  {
    if n % 3 == 1 {
      assert (x + "==")[..|x| + 1] == x + "=";
      assert (x + "=")[..|x|] == x;
      assert StripPadding(x + "==") == StripPadding(x + "=");
      assert StripPadding(x + "=") == StripPadding(x);
    } else if n % 3 == 2 {
      assert (x + "=")[..|x|] == x;
      assert StripPadding(x + "=") == StripPadding(x);
    } else {
      assert x + "" == x;
    }
  }

  /**
   * `base64UrlEncode` is base64url without padding (section 5 of RFC 4648,
   * Appendix A of RFC 7636): the URL-safe alphabet and no `=` at the end.
   */
  lemma Base64UrlIsUnpadded(b: seq<Byte>)
    ensures Base64UrlEncode(b) == Encode(b, UrlSafe, false)
  {
    var e, p := Encode(b, UrlSafe, false), Padding(|b|);
    assert Translate(Btoa(b)) == e + p by {
      EncodePadded(b, Standard);
      TranslateAppend(Encode(b, Standard, false), p);
      TranslateEncode(b);
      assert Translate(p) == p;
    }
    assert |e| == 0 || e[|e| - 1] != '=' by {
      EncodeUrlChars(b);
      if |e| > 0 {
        assert IsUrlChar(e[|e| - 1]);
      }
    }
    assert Padding(|b| % 3) == p;
    StripPaddingOf(e, |b| % 3);
  }

  // ---------------------------------------------------------------------------
  // What the output looks like
  // ---------------------------------------------------------------------------

  lemma {:induction false} EncodeLength(b: seq<Byte>)
    ensures |Encode(b, UrlSafe, false)| == (4 * |b| + 2) / 3
    decreases |b|
  {
    if |b| >= 3 {
      EncodeLength(b[3..]);
    }
  }

  /**
   * The output has only base64url characters, so no `=`, and its length is
   * ⌈4n/3⌉ for n bytes.
   */
  lemma Base64UrlShape(b: seq<Byte>)
    ensures var r := Base64UrlEncode(b);
            && (forall i :: 0 <= i < |r| ==> IsUrlChar(r[i]))
            && '=' !in r
            && 3 * |r| >= 4 * |b| && 3 * |r| < 4 * |b| + 3
  {
    Base64UrlIsUnpadded(b);
    EncodeUrlChars(b);
    EncodeLength(b);
    var r := Base64UrlEncode(b);
    assert forall i :: 0 <= i < |r| ==> r[i] != '=' by {
      assert forall i :: 0 <= i < |r| ==> IsUrlChar(r[i]);
    }
  }

  // ---------------------------------------------------------------------------
  // Decoding: the encoding loses nothing
  // ---------------------------------------------------------------------------

  /** The three bytes of four six-bit values. */
  function Bytes3(v0: nat, v1: nat, v2: nat, v3: nat): seq<Byte>
    requires v0 < 64 && v1 < 64 && v2 < 64 && v3 < 64
  {
    [v0 * 4 + v1 / 16, (v1 % 16) * 16 + v2 / 4, (v2 % 4) * 64 + v3]
  }

  /**
   * Unpadded base64url decoding: four characters per three bytes, a last
   * group of two or three characters for one or two bytes; `None` for a
   * character outside the alphabet or a last group of one.
   */
  function Decode(s: string): Option<seq<Byte>>
    decreases |s|
  {
    if |s| == 0 then Some([])
    else if |s| == 1 then None
    else
      var v0, v1 := UrlValue(s[0]), UrlValue(s[1]);
      if v0.None? || v1.None? then None
      else if |s| == 2 then Some([v0.value * 4 + v1.value / 16])
      else
        var v2 := UrlValue(s[2]);
        if v2.None? then None
        else if |s| == 3 then Some([v0.value * 4 + v1.value / 16, (v1.value % 16) * 16 + v2.value / 4])
        else
          var v3 := UrlValue(s[3]);
          var rest := Decode(s[4..]);
          if v3.None? || rest.None? then None
          else Some(Bytes3(v0.value, v1.value, v2.value, v3.value) + rest.value)
  }

  /** A value put in front of a smaller one by a constant factor comes back out by division and remainder. */
  lemma Pack16(a: nat, c: nat)
    requires c < 16
    ensures (a * 16 + c) / 16 == a && (a * 16 + c) % 16 == c
  {
  }

  lemma Pack4(a: nat, c: nat)
    requires c < 4
    ensures (a * 4 + c) / 4 == a && (a * 4 + c) % 4 == c
  {
  }

  lemma QuadDecodes(b0: Byte, b1: Byte, b2: Byte)
    ensures var q := Quad(UrlSafe, b0, b1, b2);
            && UrlValue(q[0]) == Some(b0 / 4) && UrlValue(q[1]) == Some((b0 % 4) * 16 + b1 / 16)
            && UrlValue(q[2]) == Some((b1 % 16) * 4 + b2 / 64) && UrlValue(q[3]) == Some(b2 % 64)
            && Bytes3(b0 / 4, (b0 % 4) * 16 + b1 / 16, (b1 % 16) * 4 + b2 / 64, b2 % 64) == [b0, b1, b2]
  {
    var v1, v2 := (b0 % 4) * 16 + b1 / 16, (b1 % 16) * 4 + b2 / 64;
    UrlDigitValue(b0 / 4);
    UrlDigitValue(v1);
    UrlDigitValue(v2);
    UrlDigitValue(b2 % 64);
    QuadBits(b0, b1, b2);
  }

  lemma QuadBits(b0: Byte, b1: Byte, b2: Byte)
    ensures Bytes3(b0 / 4, (b0 % 4) * 16 + b1 / 16, (b1 % 16) * 4 + b2 / 64, b2 % 64) == [b0, b1, b2]
  {
    var v1, v2 := (b0 % 4) * 16 + b1 / 16, (b1 % 16) * 4 + b2 / 64;
    Pack16(b0 % 4, b1 / 16);
    Pack4(b1 % 16, b2 / 64);
    assert (b0 / 4) * 4 + v1 / 16 == b0;
    assert (v1 % 16) * 16 + v2 / 4 == b1;
    assert (v2 % 4) * 64 + b2 % 64 == b2;
  }

  /** Decoding the URL-safe encoding gives the bytes back. */
  lemma {:induction false} DecodeEncode(b: seq<Byte>)
    ensures Decode(Encode(b, UrlSafe, false)) == Some(b)
    decreases |b|
  {
    if |b| == 1 {
      DecodeOne(b[0]);
      assert b == [b[0]];
    } else if |b| == 2 {
      DecodeTwo(b[0], b[1]);
      assert b == [b[0], b[1]];
    } else if |b| >= 3 {
      var q, e := Quad(UrlSafe, b[0], b[1], b[2]), Encode(b[3..], UrlSafe, false);
      DecodeEncode(b[3..]);
      DecodeQuad(b[0], b[1], b[2], e);
      assert [b[0], b[1], b[2]] + b[3..] == b;
    }
  }

  lemma DecodeOne(b0: Byte)
    ensures Decode(Encode([b0], UrlSafe, false)) == Some([b0])
  {
    var v0, v1 := b0 / 4, (b0 % 4) * 16;
    UrlDigitValue(v0);
    UrlDigitValue(v1);
    var s := [Digit(UrlSafe, v0), Digit(UrlSafe, v1)];
    assert Encode([b0], UrlSafe, false) == s;
    Pack16(b0 % 4, 0);
    assert v0 * 4 + v1 / 16 == b0;
  }

  lemma DecodeTwo(b0: Byte, b1: Byte)
    ensures Decode(Encode([b0, b1], UrlSafe, false)) == Some([b0, b1])
  {
    var v0, v1, v2 := b0 / 4, (b0 % 4) * 16 + b1 / 16, (b1 % 16) * 4;
    UrlDigitValue(v0);
    UrlDigitValue(v1);
    UrlDigitValue(v2);
    var s := [Digit(UrlSafe, v0), Digit(UrlSafe, v1), Digit(UrlSafe, v2)];
    assert Encode([b0, b1], UrlSafe, false) == s;
    Pack16(b0 % 4, b1 / 16);
    Pack4(b1 % 16, 0);
    assert v0 * 4 + v1 / 16 == b0;
    assert (v1 % 16) * 16 + v2 / 4 == b1;
  }

  lemma DecodeQuad(b0: Byte, b1: Byte, b2: Byte, e: string)
    requires Decode(e).Some?
    ensures Decode(Quad(UrlSafe, b0, b1, b2) + e) == Some([b0, b1, b2] + Decode(e).value)
  {
    var s := Quad(UrlSafe, b0, b1, b2) + e;
    QuadDecodes(b0, b1, b2);
    assert s[4..] == e;
    assert s[0] == Quad(UrlSafe, b0, b1, b2)[0] && s[1] == Quad(UrlSafe, b0, b1, b2)[1];
    assert s[2] == Quad(UrlSafe, b0, b1, b2)[2] && s[3] == Quad(UrlSafe, b0, b1, b2)[3];
  }

  /** Distinct byte strings never share an encoding. */
  lemma Base64UrlInjective(a: seq<Byte>, b: seq<Byte>)
    ensures Base64UrlEncode(a) == Base64UrlEncode(b) <==> a == b
  {
    Base64UrlIsUnpadded(a);
    Base64UrlIsUnpadded(b);
    DecodeEncode(a);
    DecodeEncode(b);
  }

  // ---------------------------------------------------------------------------
  // Verifier, state and challenge
  // ---------------------------------------------------------------------------

  /** `generateCodeVerifier`: 32 random bytes, base64url-encoded. */
  function GenerateCodeVerifier(random: seq<Byte>): (v: string)
    requires |random| == 32
    ensures |v| == 43 && 43 <= |v| <= 128
    ensures forall i :: 0 <= i < |v| ==> IsUrlChar(v[i])
  {
    Base64UrlShape(random);
    Base64UrlEncode(random)
  }

  /** `generateState`: 16 random bytes, base64url-encoded. */
  function GenerateState(random: seq<Byte>): (s: string)
    requires |random| == 16
    ensures |s| == 22
    ensures forall i :: 0 <= i < |s| ==> IsUrlChar(s[i])
  {
    Base64UrlShape(random);
    Base64UrlEncode(random)
  }

  /**
   * `generateCodeChallenge`: the SHA-256 digest of the verifier's UTF-8
   * bytes, base64url-encoded. `digest` stands for the encoding and the hash.
   */
  function GenerateCodeChallenge(verifier: string, digest: string -> seq<Byte>): (c: string)
    ensures |digest(verifier)| == 32 ==> |c| == 43
    ensures forall i :: 0 <= i < |c| ==> IsUrlChar(c[i])
  {
    Base64UrlShape(digest(verifier));
    Base64UrlEncode(digest(verifier))
  }

  /** Two verifiers get the same challenge exactly when their digests agree. */
  lemma ChallengeFollowsDigest(v1: string, v2: string, digest: string -> seq<Byte>)
    ensures GenerateCodeChallenge(v1, digest) == GenerateCodeChallenge(v2, digest) <==> digest(v1) == digest(v2)
  {
    Base64UrlInjective(digest(v1), digest(v2));
  }

  /** Different random bytes give different verifiers and states. */
  lemma DistinctRandomDistinctValues(r1: seq<Byte>, r2: seq<Byte>)
    requires |r1| == |r2| && r1 != r2
    ensures |r1| == 32 ==> GenerateCodeVerifier(r1) != GenerateCodeVerifier(r2)
    ensures |r1| == 16 ==> GenerateState(r1) != GenerateState(r2)
  {
    Base64UrlInjective(r1, r2);
  }
}
