/**
 * The OAuth cookies (src/features/auth/utils/cookies.ts): the base domain
 * they are shared under, the strings `setCookie` and `deleteCookie` write,
 * how `getCookie` reads `document.cookie`, and the store/retrieve pairs of
 * the sign-in flow.
 *
 * The browser's cookie jar is modelled as a list of (encoded name, encoded
 * value) pairs in the order `document.cookie` lists them; a write with a
 * positive `max-age` sets a pair and one with `max-age=0` removes it. Paths,
 * domains and expiry in time are not modelled. `encodeURIComponent` and
 * `decodeURIComponent` are parameters: an encoding that `decode` undoes and
 * whose output holds no `;`, no `=` and no whitespace.
 */
module Cookies {
  import opened Wrappers
  import opened Strings

  const CodeVerifierKey: string := "oauth_code_verifier"
  const StateKey: string := "oauth_state"
  const ReturnOriginKey: string := "oauth_return_origin"
  const TokenTransferKey: string := "oauth_token_transfer"

  /** A text that passes through a cookie header untouched. */
  predicate Clean(s: string) {
    forall k :: 0 <= k < |s| ==> s[k] != ';' && s[k] != '=' && !IsJsWhitespace(s[k])
  }

  /**
   * What the model asks of `encodeURIComponent` and `decodeURIComponent`:
   * the encoding is clean, never shorter than its input, and decoded back.
   */
  ghost predicate EncoderOk(enc: string -> string, dec: string -> string) {
    forall s :: Clean(enc(s)) && |enc(s)| >= |s| && dec(enc(s)) == s
  }

  // ---------------------------------------------------------------------------
  // The base domain
  // ---------------------------------------------------------------------------

  /**
   * `getBaseDomain`: nothing without a window (`None` hostname) and for the
   * two local hosts; otherwise `.` and the last two labels, when there are
   * two.
   */
  function GetBaseDomain(hostname: Option<string>): (r: Option<string>)
    ensures r.Some? <==>
              hostname.Some? && hostname.value != "localhost" && hostname.value != "127.0.0.1" && '.' in hostname.value
  {
    match hostname
    case None => None
    case Some(h) =>
      if h == "localhost" || h == "127.0.0.1" then None
      else
        var parts := Split(h, '.');
        SplitCount(h, '.');
        if |parts| >= 2 then Some("." + parts[|parts| - 2] + "." + parts[|parts| - 1]) else None
  }

  lemma {:induction false} JoinLastTwo(parts: seq<string>, sep: char)
    requires |parts| >= 2
    ensures var n := |parts|;
            EndsWith([sep] + Join(parts, sep), [sep] + parts[n - 2] + [sep] + parts[n - 1])
  {
    var n := |parts|;
    var last2 := [sep] + parts[n - 2] + [sep] + parts[n - 1];
    if n == 2 {
      assert parts[1..] == [parts[1]];
      assert [sep] + Join(parts, sep) == last2;
    } else {
      var init := parts[..n - 1];
      assert init + [parts[n - 1]] == parts;
      JoinSnoc(init, parts[n - 1], sep);
      assert parts[..n - 2] + [parts[n - 2]] == init;
      JoinSnoc(parts[..n - 2], parts[n - 2], sep);
      var whole := [sep] + Join(parts, sep);
      assert whole == [sep] + Join(parts[..n - 2], sep) + last2;
    }
  }

  /**
   * The base domain is the hostname's last two labels behind a `.`: two
   * dot-free labels, and a tail of the hostname with a `.` in front, so the
   * host domain-matches it.
   */
  lemma BaseDomainCoversHost(hostname: string)
    requires GetBaseDomain(Some(hostname)).Some?
    ensures EndsWith("." + hostname, GetBaseDomain(Some(hostname)).value)
    ensures exists a, b :: '.' !in a && '.' !in b && GetBaseDomain(Some(hostname)).value == "." + a + "." + b
  {
    var parts := Split(hostname, '.');
    SplitCount(hostname, '.');
    JoinLastTwo(parts, '.');
    var n := |parts|;
    assert '.' !in parts[n - 2] && '.' !in parts[n - 1];
  }

  /** A base domain holds only characters of the hostname besides its dots. */
  lemma BaseDomainChars(hostname: string, c: char)
    requires GetBaseDomain(Some(hostname)).Some? && c != '.' && c !in hostname
    ensures c !in GetBaseDomain(Some(hostname)).value
  {
    var d := GetBaseDomain(Some(hostname)).value;
    var h := "." + hostname;
    BaseDomainCoversHost(hostname);
    assert forall k :: 0 <= k < |d| ==> d[k] == h[|h| - |d| + k];
  }

  // ---------------------------------------------------------------------------
  // The strings written to `document.cookie`
  // ---------------------------------------------------------------------------

  datatype SameSite = Strict | Lax | NoRestriction

  function SameSiteName(s: SameSite): string {
    match s
    case Strict => "Strict"
    case Lax => "Lax"
    case NoRestriction => "None"
  }

  /** The options of `setCookie`; `None` is a property left out, which takes its default. */
  datatype CookieOptions = CookieOptions(
    maxAge: Option<nat>,
    path: Option<string>,
    secure: Option<bool>,
    sameSite: Option<SameSite>,
    domain: Option<string>)

  const NoOptions: CookieOptions := CookieOptions(None, None, None, None, None)

  /** Where the page runs: its hostname and whether its protocol is `https:`. */
  datatype Location = Location(hostname: string, https: bool)

  /** The domain `setCookie` writes: the option when given, else the base domain; an empty one is dropped. */
  function CookieDomain(opts: CookieOptions, loc: Location): (d: Option<string>)
    ensures d.Some? ==> d.value != ""
    ensures opts.domain.Some? && opts.domain.value != "" ==> d == opts.domain
    ensures opts.domain.None? ==> d == GetBaseDomain(Some(loc.hostname))
  {
    var domain := if opts.domain.Some? then opts.domain else GetBaseDomain(Some(loc.hostname));
    if domain.Some? && domain.value != "" then domain else None
  }

  /**
   * The `;`-separated fields of the string `setCookie` writes: the pair,
   * `path`, `max-age`, `samesite`, then `secure` and `domain` when they apply.
   */
  function CookieFields(name: string, value: string, opts: CookieOptions, loc: Location,
                        enc: string -> string): (f: seq<string>)
    ensures |f| >= 4 && f[0] == enc(name) + "=" + enc(value)
    ensures f[1] == " path=" + opts.path.GetOr("/")
    ensures f[2] == " max-age=" + NatToDecimal(opts.maxAge.GetOr(600))
    ensures f[3] == " samesite=" + SameSiteName(opts.sameSite.GetOr(Lax))
    ensures |f| == 4 + (if opts.secure.GetOr(loc.https) then 1 else 0) + (if CookieDomain(opts, loc).Some? then 1 else 0)
    ensures opts.secure.GetOr(loc.https) ==> f[4] == " secure"
    ensures CookieDomain(opts, loc).Some? ==> f[|f| - 1] == " domain=" + CookieDomain(opts, loc).value
  {
    BaseFields(name, value, opts, enc) + SecureField(opts, loc) + DomainField(opts, loc)
  }

  /** The four fields every cookie string has. */
  function BaseFields(name: string, value: string, opts: CookieOptions, enc: string -> string): seq<string> {
    [enc(name) + "=" + enc(value),
     " path=" + opts.path.GetOr("/"),
     " max-age=" + NatToDecimal(opts.maxAge.GetOr(600)),
     " samesite=" + SameSiteName(opts.sameSite.GetOr(Lax))]
  }

  function SecureField(opts: CookieOptions, loc: Location): seq<string> {
    if opts.secure.GetOr(loc.https) then [" secure"] else []
  }

  function DomainField(opts: CookieOptions, loc: Location): seq<string> {
    var domain := CookieDomain(opts, loc);
    if domain.Some? then [" domain=" + domain.value] else []
  }

  /** `setCookie`'s string: the fields joined by `;`, as the code appends them. */
  function SetCookie(name: string, value: string, opts: CookieOptions, loc: Location,
                     enc: string -> string): string {
    Join(CookieFields(name, value, opts, loc, enc), ';')
  }

  /** None of the pieces holds `;`. */
  predicate NoSemicolon(ps: seq<string>) {
    forall i :: 0 <= i < |ps| ==> ';' !in ps[i]
  }

  lemma NoSemicolonAppend(xs: seq<string>, ys: seq<string>)
    requires NoSemicolon(xs) && NoSemicolon(ys)
    ensures NoSemicolon(xs + ys)
  {
    assert forall i :: 0 <= i < |xs + ys| ==> (xs + ys)[i] == if i < |xs| then xs[i] else ys[i - |xs|];
  }

  lemma NoSeparatorInDecimal(n: nat)
    ensures ';' !in NatToDecimal(n)
  {
    var d := NatToDecimal(n);
    assert forall k :: 0 <= k < |d| ==> d[k] != ';';
  }

  lemma BaseFieldsNoSemicolon(name: string, value: string, opts: CookieOptions, enc: string -> string)
    requires ';' !in enc(name) && ';' !in enc(value) && ';' !in opts.path.GetOr("/")
    ensures NoSemicolon(BaseFields(name, value, opts, enc))
  {
    var base := BaseFields(name, value, opts, enc);
    NoSeparatorInDecimal(opts.maxAge.GetOr(600));
    assert ';' !in SameSiteName(opts.sameSite.GetOr(Lax));
    assert ';' !in base[0] && ';' !in base[1] && ';' !in base[2] && ';' !in base[3];
  }

  lemma DomainFieldNoSemicolon(opts: CookieOptions, loc: Location)
    requires ';' !in loc.hostname
    requires opts.domain.Some? ==> ';' !in opts.domain.value
    ensures NoSemicolon(DomainField(opts, loc))
  {
    var domain := CookieDomain(opts, loc);
    if domain.Some? && opts.domain.None? {
      BaseDomainChars(loc.hostname, ';');
    }
  }

  lemma FieldsNoSemicolon(name: string, value: string, opts: CookieOptions, loc: Location,
                          enc: string -> string)
    requires ';' !in enc(name) && ';' !in enc(value)
    requires ';' !in opts.path.GetOr("/") && ';' !in loc.hostname
    requires opts.domain.Some? ==> ';' !in opts.domain.value
    ensures NoSemicolon(CookieFields(name, value, opts, loc, enc))
  {
    var base := BaseFields(name, value, opts, enc);
    BaseFieldsNoSemicolon(name, value, opts, enc);
    DomainFieldNoSemicolon(opts, loc);
    NoSemicolonAppend(base, SecureField(opts, loc));
    NoSemicolonAppend(base + SecureField(opts, loc), DomainField(opts, loc));
  }

  /**
   * With a path, a hostname and a domain free of `;` the written string
   * reads back as its fields, so each attribute appears exactly when its
   * condition holds.
   */
  lemma SetCookieReadsBack(name: string, value: string, opts: CookieOptions, loc: Location,
                           enc: string -> string, dec: string -> string)
    requires EncoderOk(enc, dec)
    requires ';' !in opts.path.GetOr("/") && ';' !in loc.hostname
    requires opts.domain.Some? ==> ';' !in opts.domain.value
    ensures Split(SetCookie(name, value, opts, loc, enc), ';') == CookieFields(name, value, opts, loc, enc)
  {
    assert Clean(enc(name)) && Clean(enc(value));
    assert ';' !in enc(name) && ';' !in enc(value);
    FieldsNoSemicolon(name, value, opts, loc, enc);
    SplitJoin(CookieFields(name, value, opts, loc, enc), ';');
  }

  /** With no options the string carries the defaults: path `/`, ten minutes, `Lax`. */
  lemma SetCookieDefaults(name: string, value: string, loc: Location, enc: string -> string)
    ensures var f := CookieFields(name, value, NoOptions, loc, enc);
            f[1] == " path=/" && f[2] == " max-age=600" && f[3] == " samesite=Lax"
            && (loc.https <==> |f| >= 5 && f[4] == " secure")
  {
    assert NatToDecimal(600) == "600" by {
      assert NatToDecimal(60) == "60" by { assert NatToDecimal(6) == "6"; }
    }
  }

  /**
   * `deleteCookie`'s two writes, both expiring at once: the first with the
   * domain (the given one, else the base domain) when there is one, the
   * second always without.
   */
  function DeleteCookieWrites(name: string, domain: Option<string>, hostname: Option<string>,
                              enc: string -> string): (w: seq<string>)
    ensures |w| == 2 && w[1] == enc(name) + "=; path=/; max-age=0"
    ensures var d := if domain.Some? then domain else GetBaseDomain(hostname);
            w[0] == w[1] + (if d.Some? && d.value != "" then "; domain=" + d.value else "")
  {
    var plain := enc(name) + "=; path=/; max-age=0";
    var d := if domain.Some? then domain else GetBaseDomain(hostname);
    [plain + (if d.Some? && d.value != "" then "; domain=" + d.value else ""), plain]
  }

  // ---------------------------------------------------------------------------
  // Reading `document.cookie`
  // ---------------------------------------------------------------------------

  /** The value part of `cookie.trim().split('=')`: the second piece, or `''` when there is none. */
  function ValuePart(kv: seq<string>): string {
    if |kv| >= 2 then kv[1] else ""
  }

  /** The loop of `getCookie` from piece `i` on. */
  function FirstCookie(pieces: seq<string>, encName: string, dec: string -> string, i: nat): Option<string>
    requires i <= |pieces|
    decreases |pieces| - i
  {
    if i == |pieces| then None
    else
      var kv := Split(Trim(pieces[i]), '=');
      if kv[0] == encName then Some(dec(ValuePart(kv))) else FirstCookie(pieces, encName, dec, i + 1)
  }

  /** `getCookie`: `None` for the header when there is no document. */
  function GetCookie(header: Option<string>, name: string, enc: string -> string, dec: string -> string): Option<string> {
    match header
    case None => None
    case Some(h) => FirstCookie(Split(h, ';'), enc(name), dec, 0)
  }

  // ---------------------------------------------------------------------------
  // The jar
  // ---------------------------------------------------------------------------

  type Jar = seq<(string, string)>

  predicate JarOk(jar: Jar) {
    forall i :: 0 <= i < |jar| ==> Clean(jar[i].0) && Clean(jar[i].1)
  }

  /** The piece `document.cookie` shows for the `i`-th pair: `name=value`, after a space unless first. */
  function Piece(jar: Jar, i: nat): string
    requires i < |jar|
  {
    if i == 0 then Pair(jar[i].0, jar[i].1) else " " + Pair(jar[i].0, jar[i].1)
  }

  function Pair(n: string, v: string): string {
    n + "=" + v
  }

  function Pieces(jar: Jar): (ps: seq<string>)
    ensures |ps| == |jar|
  {
    seq(|jar|, i requires 0 <= i < |jar| => Piece(jar, i))
  }

  /** `document.cookie`: `a=1; b=2`. */
  function Header(jar: Jar): string {
    Join(Pieces(jar), ';')
  }

  /** The value stored under an encoded name, the first when there are several. */
  function Lookup(jar: Jar, n: string): Option<string> {
    if |jar| == 0 then None
    else if jar[0].0 == n then Some(jar[0].1)
    else Lookup(jar[1..], n)
  }

  /** A write with a positive `max-age`: the pair's value replaced, or the pair added at the end. */
  function Put(jar: Jar, n: string, v: string): Jar {
    if |jar| == 0 then [(n, v)]
    else if jar[0].0 == n then [(n, v)] + jar[1..]
    else [jar[0]] + Put(jar[1..], n, v)
  }

  /** A write with `max-age=0`: the name's pairs gone. */
  function Remove(jar: Jar, n: string): Jar {
    if |jar| == 0 then []
    else if jar[0].0 == n then Remove(jar[1..], n)
    else [jar[0]] + Remove(jar[1..], n)
  }

  lemma {:induction false} PutLookup(jar: Jar, n: string, v: string, m: string)
    ensures Lookup(Put(jar, n, v), m) == if m == n then Some(v) else Lookup(jar, m)
    decreases |jar|
  {
    if |jar| > 0 && jar[0].0 != n {
      PutLookup(jar[1..], n, v, m);
      assert ([jar[0]] + Put(jar[1..], n, v))[1..] == Put(jar[1..], n, v);
    } else if |jar| > 0 {
      assert ([(n, v)] + jar[1..])[1..] == jar[1..];
    }
  }

  lemma {:induction false} RemoveLookup(jar: Jar, n: string, m: string)
    ensures Lookup(Remove(jar, n), m) == if m == n then None else Lookup(jar, m)
    decreases |jar|
  {
    if |jar| > 0 {
      RemoveLookup(jar[1..], n, m);
      if jar[0].0 != n {
        assert ([jar[0]] + Remove(jar[1..], n))[1..] == Remove(jar[1..], n);
      }
    }
  }

  lemma {:induction false} PutOk(jar: Jar, n: string, v: string)
    requires JarOk(jar) && Clean(n) && Clean(v)
    ensures JarOk(Put(jar, n, v))
    decreases |jar|
  {
    if |jar| > 0 && jar[0].0 != n {
      PutOk(jar[1..], n, v);
    }
  }

  lemma {:induction false} RemoveOk(jar: Jar, n: string)
    requires JarOk(jar)
    ensures JarOk(Remove(jar, n))
    decreases |jar|
  {
    if |jar| > 0 {
      RemoveOk(jar[1..], n);
    }
  }

  /** The value as `getCookie` returns it: decoded. */
  function Decoded(v: Option<string>, dec: string -> string): Option<string> {
    match v
    case Some(x) => Some(dec(x))
    case None => None
  }

  lemma PairSplits(n: string, v: string)
    requires Clean(n) && Clean(v)
    ensures Split(Pair(n, v), '=') == [n, v]
  {
    assert [n, v][1..] == [v];
    assert Join([n, v], '=') == Pair(n, v);
    assert '=' !in n && '=' !in v;
    SplitJoin([n, v], '=');
  }

  /** `name=value` of clean texts neither starts nor ends with whitespace. */
  lemma PairEdges(n: string, v: string)
    requires Clean(n) && Clean(v)
    ensures var p := Pair(n, v); !IsJsWhitespace(p[0]) && !IsJsWhitespace(p[|p| - 1])
  {
    var p := Pair(n, v);
    if |n| > 0 { assert p[0] == n[0]; } else { assert p[0] == '='; }
    if |v| > 0 { assert p[|p| - 1] == v[|v| - 1]; } else { assert p[|p| - 1] == '='; }
  }

  /** `getCookie` reads the `i`-th piece of the listing, trimmed, as the `i`-th pair. */
  lemma PieceReads(jar: Jar, i: nat)
    requires JarOk(jar) && i < |jar|
    ensures Split(Trim(Pieces(jar)[i]), '=') == [jar[i].0, jar[i].1]
  {
    var n, v := jar[i].0, jar[i].1;
    assert Clean(n) && Clean(v);
    var p := Pair(n, v);
    assert Trim(Piece(jar, i)) == p by {
      PairEdges(n, v);
      if i == 0 {
        assert Piece(jar, i) == p;
        TrimNoEdgeWhitespace(p);
      } else {
        TrimLeadingSpace(p);
      }
    }
    PairSplits(n, v);
  }

  lemma {:induction false} FirstCookieFrom(jar: Jar, encName: string, dec: string -> string, i: nat)
    requires JarOk(jar) && i <= |jar|
    ensures FirstCookie(Pieces(jar), encName, dec, i) == Decoded(Lookup(jar[i..], encName), dec)
    decreases |jar| - i
  {
    if i < |jar| {
      var n, v := jar[i].0, jar[i].1;
      assert Split(Trim(Pieces(jar)[i]), '=') == [n, v] by {
        PieceReads(jar, i);
      }
      assert ValuePart([n, v]) == v;
      FirstCookieFrom(jar, encName, dec, i + 1);
      assert Lookup(jar[i..], encName) == if n == encName then Some(v) else Lookup(jar[i + 1..], encName) by {
        assert jar[i..][1..] == jar[i + 1..];
      }
    }
  }

  /**
   * Reading a cookie gives the decoded value stored under its encoded name,
   * and nothing when there is none: `getCookie` undoes the jar's listing.
   */
  lemma GetCookieReadsJar(jar: Jar, name: string, enc: string -> string, dec: string -> string)
    requires JarOk(jar) && enc(name) != ""
    ensures GetCookie(Some(Header(jar)), name, enc, dec) == Decoded(Lookup(jar, enc(name)), dec)
  {
    var ps := Pieces(jar);
    if |jar| == 0 {
      assert Header(jar) == "";
      assert Split("", ';') == [""];
      assert Trim("") == "";
      assert Split("", '=') == [""];
      assert FirstCookie([""], enc(name), dec, 0) == FirstCookie([""], enc(name), dec, 1);
    } else {
      forall i | 0 <= i < |ps| ensures ';' !in ps[i] {
        assert Clean(jar[i].0) && Clean(jar[i].1);
        assert ps[i] == Piece(jar, i);
      }
      SplitJoin(ps, ';');
      FirstCookieFrom(jar, enc(name), dec, 0);
      assert jar[0..] == jar;
    }
  }

  // ---------------------------------------------------------------------------
  // Writing and taking the sign-in cookies
  // ---------------------------------------------------------------------------

  /** The effect of `setCookie(name, value, { maxAge })` on the jar. */
  function SetIn(jar: Jar, name: string, value: string, maxAge: nat, enc: string -> string): Jar {
    if maxAge == 0 then Remove(jar, enc(name)) else Put(jar, enc(name), enc(value))
  }

  /** The effect of `deleteCookie`: both of its writes expire the name. */
  function DeleteIn(jar: Jar, name: string, enc: string -> string): (r: Jar)
    ensures Lookup(r, enc(name)).None?
  {
    RemoveLookup(jar, enc(name), enc(name));
    RemoveLookup(Remove(jar, enc(name)), enc(name), enc(name));
    Remove(Remove(jar, enc(name)), enc(name))
  }

  lemma DeleteInLookup(jar: Jar, name: string, enc: string -> string, m: string)
    ensures Lookup(DeleteIn(jar, name, enc), m) == if m == enc(name) then None else Lookup(jar, m)
  {
    RemoveLookup(jar, enc(name), m);
    RemoveLookup(Remove(jar, enc(name)), enc(name), m);
  }

  /** `storeOAuthStateCookie`: the verifier and the state, ten minutes each. */
  function StoreOAuthState(jar: Jar, codeVerifier: string, state: string, enc: string -> string): Jar {
    SetIn(SetIn(jar, CodeVerifierKey, codeVerifier, 600, enc), StateKey, state, 600, enc)
  }

  /** A present, non-empty cookie value: JavaScript's truthiness of `getCookie`'s result. */
  predicate Truthy(v: Option<string>) {
    v.Some? && v.value != ""
  }

  /**
   * `retrieveOAuthStateCookie`: both values and a jar without them when both
   * are present and non-empty; otherwise nothing, and the jar as it was.
   */
  function RetrieveOAuthState(jar: Jar, enc: string -> string, dec: string -> string): (r: (Option<(string, string)>, Jar))
    ensures r.0.Some? <==> Truthy(GetCookie(Some(Header(jar)), CodeVerifierKey, enc, dec))
                           && Truthy(GetCookie(Some(Header(jar)), StateKey, enc, dec))
    ensures r.0.Some? ==> r.0.value == (GetCookie(Some(Header(jar)), CodeVerifierKey, enc, dec).value,
                                        GetCookie(Some(Header(jar)), StateKey, enc, dec).value)
    ensures r.0.None? ==> r.1 == jar
    ensures r.0.Some? ==> Lookup(r.1, enc(CodeVerifierKey)).None? && Lookup(r.1, enc(StateKey)).None?
  {
    var verifier := GetCookie(Some(Header(jar)), CodeVerifierKey, enc, dec);
    var state := GetCookie(Some(Header(jar)), StateKey, enc, dec);
    if !Truthy(verifier) || !Truthy(state) then (None, jar)
    else
      var afterVerifier := DeleteIn(jar, CodeVerifierKey, enc);
      DeleteInLookup(afterVerifier, StateKey, enc, enc(CodeVerifierKey));
      (Some((verifier.value, state.value)), DeleteIn(afterVerifier, StateKey, enc))
  }

  /**
   * Take-once: what was stored is handed back exactly once. Storing a
   * non-empty verifier and state and retrieving gives them back; retrieving
   * again gives nothing.
   */
  lemma OAuthStateTakenOnce(jar: Jar, codeVerifier: string, state: string, enc: string -> string, dec: string -> string)
    requires JarOk(jar) && EncoderOk(enc, dec)
    requires codeVerifier != "" && state != ""
    ensures var first := RetrieveOAuthState(StoreOAuthState(jar, codeVerifier, state, enc), enc, dec);
            first.0 == Some((codeVerifier, state)) && RetrieveOAuthState(first.1, enc, dec).0.None?
  {
    var v, s := enc(CodeVerifierKey), enc(StateKey);
    assert Clean(enc(codeVerifier)) && Clean(enc(state)) && Clean(v) && Clean(s);
    assert dec(enc(codeVerifier)) == codeVerifier && dec(enc(state)) == state;
    var j1 := Put(jar, v, enc(codeVerifier));
    var stored := Put(j1, s, enc(state));
    PutOk(jar, v, enc(codeVerifier));
    PutOk(j1, s, enc(state));
    assert Lookup(stored, v) == Some(enc(codeVerifier)) by {
      PutLookup(j1, s, enc(state), v);
      PutLookup(jar, v, enc(codeVerifier), v);
    }
    assert Lookup(stored, s) == Some(enc(state)) by {
      PutLookup(j1, s, enc(state), s);
    }
    KeyEncodings(enc, dec);
    GetCookieReadsJar(stored, CodeVerifierKey, enc, dec);
    GetCookieReadsJar(stored, StateKey, enc, dec);
    var first := RetrieveOAuthState(stored, enc, dec);
    assert first.0 == Some((codeVerifier, state));
    var rest := first.1;
    assert JarOk(rest) by {
      RemoveOk(stored, v);
      RemoveOk(Remove(stored, v), v);
      RemoveOk(DeleteIn(stored, CodeVerifierKey, enc), s);
      RemoveOk(Remove(DeleteIn(stored, CodeVerifierKey, enc), s), s);
    }
    GetCookieReadsJar(rest, CodeVerifierKey, enc, dec);
  }

  /** The encoded key names are not empty, and the two sign-in keys stay apart. */
  lemma KeyEncodings(enc: string -> string, dec: string -> string)
    requires EncoderOk(enc, dec)
    ensures enc(CodeVerifierKey) != "" && enc(StateKey) != ""
    ensures enc(ReturnOriginKey) != "" && enc(TokenTransferKey) != ""
    ensures enc(CodeVerifierKey) != enc(StateKey)
  {
    assert |enc(CodeVerifierKey)| >= |CodeVerifierKey| && |enc(StateKey)| >= |StateKey|;
    assert |enc(ReturnOriginKey)| >= |ReturnOriginKey| && |enc(TokenTransferKey)| >= |TokenTransferKey|;
    assert dec(enc(CodeVerifierKey)) == CodeVerifierKey && dec(enc(StateKey)) == StateKey;
    assert CodeVerifierKey[6] != StateKey[6];
  }

  /** `storeReturnOrigin`: ten minutes. */
  function StoreReturnOrigin(jar: Jar, origin: string, enc: string -> string): Jar {
    SetIn(jar, ReturnOriginKey, origin, 600, enc)
  }

  /**
   * `retrieveReturnOrigin`: whatever `getCookie` reads, with the cookie
   * deleted when the value is non-empty. An empty value is returned and kept.
   */
  function RetrieveReturnOrigin(jar: Jar, enc: string -> string, dec: string -> string): (r: (Option<string>, Jar))
    ensures r.0 == GetCookie(Some(Header(jar)), ReturnOriginKey, enc, dec)
    ensures Truthy(r.0) ==> Lookup(r.1, enc(ReturnOriginKey)).None?
    ensures !Truthy(r.0) ==> r.1 == jar
  {
    var origin := GetCookie(Some(Header(jar)), ReturnOriginKey, enc, dec);
    if Truthy(origin) then (origin, DeleteIn(jar, ReturnOriginKey, enc)) else (origin, jar)
  }

  lemma ReturnOriginTakenOnce(jar: Jar, origin: string, enc: string -> string, dec: string -> string)
    requires JarOk(jar) && EncoderOk(enc, dec) && origin != ""
    ensures var first := RetrieveReturnOrigin(StoreReturnOrigin(jar, origin, enc), enc, dec);
            first.0 == Some(origin) && RetrieveReturnOrigin(first.1, enc, dec).0.None?
  {
    var k := enc(ReturnOriginKey);
    assert Clean(enc(origin)) && Clean(k) && dec(enc(origin)) == origin;
    var stored := Put(jar, k, enc(origin));
    PutOk(jar, k, enc(origin));
    PutLookup(jar, k, enc(origin), k);
    KeyEncodings(enc, dec);
    GetCookieReadsJar(stored, ReturnOriginKey, enc, dec);
    var rest := DeleteIn(stored, ReturnOriginKey, enc);
    RemoveOk(stored, k);
    RemoveOk(Remove(stored, k), k);
    GetCookieReadsJar(rest, ReturnOriginKey, enc, dec);
  }

  /** `TokenTransferData`. */
  datatype TokenTransferData = TokenTransferData(accessToken: string, refreshToken: Option<string>, expiresAt: Option<int>)

  /**
   * `storeTokenTransfer`: the serialised record under its key for one
   * minute. `serialize` stands for `btoa(JSON.stringify(data))`.
   */
  function StoreTokenTransfer(jar: Jar, data: TokenTransferData, serialize: TokenTransferData -> string,
                              enc: string -> string): Jar {
    SetIn(jar, TokenTransferKey, serialize(data), 60, enc)
  }

  /** The cookie string `storeTokenTransfer` writes expires after 60 seconds. */
  lemma TokenTransferLifetime(data: TokenTransferData, serialize: TokenTransferData -> string,
                              loc: Location, enc: string -> string)
    ensures CookieFields(TokenTransferKey, serialize(data), NoOptions.(maxAge := Some(60)), loc, enc)[2] == " max-age=60"
  {
    assert NatToDecimal(60) == "60" by { assert NatToDecimal(6) == "6"; }
  }

  /**
   * `retrieveTokenTransfer`: nothing, and no change, without a non-empty
   * value; otherwise the cookie is deleted first and the value is parsed,
   * so an unparseable value is dropped too. `parse` stands for
   * `JSON.parse(atob(…))`, `None` for the `catch`.
   */
  function RetrieveTokenTransfer(jar: Jar, parse: string -> Option<TokenTransferData>,
                                 enc: string -> string, dec: string -> string): (r: (Option<TokenTransferData>, Jar))
    ensures !Truthy(GetCookie(Some(Header(jar)), TokenTransferKey, enc, dec)) ==> r == (None, jar)
    ensures Truthy(GetCookie(Some(Header(jar)), TokenTransferKey, enc, dec)) ==>
              r.0 == parse(GetCookie(Some(Header(jar)), TokenTransferKey, enc, dec).value)
              && Lookup(r.1, enc(TokenTransferKey)).None?
  {
    var encoded := GetCookie(Some(Header(jar)), TokenTransferKey, enc, dec);
    if !Truthy(encoded) then (None, jar)
    else (parse(encoded.value), DeleteIn(jar, TokenTransferKey, enc))
  }

  lemma TokenTransferTakenOnce(jar: Jar, data: TokenTransferData, serialize: TokenTransferData -> string,
                               parse: string -> Option<TokenTransferData>, enc: string -> string, dec: string -> string)
    requires JarOk(jar) && EncoderOk(enc, dec)
    requires serialize(data) != "" && parse(serialize(data)) == Some(data)
    ensures var first := RetrieveTokenTransfer(StoreTokenTransfer(jar, data, serialize, enc), parse, enc, dec);
            first.0 == Some(data) && RetrieveTokenTransfer(first.1, parse, enc, dec).0.None?
  {
    var k, e := enc(TokenTransferKey), enc(serialize(data));
    assert Clean(e) && Clean(k) && dec(e) == serialize(data);
    var stored := Put(jar, k, e);
    PutOk(jar, k, e);
    PutLookup(jar, k, e, k);
    KeyEncodings(enc, dec);
    GetCookieReadsJar(stored, TokenTransferKey, enc, dec);
    var rest := DeleteIn(stored, TokenTransferKey, enc);
    RemoveOk(stored, k);
    RemoveOk(Remove(stored, k), k);
    GetCookieReadsJar(rest, TokenTransferKey, enc, dec);
  }
}
