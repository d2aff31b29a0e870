/**
 * The OAuth callback page (src/app/auth/callback/page.tsx): the checks
 * `processCallback` makes on the query parameters and the stored sign-in
 * state, the choice between the cross-origin and the same-origin flow, and
 * what each flow does with its reply. The token endpoint's reply and the
 * outcome of the store's `handleOAuthCallback` are oracles passed in, and so
 * is the clock (`now`, in milliseconds).
 */
module OAuthCallback {
  import opened Wrappers
  import opened Cookies

  /** `oauthConfig.defaultTokenExpirySeconds`: eight hours. */
  const DefaultTokenExpirySeconds: nat := 8 * 60 * 60

  const MissingParamsMessage: string := "Missing authorization code or state parameter"
  const ExpiredMessage: string := "OAuth session expired. Please try logging in again."
  const CsrfMessage: string := "Invalid state parameter. This may be a CSRF attack."
  const NoTokenMessage: string := "No access token received"
  const SignInFailedMessage: string := "Failed to complete authentication"
  const UnexpectedMessage: string := "An unexpected error occurred during authentication"

  /** The path the cross-origin flow sends the browser to on the return origin. */
  const LandingPath: string := "/auth/landing"

  /** `searchParams.get(...)` for the four parameters the page reads; `None` for `null`. */
  datatype QueryParams = QueryParams(
    code: Option<string>,
    state: Option<string>,
    error: Option<string>,
    errorDescription: Option<string>)

  /** `TokenResponse`: every field optional. */
  datatype TokenResponse = TokenResponse(
    accessToken: Option<string>,
    refreshToken: Option<string>,
    expiresIn: Option<int>,
    error: Option<string>,
    errorDescription: Option<string>)

  /** The token request: `fetch` or `response.json()` threw, or the body was read. */
  datatype ExchangeReply = ExchangeThrew | Responded(data: TokenResponse)

  /** `handleOAuthCallback(code, verifier)`: it threw, or it finished with a success flag. */
  datatype SignInReply = SignInThrew | SignInFinished(success: bool)

  /** A code exchange the page started: through the token endpoint (cross-origin) or through the store. */
  datatype Exchange = Exchange(crossOrigin: bool, code: string, codeVerifier: string)

  /** How the page ends: an error shown, the browser sent to another origin with a token transfer, or the dashboard. */
  datatype Ending = ShowError(message: string) | LeaveFor(url: string, transfer: TokenTransferData) | GoToDashboard

  datatype CallbackResult = CallbackResult(exchange: Option<Exchange>, ending: Ending)

  /**
   * The two checks made before any cookie is read: an `error` parameter, shown
   * as its description when one is given (`??`, so an empty description is
   * still shown), and a missing or empty code or state.
   */
  function Precheck(p: QueryParams): (r: Option<string>)
    ensures Truthy(p.error) ==> r == Some(if p.errorDescription.Some? then p.errorDescription.value else p.error.value)
    ensures !Truthy(p.error) ==> (r.Some? <==> !Truthy(p.code) || !Truthy(p.state))
    ensures !Truthy(p.error) && r.Some? ==> r.value == MissingParamsMessage
  {
    if Truthy(p.error) then Some(p.errorDescription.GetOr(p.error.value))
    else if !Truthy(p.code) || !Truthy(p.state) then Some(MissingParamsMessage)
    else None
  }

  /** Every guard passed: no error, a code, a state, a stored state, and the two states equal. */
  predicate StateAccepted(p: QueryParams, stored: Option<(string, string)>) {
    !Truthy(p.error) && Truthy(p.code) && Truthy(p.state) && stored.Some? && p.state.value == stored.value.1
  }

  /** `returnOrigin && returnOrigin !== currentOrigin`. */
  predicate NeedsCrossOriginRedirect(returnOrigin: Option<string>, currentOrigin: string) {
    Truthy(returnOrigin) && returnOrigin.value != currentOrigin
  }

  /** `Date.now() + (expires_in ?? default) * 1000`. */
  function ExpiresAt(expiresIn: Option<int>, now: int): (t: int)
    ensures expiresIn.None? ==> t - now == DefaultTokenExpirySeconds * 1000
    ensures expiresIn.Some? ==> t - now == expiresIn.value * 1000
  {
    now + expiresIn.GetOr(DefaultTokenExpirySeconds) * 1000
  }

  /** The transfer record: a refresh token only when the reply has a non-empty one. */
  function TransferFrom(accessToken: string, data: TokenResponse, now: int): (t: TokenTransferData)
    ensures t.accessToken == accessToken
    ensures t.refreshToken.Some? <==> Truthy(data.refreshToken)
    ensures t.refreshToken.Some? ==> t.refreshToken == data.refreshToken
    ensures t.expiresAt == Some(ExpiresAt(data.expiresIn, now))
  {
    TokenTransferData(
      accessToken,
      if Truthy(data.refreshToken) then data.refreshToken else None,
      Some(ExpiresAt(data.expiresIn, now)))
  }

  /** The cross-origin flow after the token request. */
  function CrossOriginEnding(returnOrigin: string, reply: ExchangeReply, now: int): (e: Ending)
    ensures reply.ExchangeThrew? ==> e == ShowError(UnexpectedMessage)
    ensures reply.Responded? && Truthy(reply.data.error) ==>
              e == ShowError(if reply.data.errorDescription.Some? then reply.data.errorDescription.value
                             else reply.data.error.value)
    ensures reply.Responded? && !Truthy(reply.data.error) && !Truthy(reply.data.accessToken) ==>
              e == ShowError(NoTokenMessage)
    ensures e.LeaveFor? <==> reply.Responded? && !Truthy(reply.data.error) && Truthy(reply.data.accessToken)
    ensures e.LeaveFor? ==> e.url == returnOrigin + LandingPath
                            && e.transfer == TransferFrom(reply.data.accessToken.value, reply.data, now)
    ensures !e.GoToDashboard?
  {
    match reply
    case ExchangeThrew => ShowError(UnexpectedMessage)
    case Responded(data) =>
      if Truthy(data.error) then ShowError(data.errorDescription.GetOr(data.error.value))
      else if !Truthy(data.accessToken) then ShowError(NoTokenMessage)
      else LeaveFor(returnOrigin + LandingPath, TransferFrom(data.accessToken.value, data, now))
  }

  /** The same-origin flow after the store's exchange. */
  function SameOriginEnding(reply: SignInReply): (e: Ending)
    ensures e == GoToDashboard <==> reply == SignInFinished(true)
    ensures reply == SignInFinished(false) ==> e == ShowError(SignInFailedMessage)
    ensures reply == SignInThrew ==> e == ShowError(UnexpectedMessage)
    ensures !e.LeaveFor?
  {
    match reply
    case SignInThrew => ShowError(UnexpectedMessage)
    case SignInFinished(success) => if success then GoToDashboard else ShowError(SignInFailedMessage)
  }

  /**
   * `processCallback`. `stored` is what `retrieveOAuthState` gave, as
   * `(codeVerifier, state)`; `returnOrigin` what `retrieveReturnOrigin` gave.
   */
  function ProcessCallback(p: QueryParams, stored: Option<(string, string)>, returnOrigin: Option<string>,
                           currentOrigin: string, exchange: ExchangeReply, signIn: SignInReply, now: int): (r: CallbackResult)
    ensures Precheck(p).Some? ==> r == CallbackResult(None, ShowError(Precheck(p).value))
    ensures Precheck(p).None? && stored.None? ==> r == CallbackResult(None, ShowError(ExpiredMessage))
    ensures Precheck(p).None? && stored.Some? && p.state.value != stored.value.1 ==>
              r == CallbackResult(None, ShowError(CsrfMessage))
    ensures r.exchange.Some? <==> StateAccepted(p, stored)
    ensures r.exchange.Some? ==>
              r.exchange.value == Exchange(NeedsCrossOriginRedirect(returnOrigin, currentOrigin), p.code.value, stored.value.0)
    ensures r.exchange.Some? && r.exchange.value.crossOrigin ==>
              r.ending == CrossOriginEnding(returnOrigin.value, exchange, now)
    ensures r.exchange.Some? && !r.exchange.value.crossOrigin ==> r.ending == SameOriginEnding(signIn)
  {
    match Precheck(p)
    case Some(message) => CallbackResult(None, ShowError(message))
    case None =>
      if stored.None? then CallbackResult(None, ShowError(ExpiredMessage))
      else if p.state.value != stored.value.1 then CallbackResult(None, ShowError(CsrfMessage))
      else
        var cross := NeedsCrossOriginRedirect(returnOrigin, currentOrigin);
        var ending := if cross then CrossOriginEnding(returnOrigin.value, exchange, now) else SameOriginEnding(signIn);
        CallbackResult(Some(Exchange(cross, p.code.value, stored.value.0)), ending)
  }

  /**
   * The page leaves for another origin only after a cross-origin exchange of
   * the query's code under a matching stored state, and the landing URL is on
   * the return origin, which is then neither empty nor the current origin.
   */
  lemma LeavingNeedsAcceptedState(p: QueryParams, stored: Option<(string, string)>, returnOrigin: Option<string>,
                                  currentOrigin: string, exchange: ExchangeReply, signIn: SignInReply, now: int)
    ensures var r := ProcessCallback(p, stored, returnOrigin, currentOrigin, exchange, signIn, now);
            r.ending.LeaveFor? ==>
              StateAccepted(p, stored) && returnOrigin.Some? && returnOrigin.value != ""
              && returnOrigin.value != currentOrigin
              && r.ending.url == returnOrigin.value + LandingPath
              && r.exchange == Some(Exchange(true, p.code.value, stored.value.0))
  {
    var r := ProcessCallback(p, stored, returnOrigin, currentOrigin, exchange, signIn, now);
    if StateAccepted(p, stored) && !NeedsCrossOriginRedirect(returnOrigin, currentOrigin) {
      assert !SameOriginEnding(signIn).LeaveFor?;
    }
  }

  /** The dashboard is reached only through the same-origin flow, and only when the store reports success. */
  lemma DashboardNeedsSignIn(p: QueryParams, stored: Option<(string, string)>, returnOrigin: Option<string>,
                             currentOrigin: string, exchange: ExchangeReply, signIn: SignInReply, now: int)
    ensures var r := ProcessCallback(p, stored, returnOrigin, currentOrigin, exchange, signIn, now);
            r.ending.GoToDashboard? <==>
              StateAccepted(p, stored) && !NeedsCrossOriginRedirect(returnOrigin, currentOrigin)
              && signIn == SignInFinished(true)
  {
    var r := ProcessCallback(p, stored, returnOrigin, currentOrigin, exchange, signIn, now);
    if StateAccepted(p, stored) {
      if NeedsCrossOriginRedirect(returnOrigin, currentOrigin) {
        assert !CrossOriginEnding(returnOrigin.value, exchange, now).GoToDashboard?;
      } else {
        assert r.ending == SameOriginEnding(signIn);
      }
    } else {
      assert r.exchange.None?;
    }
  }

  /**
   * The checks come in order and the first that fails decides: once a check
   * fails, neither a later input (stored state, origins, replies, clock) nor
   * which of them there were changes the result.
   */
  lemma FirstFailingCheckDecides(p: QueryParams, stored: Option<(string, string)>, stored': Option<(string, string)>,
                                 ro: Option<string>, ro': Option<string>, co: string, co': string,
                                 x: ExchangeReply, x': ExchangeReply, g: SignInReply, g': SignInReply, now: int, now': int)
    requires !StateAccepted(p, stored)
    requires Precheck(p).Some? || stored' == stored
    ensures ProcessCallback(p, stored, ro, co, x, g, now) == ProcessCallback(p, stored', ro', co', x', g', now')
    ensures ProcessCallback(p, stored, ro, co, x, g, now).ending.ShowError?
  {
    if Precheck(p).None? {
      assert stored.None? || p.state.value != stored.value.1;
    }
  }

  /** An expiry left out of the reply defaults to eight hours; an expiry of `n` seconds lands `n` seconds on. */
  lemma ExpiryFromReply(data: TokenResponse, accessToken: string, now: int)
    ensures data.expiresIn.None? ==> TransferFrom(accessToken, data, now).expiresAt == Some(now + 28800000)
    ensures data.expiresIn.Some? && data.expiresIn.value > 0 ==> TransferFrom(accessToken, data, now).expiresAt.value > now
  {
  }

  // ---------------------------------------------------------------------------
  // The callback against the cookie jar
  // ---------------------------------------------------------------------------

  /**
   * The callback with its cookie reads and writes: the sign-in cookies are
   * taken only once the query passed its two checks, the return origin only
   * once the states matched, and the transfer cookie is written only when the
   * page leaves for another origin. `serialize` stands for
   * `btoa(JSON.stringify(…))`.
   */
  function CallbackInJar(jar: Jar, p: QueryParams, currentOrigin: string, exchange: ExchangeReply,
                         signIn: SignInReply, now: int, enc: string -> string, dec: string -> string,
                         serialize: TokenTransferData -> string): (r: (CallbackResult, Jar))
    ensures Precheck(p).Some? ==> r.1 == jar
  {
    var taken := if Precheck(p).None? then RetrieveOAuthState(jar, enc, dec) else (None, jar);
    var origin := if StateAccepted(p, taken.0) then RetrieveReturnOrigin(taken.1, enc, dec) else (None, taken.1);
    var result := ProcessCallback(p, taken.0, origin.0, currentOrigin, exchange, signIn, now);
    var written := if result.ending.LeaveFor? then StoreTokenTransfer(origin.1, result.ending.transfer, serialize, enc)
                   else origin.1;
    (result, written)
  }

  /** The sign-in cookies a jar holds, read the way `retrieveOAuthState` reads them. */
  function StoredIn(jar: Jar, enc: string -> string, dec: string -> string): Option<(string, string)> {
    RetrieveOAuthState(jar, enc, dec).0
  }

  /**
   * With the query past its two checks, the page decides on the stored state
   * the jar holds; a rejected state leaves the return origin and the transfer
   * cookie alone.
   */
  lemma JarCallbackDecidesOnStoredState(jar: Jar, p: QueryParams, currentOrigin: string, exchange: ExchangeReply,
                                        signIn: SignInReply, now: int, enc: string -> string, dec: string -> string,
                                        serialize: TokenTransferData -> string)
    requires Precheck(p).None?
    ensures var r := CallbackInJar(jar, p, currentOrigin, exchange, signIn, now, enc, dec, serialize);
            r.0.exchange.Some? <==> StateAccepted(p, StoredIn(jar, enc, dec))
    ensures var r := CallbackInJar(jar, p, currentOrigin, exchange, signIn, now, enc, dec, serialize);
            !StateAccepted(p, StoredIn(jar, enc, dec)) ==> r.1 == RetrieveOAuthState(jar, enc, dec).1
  {
  }

  /** The sign-in cookies are gone from a jar, and it is still well formed. */
  predicate SignInTaken(jar: Jar, enc: string -> string) {
    JarOk(jar) && Lookup(jar, enc(CodeVerifierKey)).None?
  }

  lemma {:induction false} DeleteInOk(jar: Jar, name: string, enc: string -> string)
    requires JarOk(jar)
    ensures JarOk(DeleteIn(jar, name, enc))
  {
    RemoveOk(jar, enc(name));
    RemoveOk(Remove(jar, enc(name)), enc(name));
  }

  /** The four cookie names stay apart once encoded. */
  lemma KeysApart(enc: string -> string, dec: string -> string)
    requires EncoderOk(enc, dec)
    ensures enc(CodeVerifierKey) != enc(ReturnOriginKey) && enc(CodeVerifierKey) != enc(TokenTransferKey)
  {
    assert dec(enc(CodeVerifierKey)) == CodeVerifierKey;
    assert dec(enc(ReturnOriginKey)) == ReturnOriginKey && dec(enc(TokenTransferKey)) == TokenTransferKey;
    assert CodeVerifierKey[6] != ReturnOriginKey[6] && CodeVerifierKey[6] != TokenTransferKey[6];
  }

  /** Taking the return origin keeps the sign-in cookies taken. */
  lemma OriginKeepsTaken(jar: Jar, enc: string -> string, dec: string -> string)
    requires SignInTaken(jar, enc) && EncoderOk(enc, dec)
    ensures SignInTaken(RetrieveReturnOrigin(jar, enc, dec).1, enc)
  {
    if Truthy(RetrieveReturnOrigin(jar, enc, dec).0) {
      KeysApart(enc, dec);
      DeleteInOk(jar, ReturnOriginKey, enc);
      DeleteInLookup(jar, ReturnOriginKey, enc, enc(CodeVerifierKey));
    }
  }

  /** Writing the transfer cookie keeps the sign-in cookies taken. */
  lemma TransferKeepsTaken(jar: Jar, data: TokenTransferData, serialize: TokenTransferData -> string,
                           enc: string -> string, dec: string -> string)
    requires SignInTaken(jar, enc) && EncoderOk(enc, dec)
    ensures SignInTaken(StoreTokenTransfer(jar, data, serialize, enc), enc)
  {
    var k, v := enc(TokenTransferKey), enc(serialize(data));
    assert Clean(k) && Clean(v);
    KeysApart(enc, dec);
    PutOk(jar, k, v);
    PutLookup(jar, k, v, enc(CodeVerifierKey));
  }

  /** Taking a stored state that was present leaves the sign-in cookies taken. */
  lemma RetrieveTakes(jar: Jar, enc: string -> string, dec: string -> string)
    requires JarOk(jar) && StoredIn(jar, enc, dec).Some?
    ensures SignInTaken(RetrieveOAuthState(jar, enc, dec).1, enc)
  {
    var after := DeleteIn(jar, CodeVerifierKey, enc);
    DeleteInOk(jar, CodeVerifierKey, enc);
    DeleteInOk(after, StateKey, enc);
  }

  /** After a callback that accepted its state, the jar no longer holds a sign-in state. */
  lemma AcceptedCallbackTakesState(jar: Jar, p: QueryParams, currentOrigin: string, exchange: ExchangeReply,
                                   signIn: SignInReply, now: int, enc: string -> string, dec: string -> string,
                                   serialize: TokenTransferData -> string)
    requires JarOk(jar) && EncoderOk(enc, dec)
    requires CallbackInJar(jar, p, currentOrigin, exchange, signIn, now, enc, dec, serialize).0.exchange.Some?
    ensures SignInTaken(CallbackInJar(jar, p, currentOrigin, exchange, signIn, now, enc, dec, serialize).1, enc)
  {
    var taken := RetrieveOAuthState(jar, enc, dec);
    assert Precheck(p).None? && StateAccepted(p, taken.0);
    RetrieveTakes(jar, enc, dec);
    var origin := RetrieveReturnOrigin(taken.1, enc, dec);
    OriginKeepsTaken(taken.1, enc, dec);
    var result := ProcessCallback(p, taken.0, origin.0, currentOrigin, exchange, signIn, now);
    if result.ending.LeaveFor? {
      TransferKeepsTaken(origin.1, result.ending.transfer, serialize, enc, dec);
    }
  }

  /**
   * Replay: running the callback again with the same query on the jar the
   * first accepted run left behind ends in the expired-session error, with no
   * exchange, whatever the replies.
   */
  lemma ReplayIsRejected(jar: Jar, p: QueryParams, currentOrigin: string, exchange: ExchangeReply,
                         signIn: SignInReply, now: int, enc: string -> string, dec: string -> string,
                         serialize: TokenTransferData -> string,
                         co': string, x': ExchangeReply, g': SignInReply, now': int)
    requires JarOk(jar) && EncoderOk(enc, dec)
    requires CallbackInJar(jar, p, currentOrigin, exchange, signIn, now, enc, dec, serialize).0.exchange.Some?
    ensures var after := CallbackInJar(jar, p, currentOrigin, exchange, signIn, now, enc, dec, serialize).1;
            CallbackInJar(after, p, co', x', g', now', enc, dec, serialize).0 == CallbackResult(None, ShowError(ExpiredMessage))
  {
    var after := CallbackInJar(jar, p, currentOrigin, exchange, signIn, now, enc, dec, serialize).1;
    AcceptedCallbackTakesState(jar, p, currentOrigin, exchange, signIn, now, enc, dec, serialize);
    assert Precheck(p).None?;
    KeyEncodings(enc, dec);
    GetCookieReadsJar(after, CodeVerifierKey, enc, dec);
    assert StoredIn(after, enc, dec).None?;
  }

  /**
   * End to end: when the callback leaves for another origin, the landing
   * page's `retrieveTokenTransfer` on the jar it left reads back exactly the
   * transfer record, provided `parse` undoes `serialize`.
   */
  lemma LandingReadsTransfer(jar: Jar, p: QueryParams, currentOrigin: string, exchange: ExchangeReply,
                             signIn: SignInReply, now: int, enc: string -> string, dec: string -> string,
                             serialize: TokenTransferData -> string, parse: string -> Option<TokenTransferData>)
    requires JarOk(jar) && EncoderOk(enc, dec)
    requires forall d :: serialize(d) != "" && parse(serialize(d)) == Some(d)
    requires CallbackInJar(jar, p, currentOrigin, exchange, signIn, now, enc, dec, serialize).0.ending.LeaveFor?
    ensures var r := CallbackInJar(jar, p, currentOrigin, exchange, signIn, now, enc, dec, serialize);
            RetrieveTokenTransfer(r.1, parse, enc, dec).0 == Some(r.0.ending.transfer)
  {
    var r := CallbackInJar(jar, p, currentOrigin, exchange, signIn, now, enc, dec, serialize);
    var data := r.0.ending.transfer;
    var taken := RetrieveOAuthState(jar, enc, dec);
    assert Precheck(p).None?;
    assert StateAccepted(p, taken.0);
    RetrieveTakes(jar, enc, dec);
    var origin := RetrieveReturnOrigin(taken.1, enc, dec);
    OriginKeepsTaken(taken.1, enc, dec);
    assert r.1 == StoreTokenTransfer(origin.1, data, serialize, enc);
    var k, v := enc(TokenTransferKey), enc(serialize(data));
    assert Clean(k) && Clean(v) && dec(v) == serialize(data);
    PutOk(origin.1, k, v);
    PutLookup(origin.1, k, v, k);
    KeyEncodings(enc, dec);
    GetCookieReadsJar(r.1, TokenTransferKey, enc, dec);
  }
}
