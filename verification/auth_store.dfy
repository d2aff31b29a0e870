/**
 * The auth store (src/features/auth/stores/useAuthStore.ts): the token, the
 * signed-in flag, the error shown on the sign-in form and the validating
 * flag, with the transitions the store's actions make. Whether GitHub
 * accepts a token (`validateGitHubToken`, which also answers false when the
 * request throws) is an oracle passed in as a boolean.
 */
module AuthStore {
  import opened Wrappers
  import opened GitHubClient

  datatype AuthState = AuthState(
    token: Option<string>,
    isAuthenticated: bool,
    error: Option<string>,
    isValidating: bool)

  const Initial: AuthState := AuthState(None, false, None, false)

  const FormatMessage: string := "Invalid token format. Token must start with \"ghp_\" or \"github_pat_\""

  /** `validateGitHubToken`: the same `GET /user` request, read only for `response.ok`; a throw is `false`. */
  function ValidateGitHubToken(reply: Reply): (accepted: bool)
    ensures accepted <==> reply.Answered? && reply.ok
  {
    match reply
    case Threw => false
    case Answered(ok, _, _) => ok
  }

  /**
   * The store and the client agree except on one reply: an ok status whose
   * body does not parse, which the store accepts and the client reports as a
   * connection failure.
   */
  lemma StoreAndClientAgree(reply: Reply)
    ensures GitHubClient.ValidateToken(reply).Authenticated? ==> ValidateGitHubToken(reply)
    ensures ValidateGitHubToken(reply) && !GitHubClient.ValidateToken(reply).Authenticated? <==>
              reply.Answered? && reply.ok && reply.body.None?
  {
  }

  /** `setToken`: signed in with `token`, no error; validating is left as it was. */
  function SetToken(st: AuthState, token: string): (r: AuthState)
    ensures r.token == Some(token) && r.isAuthenticated && r.error.None?
    ensures r.isValidating == st.isValidating
  {
    st.(token := Some(token), isAuthenticated := true, error := None)
  }

  /** `logout`: signed out, no token, no error. */
  function Logout(st: AuthState): (r: AuthState)
    ensures r.token.None? && !r.isAuthenticated && r.error.None?
    ensures r.isValidating == st.isValidating
  {
    st.(token := None, isAuthenticated := false, error := None)
  }

  /** `clearError`: only the error changes. */
  function ClearError(st: AuthState): (r: AuthState)
    ensures r.error.None? && r.(error := st.error) == st
  {
    st.(error := None)
  }

  /** The state `validateToken` shows while it waits: no error, validating. */
  function ValidationStarted(st: AuthState): (r: AuthState)
    ensures r.error.None? && r.isValidating
    ensures r.token == st.token && r.isAuthenticated == st.isAuthenticated
  {
    st.(error := None, isValidating := true)
  }

  /**
   * The second half of `validateToken`, after the `await` of the API call:
   * `current` is the store's state when the answer arrives, which other
   * actions (a `logout`, a `setToken`) may have changed since the start.
   * An accepted token signs in over whatever is there; a refused one sets
   * the error and keeps the rest.
   */
  function ValidationFinished(current: AuthState, token: string, accepted: bool): (r: (AuthState, bool))
    ensures r.1 == accepted && !r.0.isValidating
    ensures accepted ==> r.0 == AuthState(Some(token), true, None, false)
    ensures !accepted ==> r.0 == current.(error := Some(BadTokenMessage), isValidating := false)
  {
    if accepted then (SetToken(current, token).(isValidating := false), true)
    else (current.(error := Some(BadTokenMessage), isValidating := false), false)
  }

  /**
   * `validateToken` when nothing else acts during the `await`: the state it
   * leaves and the boolean it returns. `accepted` is what the API said, and
   * is only consulted for a token of the right format.
   */
  function ValidateToken(st: AuthState, token: string, accepted: bool): (r: (AuthState, bool))
    ensures r.1 <==> IsValidTokenFormat(token) && accepted
    ensures !r.0.isValidating
    ensures !IsValidTokenFormat(token) ==>
              r.0 == st.(error := Some(FormatMessage), isValidating := false)
    ensures r.1 ==> r.0 == AuthState(Some(token), true, None, false)
    ensures IsValidTokenFormat(token) && !accepted ==>
              r.0 == st.(error := Some(BadTokenMessage), isValidating := false)
  {
    var waiting := ValidationStarted(st);
    if !IsValidTokenFormat(token) then
      (waiting.(error := Some(FormatMessage), isValidating := false), false)
    else
      ValidationFinished(waiting, token, accepted)
  }

  /**
   * A `logout` while the API is being asked does not stick when the token
   * is accepted: the answer signs the user back in. A refusal keeps the
   * logout.
   */
  lemma LogoutDuringValidation(st: AuthState, token: string, accepted: bool)
    requires IsValidTokenFormat(token)
    ensures var r := ValidationFinished(Logout(ValidationStarted(st)), token, accepted).0;
            (r.isAuthenticated <==> accepted) && (r.token.Some? <==> accepted)
  {
  }

  /** A badly formed token is turned down before the API is asked: its answer changes nothing. */
  lemma FormatCheckedFirst(st: AuthState, token: string)
    requires !IsValidTokenFormat(token)
    ensures ValidateToken(st, token, true) == ValidateToken(st, token, false)
  {
  }

  /** A failed validation never signs anyone in or out: the token and the flag stay. */
  lemma FailureKeepsSession(st: AuthState, token: string, accepted: bool)
    requires !ValidateToken(st, token, accepted).1
    ensures ValidateToken(st, token, accepted).0.token == st.token
    ensures ValidateToken(st, token, accepted).0.isAuthenticated == st.isAuthenticated
    ensures ValidateToken(st, token, accepted).0.error.Some?
  {
  }

  /** What `persist` writes under `auth-storage`: the token and the signed-in flag only. */
  datatype Persisted = Persisted(token: Option<string>, isAuthenticated: bool)

  function Partialize(st: AuthState): (p: Persisted)
    ensures p.token == st.token && p.isAuthenticated == st.isAuthenticated
  {
    Persisted(st.token, st.isAuthenticated)
  }

  /** Rehydration: the persisted fields laid over the initial state. */
  function Rehydrate(p: Persisted): (st: AuthState)
    ensures st.error.None? && !st.isValidating
  {
    Initial.(token := p.token, isAuthenticated := p.isAuthenticated)
  }

  /**
   * The stored record is exactly the token and the flag: states that agree on
   * those two store the same thing, reload to the same state, and nothing
   * stored is lost on reload.
   */
  lemma PersistRoundTrip(st: AuthState, other: AuthState, p: Persisted)
    ensures Partialize(st) == Partialize(other) <==>
              st.token == other.token && st.isAuthenticated == other.isAuthenticated
    ensures Partialize(Rehydrate(p)) == p
    ensures st.error.None? && !st.isValidating ==> Rehydrate(Partialize(st)) == st
  {
  }

  /** Logging out after a successful validation returns to the signed-out state. */
  lemma LogoutAfterSignIn(st: AuthState, token: string)
    requires ValidateToken(st, token, true).1
    ensures Logout(ValidateToken(st, token, true).0) == Initial
  {
  }
}
