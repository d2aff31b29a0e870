/**
 * The token check of src/api/github-client.ts: the accepted token formats,
 * the request's authorization header, and how `validateToken` reads GitHub's
 * reply to `GET /user`. The request is an oracle whose reply is a parameter.
 */
module GitHubClient {
  import opened Wrappers
  import opened Strings

  /**
   * `isValidTokenFormat`: a classic (`ghp_`) or fine-grained (`github_pat_`)
   * personal access token. The auth store carries the same check.
   */
  predicate IsValidTokenFormat(token: string) {
    StartsWith(token, "ghp_") || StartsWith(token, "github_pat_")
  }

  /** Anything put after an accepted token is still accepted: only the prefix counts. */
  lemma ValidFormatExtends(token: string, more: string)
    requires IsValidTokenFormat(token)
    ensures IsValidTokenFormat(token + more)
  {
    if StartsWith(token, "ghp_") {
      assert (token + more)[..4] == token[..4];
    } else {
      assert (token + more)[..11] == token[..11];
    }
  }

  /** The empty string and the look-alike prefixes `gho_` and `pat_` are rejected. */
  lemma RejectedFormats(rest: string)
    ensures !IsValidTokenFormat("")
    ensures !IsValidTokenFormat("gho_" + rest) && !IsValidTokenFormat("pat_" + rest)
    ensures IsValidTokenFormat("ghp_" + rest) && IsValidTokenFormat("github_pat_" + rest)
  {
    assert ("gho_" + rest)[2] == 'o';
    assert ("pat_" + rest)[0] == 'p';
    assert ("ghp_" + rest)[..4] == "ghp_";
    assert ("github_pat_" + rest)[..11] == "github_pat_";
  }

  /** `Bearer ${token}`. */
  function AuthorizationHeader(token: string): (h: string)
    ensures StartsWith(h, "Bearer ") && h[7..] == token
  {
    "Bearer " + token
  }

  /** The user object GitHub returns for a valid token. */
  datatype ClientUser = ClientUser(login: string, id: nat, avatarUrl: string, name: Option<string>)

  /**
   * A reply body as the code reads it: as a user after an ok status, and for
   * its `message` (empty when absent) after any other status.
   */
  datatype ReplyBody = ReplyBody(user: ClientUser, message: string)

  /**
   * What `fetch` did: it threw, or it answered with `ok`, a status, and a
   * body that `response.json()` either parsed or rejected (`None`).
   */
  datatype Reply = Threw | Answered(ok: bool, status: int, body: Option<ReplyBody>)

  datatype ErrorKind = InvalidToken | NetworkError

  /** `AuthResult`: success carries the user, failure an error kind and a message. */
  datatype AuthResult = Authenticated(user: ClientUser) | Rejected(error: ErrorKind, message: string)

  const BadTokenMessage: string := "Authentication failed. Please check your token."
  const GenericMessage: string := "Authentication failed."
  const ConnectionMessage: string := "Connection failed. Please check your internet connection."

  /**
   * `validateToken`. The 401 branch never reads the body; every other branch
   * that reads it falls into the `catch` when it does not parse.
   */
  function ValidateToken(reply: Reply): (r: AuthResult)
    ensures r.Authenticated? <==> reply.Answered? && reply.ok && reply.body.Some?
    ensures r.Authenticated? ==> r.user == reply.body.value.user
    ensures r.Rejected? && r.error == NetworkError <==>
              reply.Threw? || (reply.Answered? && (reply.ok || reply.status != 401) && reply.body.None?)
    ensures r.Rejected? && r.error == NetworkError ==> r.message == ConnectionMessage
    ensures r.Rejected? ==> r.message != ""
    ensures reply.Answered? && !reply.ok && reply.status == 401 ==> r == Rejected(InvalidToken, BadTokenMessage)
    ensures reply.Answered? && !reply.ok && reply.status != 401 && reply.body.Some? ==>
              r == Rejected(InvalidToken, if reply.body.value.message != "" then reply.body.value.message else GenericMessage)
  {
    match reply
    case Threw => Rejected(NetworkError, ConnectionMessage)
    case Answered(ok, status, body) =>
      if ok then
        (match body
         case Some(b) => Authenticated(b.user)
         case None => Rejected(NetworkError, ConnectionMessage))
      else if status == 401 then Rejected(InvalidToken, BadTokenMessage)
      else
        match body
        case Some(b) => Rejected(InvalidToken, if b.message != "" then b.message else GenericMessage)
        case None => Rejected(NetworkError, ConnectionMessage)
  }
}
