/**
 * What a failed request throws, as the stores tell it apart: a
 * `GitHubAPIError` (src/api/github/github-client.ts) with its HTTP status and
 * message, any other `Error` with its message, or a thrown non-`Error` value.
 */
module Failures {

  datatype Failure =
    | ApiFailure(status: int, message: string)
    | ErrorFailure(message: string)
    | OtherFailure

  /** The outcome of a request made through the network oracle. */
  datatype Outcome<T> = Success(value: T) | Failed(failure: Failure)

  /**
   * The message a store shows for a failed load: its own text for 404 and
   * for 401 or 403, the error's message for any other API error and any
   * `Error`, and the store's fallback for anything else that was thrown.
   */
  function FailureMessage(f: Failure, notFound: string, denied: string, fallback: string): (m: string)
    ensures f.ApiFailure? && f.status == 404 ==> m == notFound
    ensures f.ApiFailure? && (f.status == 401 || f.status == 403) ==> m == denied
    ensures f.ApiFailure? && f.status != 404 && f.status != 401 && f.status != 403 ==> m == f.message
    ensures f.ErrorFailure? ==> m == f.message
    ensures f.OtherFailure? ==> m == fallback
  {
    match f
    case ApiFailure(status, message) =>
      if status == 404 then notFound
      else if status == 401 || status == 403 then denied
      else message
    case ErrorFailure(message) => message
    case OtherFailure => fallback
  }
}
