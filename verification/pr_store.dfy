/** The pull-request store (src/features/pr/stores/usePRStore.ts). */
module PRStore {
  import opened Wrappers
  import opened ApiTypes
  import opened Failures

  datatype PRState = PRState(currentPR: Option<Review>, isLoading: bool, error: Option<string>)

  const Initial: PRState := PRState(None, false, None)

  /** The start of `loadPR`: loading and no error; the shown pull request stays. */
  function LoadPRStarted(st: PRState): (r: PRState)
    ensures r.isLoading && r.error.None? && r.currentPR == st.currentPR
  {
    st.(isLoading := true, error := None)
  }

  /** The message `loadPR` shows for a failure. */
  function LoadPRMessage(f: Failure): string {
    FailureMessage(f, "Pull request not found. Please check the URL.",
                   "Access denied. Please check your token permissions.", "Failed to load pull request")
  }

  /** The end of `loadPR`: the fetched review, or no review and the failure's message. */
  function LoadPRFinished(st: PRState, outcome: Outcome<Review>): (r: PRState)
    ensures !r.isLoading
    ensures outcome.Success? ==> r.currentPR == Some(outcome.value) && r.error == st.error
    ensures outcome.Failed? ==> r.currentPR.None? && r.error == Some(LoadPRMessage(outcome.failure))
  {
    match outcome
    case Success(pr) => st.(currentPR := Some(pr), isLoading := false)
    case Failed(f) => st.(error := Some(LoadPRMessage(f)), isLoading := false, currentPR := None)
  }

  /** `clearError`: only the error changes. */
  function ClearError(st: PRState): (r: PRState)
    ensures r.error.None? && r.currentPR == st.currentPR && r.isLoading == st.isLoading
  {
    st.(error := None)
  }

  /** `reset` */
  function Reset(st: PRState): (r: PRState)
    ensures r == Initial
  {
    PRState(None, false, None)
  }

  /**
   * A whole `loadPR`: loading is over, and a review is shown exactly when
   * there is no error, that is exactly when the request succeeded.
   */
  lemma LoadPROutcome(st: PRState, outcome: Outcome<Review>)
    ensures var r := LoadPRFinished(LoadPRStarted(st), outcome);
            && !r.isLoading
            && (r.currentPR.Some? <==> outcome.Success?)
            && (r.error.None? <==> outcome.Success?)
            && (outcome.Failed? && outcome.failure.ApiFailure? && outcome.failure.status == 404 ==>
                  r.error == Some("Pull request not found. Please check the URL."))
            && (outcome.Failed? && outcome.failure.ApiFailure? && outcome.failure.status in {401, 403} ==>
                  r.error == Some("Access denied. Please check your token permissions."))
            && (outcome.Failed? && outcome.failure.OtherFailure? ==> r.error == Some("Failed to load pull request"))
  {
  }
}
