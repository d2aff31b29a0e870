/**
 * The file-list store of the diff view (src/features/diff/stores/useDiffStore.ts):
 * the files of a pull request, the selected index, and the load status.
 */
module DiffStore {
  import opened Wrappers
  import opened ApiTypes
  import opened Failures

  datatype DiffState = DiffState(
    files: seq<FileChange>,
    selectedFileIndex: int,
    isLoading: bool,
    error: Option<string>)

  const Initial: DiffState := DiffState([], 0, false, None)

  /** The selection is never negative and points at a file whenever there is one. */
  predicate SelectionValid(st: DiffState) {
    st.selectedFileIndex >= 0 && (|st.files| > 0 ==> st.selectedFileIndex < |st.files|)
  }

  /** `selectFile`: moves to `index` only when it names a file. */
  function SelectFile(st: DiffState, index: int): (r: DiffState)
    ensures r.selectedFileIndex == (if 0 <= index < |st.files| then index else st.selectedFileIndex)
    ensures r.(selectedFileIndex := st.selectedFileIndex) == st
  {
    if index >= 0 && index < |st.files| then st.(selectedFileIndex := index) else st
  }

  /** `selectNextFile`: one step forward unless the last file is selected. */
  function SelectNextFile(st: DiffState): (r: DiffState)
    ensures r.selectedFileIndex == st.selectedFileIndex + 1 <==> st.selectedFileIndex < |st.files| - 1
    ensures r.selectedFileIndex != st.selectedFileIndex + 1 ==> r == st
    ensures r.(selectedFileIndex := st.selectedFileIndex) == st
  {
    if st.selectedFileIndex < |st.files| - 1 then st.(selectedFileIndex := st.selectedFileIndex + 1) else st
  }

  /** `selectPreviousFile`: one step back unless the first file is selected. */
  function SelectPreviousFile(st: DiffState): (r: DiffState)
    ensures r.selectedFileIndex == st.selectedFileIndex - 1 <==> st.selectedFileIndex > 0
    ensures r.selectedFileIndex != st.selectedFileIndex - 1 ==> r == st
    ensures r.(selectedFileIndex := st.selectedFileIndex) == st
  {
    if st.selectedFileIndex > 0 then st.(selectedFileIndex := st.selectedFileIndex - 1) else st
  }

  /** The three selection moves keep the selection valid. */
  lemma SelectionsKeepValid(st: DiffState, index: int)
    requires SelectionValid(st)
    ensures SelectionValid(SelectFile(st, index))
    ensures SelectionValid(SelectNextFile(st))
    ensures SelectionValid(SelectPreviousFile(st))
  {
  }

  /** A step forward that moved is undone by a step back, and a step back that moved by a step forward. */
  lemma StepsUndo(st: DiffState)
    ensures 0 <= st.selectedFileIndex < |st.files| - 1 ==> SelectPreviousFile(SelectNextFile(st)) == st
    ensures 0 < st.selectedFileIndex < |st.files| ==> SelectNextFile(SelectPreviousFile(st)) == st
  {
  }

  /** The start of `loadFiles`: loading, no error, files and selection kept. */
  function LoadFilesStarted(st: DiffState): (r: DiffState)
    ensures r.isLoading && r.error.None?
    ensures r.files == st.files && r.selectedFileIndex == st.selectedFileIndex
  {
    st.(isLoading := true, error := None)
  }

  /** The message `loadFiles` shows for a failure. */
  function LoadFilesMessage(f: Failure): string {
    FailureMessage(f, "Pull request not found", "Access denied", "Failed to load files")
  }

  /**
   * The end of `loadFiles` with the backend's outcome: the fetched files with
   * the first selected, or no files and the failure's message; the error is
   * left alone on success, and the selection on failure.
   */
  function LoadFilesFinished(st: DiffState, outcome: Outcome<seq<FileChange>>): (r: DiffState)
    ensures !r.isLoading
    ensures outcome.Success? ==> r.files == outcome.value && r.selectedFileIndex == 0 && r.error == st.error
    ensures outcome.Failed? ==> && r.files == [] && r.selectedFileIndex == st.selectedFileIndex
                                && r.error == Some(LoadFilesMessage(outcome.failure))
  {
    match outcome
    case Success(files) => st.(files := files, isLoading := false, selectedFileIndex := 0)
    case Failed(f) => st.(error := Some(LoadFilesMessage(f)), isLoading := false, files := [])
  }

  /** `reset` */
  function Reset(st: DiffState): (r: DiffState)
    ensures r == Initial
  {
    DiffState([], 0, false, None)
  }

  /**
   * A whole `loadFiles`: loading is over, there is an error exactly when the
   * request failed, and a valid selection stays valid.
   */
  lemma LoadFilesOutcome(st: DiffState, outcome: Outcome<seq<FileChange>>)
    ensures var r := LoadFilesFinished(LoadFilesStarted(st), outcome);
            && !r.isLoading
            && (r.error.None? <==> outcome.Success?)
            && (SelectionValid(st) ==> SelectionValid(r))
            && (outcome.Failed? && outcome.failure.ApiFailure? && outcome.failure.status == 404 ==>
                  r.error == Some("Pull request not found"))
            && (outcome.Failed? && outcome.failure.ApiFailure? && outcome.failure.status in {401, 403} ==>
                  r.error == Some("Access denied"))
            && (outcome.Failed? && outcome.failure.OtherFailure? ==> r.error == Some("Failed to load files"))
  {
  }
}
