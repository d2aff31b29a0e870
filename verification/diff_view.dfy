/**
 * The pure parts of the unified diff view (src/features/diff/components/DiffView.tsx):
 * which lines are shown, which threads belong to the file, how they are
 * indexed by `"<line>-<side>"`, which threads sit under each line, and the
 * anchor a new comment is posted with.
 */
module DiffView {
  import opened Wrappers
  import opened Strings
  import opened DiffTypes
  import opened CommentTypes
  import opened ApiTypes
  import opened Sorting
  import opened Grouping
  import ParsePatch
  import LanguageDetect
  import CommentPosition

  // ---------------------------------------------------------------------------
  // The lines of the selected file
  // ---------------------------------------------------------------------------

  /** `files[selectedFileIndex]`, which is `undefined` outside the list. */
  function SelectedFile(files: seq<FileChange>, index: int): (r: Option<FileChange>)
    ensures r.Some? <==> 0 <= index < |files|
    ensures r.Some? ==> r.value == files[index]
  {
    if 0 <= index < |files| then Some(files[index]) else None
  }

  datatype DiffContent = DiffContent(diffLines: seq<ParsedDiffLine>, language: string)

  /**
   * The memoised `diffLines` and `language`: nothing and `plaintext` without a
   * patch (missing or empty), otherwise the parsed patch, one line per kept
   * piece and numbered from the counters, and the language of the file name.
   */
  function ContentFor(file: Option<FileChange>): (r: DiffContent)
    ensures (file.None? || file.value.patch == "") ==> r.diffLines == [] && r.language == "plaintext"
    ensures file.Some? && file.value.patch != "" ==>
              && r.diffLines == ParsePatch.ParsePatch(file.value.patch)
              && r.language == LanguageDetect.DetectLanguage(file.value.filename)
              && |r.diffLines| == |ParsePatch.Kept(Split(file.value.patch, '\n'))|
    ensures ParsePatch.WellNumbered(r.diffLines)
    ensures r.language in LanguageDetect.LanguageTable.Values || r.language == "plaintext"
  {
    if file.None? || file.value.patch == "" then DiffContent([], "plaintext")
    else
      ParsePatch.ParsePatchLines(file.value.patch);
      DiffContent(ParsePatch.ParsePatch(file.value.patch), LanguageDetect.DetectLanguage(file.value.filename))
  }

  // ---------------------------------------------------------------------------
  // The threads of the file
  // ---------------------------------------------------------------------------

  /** A thread is shown with a file when it is anchored in it and has a comment. */
  predicate Considered(t: ReviewThread, filename: string) {
    t.path == filename && |t.comments| > 0
  }

  /** `threads.filter(...)`: the considered threads in store order. */
  function ForFile(threads: seq<ReviewThread>, filename: string): seq<ReviewThread> {
    if |threads| == 0 then []
    else (if Considered(threads[0], filename) then [threads[0]] else []) + ForFile(threads[1..], filename)
  }

  lemma {:induction false} ForFileMembers(threads: seq<ReviewThread>, filename: string)
    ensures forall t :: t in ForFile(threads, filename) <==> t in threads && Considered(t, filename)
    decreases |threads|
  {
    if |threads| > 0 {
      ForFileMembers(threads[1..], filename);
      assert threads == [threads[0]] + threads[1..];
    }
  }

  /** The sort key: the first comment's creation time, 0 when there is none. */
  function FirstCreated(t: ReviewThread): int {
    if |t.comments| > 0 then t.comments[0].createdAt else 0
  }

  /**
   * `threadsForFile`: nothing without a file name; otherwise exactly the
   * considered threads, stably sorted by their first comment's creation time.
   */
  function ThreadsForFile(threads: seq<ReviewThread>, filename: Option<string>): (r: seq<ReviewThread>)
    ensures filename.None? || filename.value == "" ==> r == []
    ensures forall t :: t in r <==> (filename.Some? && filename.value != "" && t in threads
                                    && Considered(t, filename.value))
    ensures SortedBy(r, FirstCreated)
    ensures filename.Some? && filename.value != "" ==>
              && multiset(r) == multiset(ForFile(threads, filename.value))
              && forall k :: WithKey(r, FirstCreated, k) == WithKey(ForFile(threads, filename.value), FirstCreated, k)
  {
    if filename.None? || filename.value == "" then []
    else
      var r := SortBy(ForFile(threads, filename.value), FirstCreated);
      ForFileMembers(threads, filename.value);
      assert forall t :: t in r <==> t in multiset(r);
      r
  }

  // ---------------------------------------------------------------------------
  // The `"<line>-<side>"` index
  // ---------------------------------------------------------------------------

  /** `${String(line)}-${side}` */
  function LineKey(line: nat, side: Side): string {
    NatToDecimal(line) + "-" + SideName(side)
  }

  function ThreadKey(t: ReviewThread): string {
    LineKey(t.line, t.side)
  }

  /** Distinct anchors have distinct keys, so a bucket holds the threads of one anchor. */
  lemma LineKeyInjective(line: nat, side: Side, line': nat, side': Side)
    ensures LineKey(line, side) == LineKey(line', side') <==> line == line' && side == side'
  {
    DecimalThenSeparator(line, SideName(side), line', SideName(side'), '-');
  }

  /** The `(key, thread)` pairs the index is built from, in sorted order. */
  function KeyedPairs(ts: seq<ReviewThread>): (pairs: seq<(string, ReviewThread)>)
    ensures |pairs| == |ts|
  {
    seq(|ts|, i requires 0 <= i < |ts| => (ThreadKey(ts[i]), ts[i]))
  }

  /** `threadsByKey`: the `Map` built by appending each thread to its key's bucket. */
  function ThreadsByKey(ts: seq<ReviewThread>): seq<Group<string, ReviewThread>> {
    GroupBy(KeyedPairs(ts))
  }

  /** The threads of `ts` anchored at `line` on `side`, in their order in `ts`. */
  function AnchoredAt(ts: seq<ReviewThread>, line: nat, side: Side): seq<ReviewThread> {
    if |ts| == 0 then []
    else
      var n := |ts| - 1;
      AnchoredAt(ts[..n], line, side) + (if ts[n].line == line && ts[n].side == side then [ts[n]] else [])
  }

  lemma {:induction false} AnchoredAtMembers(ts: seq<ReviewThread>, line: nat, side: Side)
    ensures forall t :: t in AnchoredAt(ts, line, side) <==> t in ts && t.line == line && t.side == side
    decreases |ts|
  {
    if |ts| > 0 {
      var n := |ts| - 1;
      AnchoredAtMembers(ts[..n], line, side);
      assert ts == ts[..n] + [ts[n]];
    }
  }

  lemma {:induction false} MembersOfKey(ts: seq<ReviewThread>, line: nat, side: Side)
    ensures Members(KeyedPairs(ts), LineKey(line, side)) == AnchoredAt(ts, line, side)
    decreases |ts|
  {
    if |ts| > 0 {
      var n := |ts| - 1;
      var pairs := KeyedPairs(ts);
      assert pairs[..n] == KeyedPairs(ts[..n]);
      MembersOfKey(ts[..n], line, side);
      LineKeyInjective(ts[n].line, ts[n].side, line, side);
    }
  }

  /**
   * The bucket of an anchor holds exactly the threads anchored there, in
   * sorted order.
   */
  lemma BucketContents(ts: seq<ReviewThread>, line: nat, side: Side)
    ensures Lookup(ThreadsByKey(ts), LineKey(line, side)) == AnchoredAt(ts, line, side)
    ensures forall t :: t in Lookup(ThreadsByKey(ts), LineKey(line, side)) <==>
                          t in ts && t.line == line && t.side == side
  {
    LookupGroupBy(KeyedPairs(ts), LineKey(line, side));
    MembersOfKey(ts, line, side);
    AnchoredAtMembers(ts, line, side);
  }

  /** Every thread is in the bucket of its own key and in no other. */
  lemma OneBucketEach(ts: seq<ReviewThread>, t: ReviewThread, key: string)
    requires t in ts
    ensures t in Lookup(ThreadsByKey(ts), key) <==> key == ThreadKey(t)
  {
    var pairs := KeyedPairs(ts);
    LookupGroupBy(pairs, key);
    if t in Lookup(ThreadsByKey(ts), key) {
      MembersFrom(pairs, key, t);
    }
    BucketContents(ts, t.line, t.side);
  }

  // ---------------------------------------------------------------------------
  // The rows of the table
  // ---------------------------------------------------------------------------

  /** `lineThreads`: the LEFT bucket of the old number, then the RIGHT bucket of the new one. */
  function LineThreads(index: seq<Group<string, ReviewThread>>, line: ParsedDiffLine): seq<ReviewThread> {
    (match line.oldLineNumber case Some(n) => Lookup(index, LineKey(n, Left)) case None => [])
    + (match line.newLineNumber case Some(n) => Lookup(index, LineKey(n, Right)) case None => [])
  }

  /** One rendered line: the line, whether it offers the add-comment button, and the threads under it. */
  datatype Row = Row(line: ParsedDiffLine, showCommentButton: bool, threads: seq<ReviewThread>)

  /** The table of the selected file against the store's threads. */
  function Table(file: Option<FileChange>, threads: seq<ReviewThread>): (rows: seq<Row>)
    ensures |rows| == |ContentFor(file).diffLines|
  {
    var lines := ContentFor(file).diffLines;
    var index := ThreadsByKey(ThreadsForFile(threads, if file.Some? then Some(file.value.filename) else None));
    seq(|lines|, i requires 0 <= i < |lines| => Row(lines[i], !IsHeader(lines[i]), LineThreads(index, lines[i])))
  }

  /**
   * The threads under a line are the file's considered threads anchored at
   * its old number on the LEFT, in sorted order, followed by those anchored at
   * its new number on the RIGHT.
   */
  lemma LineThreadsJoin(ts: seq<ReviewThread>, line: ParsedDiffLine)
    ensures LineThreads(ThreadsByKey(ts), line)
            == (match line.oldLineNumber case Some(n) => AnchoredAt(ts, n, Left) case None => [])
               + (match line.newLineNumber case Some(n) => AnchoredAt(ts, n, Right) case None => [])
  {
    if line.oldLineNumber.Some? {
      BucketContents(ts, line.oldLineNumber.value, Left);
    }
    if line.newLineNumber.Some? {
      BucketContents(ts, line.newLineNumber.value, Right);
    }
  }

  /**
   * Each row of the table: the button appears exactly on non-header lines,
   * header lines carry no thread, and the threads of any line are the joined
   * LEFT and RIGHT anchors among the file's threads.
   */
  lemma TableRows(file: Option<FileChange>, threads: seq<ReviewThread>, i: nat)
    requires i < |ContentFor(file).diffLines|
    ensures var line := ContentFor(file).diffLines[i];
            var ts := ThreadsForFile(threads, if file.Some? then Some(file.value.filename) else None);
            var row := Table(file, threads)[i];
            && row.line == line
            && (row.showCommentButton <==> !IsHeader(line))
            && (IsHeader(line) ==> row.threads == [])
            && row.threads
               == (match line.oldLineNumber case Some(n) => AnchoredAt(ts, n, Left) case None => [])
                  + (match line.newLineNumber case Some(n) => AnchoredAt(ts, n, Right) case None => [])
  {
    var lines := ContentFor(file).diffLines;
    var ts := ThreadsForFile(threads, if file.Some? then Some(file.value.filename) else None);
    assert ParsePatch.NumberedLine(lines, i);
    LineThreadsJoin(ts, lines[i]);
  }

  // ---------------------------------------------------------------------------
  // Posting a comment from the draft editor
  // ---------------------------------------------------------------------------

  /** What `handleSubmitComment` passes to `addComment`. */
  datatype CommentDraft = CommentDraft(path: string, line: nat, side: Side, body: string, position: Option<nat>)

  /** A deletion is commented on its LEFT side, anything else on its RIGHT side. */
  function SideFor(line: ParsedDiffLine): Side {
    if line.kind == Deletion then Left else Right
  }

  /** The number in the image of the chosen side. */
  function NumberFor(line: ParsedDiffLine): Option<nat> {
    if SideFor(line) == Left then line.oldLineNumber else line.newLineNumber
  }

  /**
   * `handleSubmitComment`: nothing while a submission is in flight, for an
   * index outside the lines, for a missing or zero line number, or without a
   * file name; otherwise the trimmed body anchored at the chosen side and
   * number, with the line's position.
   */
  function SubmitDraft(isSubmitting: bool, lines: seq<ParsedDiffLine>, index: int, body: string,
                       filename: Option<string>): (r: Option<CommentDraft>)
    ensures r.Some? <==> && !isSubmitting && 0 <= index < |lines|
                         && NumberFor(lines[index]).Some? && NumberFor(lines[index]).value != 0
                         && filename.Some? && filename.value != ""
    ensures r.Some? ==> && r.value.path == filename.value
                        && (r.value.side == Left <==> lines[index].kind == Deletion)
                        && Some(r.value.line) == NumberFor(lines[index])
                        && r.value.body == Trim(body)
                        && r.value.position == CommentPosition.PositionFor(lines, index)
  {
    if isSubmitting then None
    else
      var target := if 0 <= index < |lines| then Some(lines[index]) else None;
      var side := if target.Some? && target.value.kind == Deletion then Left else Right;
      var lineNumber := if target.None? then None
                        else if side == Left then target.value.oldLineNumber
                        else target.value.newLineNumber;
      var position := CommentPosition.PositionFor(lines, index);
      if target.None? || lineNumber.None? || lineNumber.value == 0 || filename.None? || filename.value == "" then None
      else Some(CommentDraft(filename.value, lineNumber.value, side, Trim(body), position))
  }

  /**
   * On the parser's output a draft is offered exactly for a non-header line
   * with a non-zero number on its side (given a file name and no submission
   * in flight); its number is the side's counter before the line, and its
   * position is present and leads back to the line.
   */
  lemma DraftOnParsedLines(patch: string, index: nat, body: string, filename: string)
    requires filename != "" && index < |ParsePatch.ParsePatch(patch)|
    ensures var lines := ParsePatch.ParsePatch(patch);
            var r := SubmitDraft(false, lines, index, body, Some(filename));
            && (r.Some? <==> !IsHeader(lines[index]) && NumberFor(lines[index]) != Some(0))
            && (r.Some? && r.value.side == Left ==>
                  r.value.line == ParsePatch.OldCounterAfter(lines[..index]))
            && (r.Some? && r.value.side == Right ==>
                  r.value.line == ParsePatch.NewCounterAfter(lines[..index]))
            && (r.Some? ==> r.value.position.Some?
                            && CommentPosition.IndexFor(lines, r.value.position.value) == Some(index))
  {
    var lines := ParsePatch.ParsePatch(patch);
    assert patch != "";
    ParsePatch.ParsePatchLines(patch);
    assert ParsePatch.NumberedLine(lines, index);
    if !IsHeader(lines[index]) {
      CommentPosition.IndexOfPosition(lines, index);
    }
  }
}
