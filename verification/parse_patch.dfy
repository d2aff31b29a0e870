/**
 * The patch parser and the language detector of
 * src/features/diff/utils/parse-patch.ts.
 */
module ParsePatch {
  import opened Wrappers
  import opened Strings
  import opened DiffTypes
  import opened LineCounters
  import opened HunkHeader

  // ---------------------------------------------------------------------------
  // The parser
  // ---------------------------------------------------------------------------

  /** The two running counters and the lines emitted so far. */
  datatype ParserState = ParserState(oldLine: nat, newLine: nat, lines: seq<ParsedDiffLine>)

  /** One iteration of the parser's loop over the `'\n'`-split pieces. */
  function Step(st: ParserState, line: string): ParserState {
    if line == "" && |st.lines| > 0 then st
    else if StartsWith(line, "@@") then
      var starts := HunkStarts(line);
      var oldLine := if starts.Some? then starts.value.0 else st.oldLine;
      var newLine := if starts.Some? then starts.value.1 else st.newLine;
      ParserState(oldLine, newLine, st.lines + [ParsedDiffLine(Header, line, None, None)])
    else if StartsWith(line, "+") then
      ParserState(st.oldLine, st.newLine + 1,
                  st.lines + [ParsedDiffLine(Addition, line[1..], None, Some(st.newLine))])
    else if StartsWith(line, "-") then
      ParserState(st.oldLine + 1, st.newLine,
                  st.lines + [ParsedDiffLine(Deletion, line[1..], Some(st.oldLine), None)])
    else
      var content := if StartsWith(line, " ") then line[1..] else line;
      ParserState(st.oldLine + 1, st.newLine + 1,
                  st.lines + [ParsedDiffLine(Context, content, Some(st.oldLine), Some(st.newLine))])
  }

  function Run(st: ParserState, pieces: seq<string>): ParserState
    decreases |pieces|
  {
    if |pieces| == 0 then st else Run(Step(st, pieces[0]), pieces[1..])
  }

  /** `parsePatch`: empty text gives no lines; otherwise the pieces are parsed in order from counters 0 and 0. */
  function ParsePatch(patch: string): (lines: seq<ParsedDiffLine>)
    ensures patch == "" ==> lines == []
  {
    if patch == "" then [] else Run(ParserState(0, 0, []), Split(patch, '\n')).lines
  }

  // ---------------------------------------------------------------------------
  // What the parser produces, stated over its output
  // ---------------------------------------------------------------------------

  /** The kind a piece yields; the branches are tried in the order `@@`, `+`, `-`, other. */
  function Classify(piece: string): DiffLineType {
    if StartsWith(piece, "@@") then Header
    else if StartsWith(piece, "+") then Addition
    else if StartsWith(piece, "-") then Deletion
    else Context
  }

  /** The text a piece yields: verbatim for a header, less its marker otherwise (one leading space for context). */
  function ContentOf(piece: string): string {
    match Classify(piece)
    case Header => piece
    case Addition => piece[1..]
    case Deletion => piece[1..]
    case Context => if StartsWith(piece, " ") then piece[1..] else piece
  }

  function NonEmpty(pieces: seq<string>): seq<string> {
    if |pieces| == 0 then []
    else (if pieces[0] == "" then [] else [pieces[0]]) + NonEmpty(pieces[1..])
  }

  /** The pieces that yield a line: the first always does, a later one exactly when it is not empty. */
  function Kept(pieces: seq<string>): seq<string>
    requires |pieces| >= 1
  {
    [pieces[0]] + NonEmpty(pieces[1..])
  }

  predicate CountsOld(line: ParsedDiffLine) {
    line.kind == Deletion || line.kind == Context
  }

  predicate CountsNew(line: ParsedDiffLine) {
    line.kind == Addition || line.kind == Context
  }

  /**
   * What a line does to the old-image counter: a recognised hunk header sets
   * it to the header's old start, a deletion or context line advances it,
   * anything else (an unrecognised `@@` line, an addition) keeps it.
   */
  function OldEffect(line: ParsedDiffLine): Effect {
    if line.kind == Header then
      (var starts := HunkStarts(line.content); if starts.Some? then SetTo(starts.value.0) else Keep)
    else if CountsOld(line) then Advance
    else Keep
  }

  /** What a line does to the new-image counter, by the same rule with additions in place of deletions. */
  function NewEffect(line: ParsedDiffLine): Effect {
    if line.kind == Header then
      (var starts := HunkStarts(line.content); if starts.Some? then SetTo(starts.value.1) else Keep)
    else if CountsNew(line) then Advance
    else Keep
  }

  function OldEffects(lines: seq<ParsedDiffLine>): (effects: seq<Effect>)
    ensures |effects| == |lines|
    ensures forall j :: 0 <= j < |lines| ==> effects[j] == OldEffect(lines[j])
  {
    if |lines| == 0 then [] else OldEffects(lines[..|lines| - 1]) + [OldEffect(lines[|lines| - 1])]
  }

  function NewEffects(lines: seq<ParsedDiffLine>): (effects: seq<Effect>)
    ensures |effects| == |lines|
    ensures forall j :: 0 <= j < |lines| ==> effects[j] == NewEffect(lines[j])
  {
    if |lines| == 0 then [] else NewEffects(lines[..|lines| - 1]) + [NewEffect(lines[|lines| - 1])]
  }

  /** The old-image counter after the given lines. */
  function OldCounterAfter(lines: seq<ParsedDiffLine>): nat {
    CounterAfter(OldEffects(lines))
  }

  /** The new-image counter after the given lines. */
  function NewCounterAfter(lines: seq<ParsedDiffLine>): nat {
    CounterAfter(NewEffects(lines))
  }

  /**
   * A line carries exactly the numbers its kind calls for, taken from the two
   * counters: none on a header, the new number on an addition, the old number
   * on a deletion, both on a context line.
   */
  predicate Numbered(line: ParsedDiffLine, oldLine: nat, newLine: nat) {
    match line.kind
    case Header => line.oldLineNumber == None && line.newLineNumber == None
    case Addition => line.oldLineNumber == None && line.newLineNumber == Some(newLine)
    case Deletion => line.oldLineNumber == Some(oldLine) && line.newLineNumber == None
    case Context => line.oldLineNumber == Some(oldLine) && line.newLineNumber == Some(newLine)
  }

  /** Line `i` is numbered from the counters after the lines before it. */
  predicate NumberedLine(lines: seq<ParsedDiffLine>, i: nat)
    requires i < |lines|
  {
    Numbered(lines[i], OldCounterAfter(lines[..i]), NewCounterAfter(lines[..i]))
  }

  predicate LineFromPiece(line: ParsedDiffLine, piece: string) {
    line.kind == Classify(piece) && line.content == ContentOf(piece)
  }

  /** The parser's loop invariant: the lines so far come from `done` one for one and the counters are up to date. */
  ghost predicate Consistent(st: ParserState, done: seq<string>) {
    && |st.lines| == |done|
    && (forall i :: 0 <= i < |done| ==> LineFromPiece(st.lines[i], done[i]))
    && (forall i :: 0 <= i < |done| ==> NumberedLine(st.lines, i))
    && st.oldLine == OldCounterAfter(st.lines)
    && st.newLine == NewCounterAfter(st.lines)
  }

  lemma OldCounterSnoc(lines: seq<ParsedDiffLine>, line: ParsedDiffLine)
    ensures OldCounterAfter(lines + [line]) == Apply(OldEffect(line), OldCounterAfter(lines))
  {
    assert OldEffects(lines + [line]) == OldEffects(lines) + [OldEffect(line)] by {
      assert (lines + [line])[..|lines|] == lines;
    }
    CounterAfterSnoc(OldEffects(lines), OldEffect(line));
  }

  lemma NewCounterSnoc(lines: seq<ParsedDiffLine>, line: ParsedDiffLine)
    ensures NewCounterAfter(lines + [line]) == Apply(NewEffect(line), NewCounterAfter(lines))
  {
    assert NewEffects(lines + [line]) == NewEffects(lines) + [NewEffect(line)] by {
      assert (lines + [line])[..|lines|] == lines;
    }
    CounterAfterSnoc(NewEffects(lines), NewEffect(line));
  }

  /** A step that does not skip appends one line, numbered from the counters before it, and applies its effects. */
  lemma StepEmits(st: ParserState, piece: string) returns (line: ParsedDiffLine)
    requires piece != "" || |st.lines| == 0
    ensures Step(st, piece).lines == st.lines + [line]
    ensures LineFromPiece(line, piece)
    ensures Numbered(line, st.oldLine, st.newLine)
    ensures Step(st, piece).oldLine == Apply(OldEffect(line), st.oldLine)
    ensures Step(st, piece).newLine == Apply(NewEffect(line), st.newLine)
  {
    line := Step(st, piece).lines[|st.lines|];
  }

  lemma StepConsistent(st: ParserState, done: seq<string>, piece: string)
    requires Consistent(st, done)
    requires piece != "" || |st.lines| == 0
    ensures Consistent(Step(st, piece), done + [piece])
  {
    var st' := Step(st, piece);
    var n := |st.lines|;
    var line := StepEmits(st, piece);
    assert st'.lines[..n] == st.lines;
    forall i | 0 <= i < n
      ensures NumberedLine(st'.lines, i)
    {
      assert st'.lines[..i] == st.lines[..i];
      assert NumberedLine(st.lines, i);
    }
    assert NumberedLine(st'.lines, n);
    assert st'.oldLine == OldCounterAfter(st'.lines) by {
      OldCounterSnoc(st.lines, line);
    }
    assert st'.newLine == NewCounterAfter(st'.lines) by {
      NewCounterSnoc(st.lines, line);
    }
  }

  lemma {:induction false} RunConsistent(st: ParserState, done: seq<string>, pieces: seq<string>)
    requires Consistent(st, done) && |st.lines| > 0
    ensures Consistent(Run(st, pieces), done + NonEmpty(pieces))
    decreases |pieces|
  {
    if |pieces| > 0 {
      var p := pieces[0];
      if p == "" {
        assert NonEmpty(pieces) == NonEmpty(pieces[1..]);
        RunConsistent(st, done, pieces[1..]);
      } else {
        StepConsistent(st, done, p);
        assert NonEmpty(pieces) == [p] + NonEmpty(pieces[1..]);
        assert done + NonEmpty(pieces) == (done + [p]) + NonEmpty(pieces[1..]);
        RunConsistent(Step(st, p), done + [p], pieces[1..]);
      }
    }
  }

  /**
   * The parser's whole behaviour: one line per kept piece, in order, each of
   * the kind and content its piece calls for and numbered from the counters.
   */
  lemma ParsePatchLines(patch: string)
    requires patch != ""
    ensures var lines := ParsePatch(patch);
            var kept := Kept(Split(patch, '\n'));
            && |lines| == |kept|
            && (forall i :: 0 <= i < |lines| ==> LineFromPiece(lines[i], kept[i]))
            && WellNumbered(lines)
  {
    var pieces := Split(patch, '\n');
    var init := ParserState(0, 0, []);
    StepConsistent(init, [], pieces[0]);
    RunConsistent(Step(init, pieces[0]), [pieces[0]], pieces[1..]);
  }

  /** The number of lines that carry an old-image number: deletions and context lines. */
  function CountOld(lines: seq<ParsedDiffLine>): nat {
    if |lines| == 0 then 0
    else CountOld(lines[..|lines| - 1]) + (if CountsOld(lines[|lines| - 1]) then 1 else 0)
  }

  /** The number of lines that carry a new-image number: additions and context lines. */
  function CountNew(lines: seq<ParsedDiffLine>): nat {
    if |lines| == 0 then 0
    else CountNew(lines[..|lines| - 1]) + (if CountsNew(lines[|lines| - 1]) then 1 else 0)
  }

  lemma {:induction false} AdvancesCountOld(lines: seq<ParsedDiffLine>)
    ensures Advances(OldEffects(lines)) == CountOld(lines)
    decreases |lines|
  {
    if |lines| > 0 {
      var e := OldEffects(lines);
      assert e[..|e| - 1] == OldEffects(lines[..|lines| - 1]);
      AdvancesCountOld(lines[..|lines| - 1]);
    }
  }

  lemma {:induction false} AdvancesCountNew(lines: seq<ParsedDiffLine>)
    ensures Advances(NewEffects(lines)) == CountNew(lines)
    decreases |lines|
  {
    if |lines| > 0 {
      var e := NewEffects(lines);
      assert e[..|e| - 1] == NewEffects(lines[..|lines| - 1]);
      AdvancesCountNew(lines[..|lines| - 1]);
    }
  }

  /** Every line carries the numbers `NumberedLine` calls for. */
  predicate WellNumbered(lines: seq<ParsedDiffLine>) {
    forall i :: 0 <= i < |lines| ==> NumberedLine(lines, i)
  }

  lemma OldEffectsSlice(lines: seq<ParsedDiffLine>, h: nat, i: nat)
    requires h <= i <= |lines|
    ensures OldEffects(lines[h..i]) == OldEffects(lines)[h..i]
  {
    var e, part := OldEffects(lines), lines[h..i];
    var a := OldEffects(part);
    assert |a| == |e[h..i]|;
    forall j | 0 <= j < i - h
      ensures a[j] == e[h..i][j]
    {
      assert a[j] == OldEffect(part[j]);
      assert part[j] == lines[h + j];
      assert e[h + j] == OldEffect(lines[h + j]);
    }
  }

  lemma NewEffectsSlice(lines: seq<ParsedDiffLine>, h: nat, i: nat)
    requires h <= i <= |lines|
    ensures NewEffects(lines[h..i]) == NewEffects(lines)[h..i]
  {
    var e, part := NewEffects(lines), lines[h..i];
    var a := NewEffects(part);
    assert |a| == |e[h..i]|;
    forall j | 0 <= j < i - h
      ensures a[j] == e[h..i][j]
    {
      assert a[j] == NewEffect(part[j]);
      assert part[j] == lines[h + j];
      assert e[h + j] == NewEffect(lines[h + j]);
    }
  }

  /** The old-image counter inside a hunk: the header's old start plus the deletions and context lines since. */
  lemma OldCounterInHunk(lines: seq<ParsedDiffLine>, h: nat, i: nat, a: nat)
    requires h < i <= |lines|
    requires lines[h].kind == Header && HunkStarts(lines[h].content).Some? && HunkStarts(lines[h].content).value.0 == a
    requires forall j :: h < j < i ==> lines[j].kind != Header
    ensures OldCounterAfter(lines[..i]) == a + CountOld(lines[h + 1..i])
  {
    var e := OldEffects(lines);
    assert OldEffects(lines[..i]) == e[..i] by {
      OldEffectsSlice(lines, 0, i);
      assert lines[0..i] == lines[..i];
    }
    assert OldEffects(lines[h + 1..i]) == e[h + 1..i] by {
      OldEffectsSlice(lines, h + 1, i);
    }
    assert e[h] == SetTo(a);
    assert forall j :: h < j < i ==> !e[j].SetTo?;
    CounterSinceStart(e, h, i, a);
    AdvancesCountOld(lines[h + 1..i]);
  }

  /** The new-image counter inside a hunk: the header's new start plus the additions and context lines since. */
  lemma NewCounterInHunk(lines: seq<ParsedDiffLine>, h: nat, i: nat, c: nat)
    requires h < i <= |lines|
    requires lines[h].kind == Header && HunkStarts(lines[h].content).Some? && HunkStarts(lines[h].content).value.1 == c
    requires forall j :: h < j < i ==> lines[j].kind != Header
    ensures NewCounterAfter(lines[..i]) == c + CountNew(lines[h + 1..i])
  {
    var e := NewEffects(lines);
    assert NewEffects(lines[..i]) == e[..i] by {
      NewEffectsSlice(lines, 0, i);
      assert lines[0..i] == lines[..i];
    }
    assert NewEffects(lines[h + 1..i]) == e[h + 1..i] by {
      NewEffectsSlice(lines, h + 1, i);
    }
    assert e[h] == SetTo(c);
    assert forall j :: h < j < i ==> !e[j].SetTo?;
    CounterSinceStart(e, h, i, c);
    AdvancesCountNew(lines[h + 1..i]);
  }

  /**
   * Within one hunk `@@ -a,b +c,d @@` of well-numbered lines the old numbers
   * of its deletion and context lines run consecutively from `a`, and the
   * new numbers of its addition and context lines from `c`.
   */
  lemma HunkNumbering(lines: seq<ParsedDiffLine>, h: nat, i: nat, a: nat, c: nat)
    requires WellNumbered(lines)
    requires h < i < |lines|
    requires lines[h].kind == Header && HunkStarts(lines[h].content) == Some((a, c))
    requires forall j :: h < j <= i ==> lines[j].kind != Header
    ensures CountsOld(lines[i]) ==> lines[i].oldLineNumber == Some(a + CountOld(lines[h + 1..i]))
    ensures CountsNew(lines[i]) ==> lines[i].newLineNumber == Some(c + CountNew(lines[h + 1..i]))
  {
    assert NumberedLine(lines, i);
    OldCounterInHunk(lines, h, i, a);
    NewCounterInHunk(lines, h, i, c);
  }

  /** The numbering of one hunk, for the output of `parsePatch`. */
  lemma ParsePatchHunkNumbering(patch: string, h: nat, i: nat, a: nat, c: nat)
    requires patch != ""
    requires h < i < |ParsePatch(patch)|
    requires ParsePatch(patch)[h].kind == Header && HunkStarts(ParsePatch(patch)[h].content) == Some((a, c))
    requires forall j :: h < j <= i ==> ParsePatch(patch)[j].kind != Header
    ensures var line := ParsePatch(patch)[i];
            && (CountsOld(line) ==> line.oldLineNumber == Some(a + CountOld(ParsePatch(patch)[h + 1..i])))
            && (CountsNew(line) ==> line.newLineNumber == Some(c + CountNew(ParsePatch(patch)[h + 1..i])))
  {
    var lines := ParsePatch(patch);
    assert WellNumbered(lines) by {
      ParsePatchLines(patch);
    }
    HunkNumbering(lines, h, i, a, c);
  }
}
