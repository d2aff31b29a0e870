/** The parsed form of one unified-diff line (src/features/diff/types.ts). */
module DiffTypes {
  import opened Wrappers

  datatype DiffLineType = Addition | Deletion | Context | Header

  /**
   * One rendered diff line: its kind, its text without the leading marker,
   * and its number in the old and in the new image (None is `null`).
   */
  datatype ParsedDiffLine = ParsedDiffLine(
    kind: DiffLineType,
    content: string,
    oldLineNumber: Option<nat>,
    newLineNumber: Option<nat>)

  predicate IsHeader(line: ParsedDiffLine) {
    line.kind == Header
  }
}
