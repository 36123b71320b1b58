/** Value types shared by the loader and the reconciler: rows, break kinds,
    the comparison definition and the comparison result. */
module CsvTypes {

  /** One row of a CSV file: its composite key, its fields and its 0-based
      line index in the file. */
  datatype CsvRow = CsvRow(key: string, columns: seq<string>, rowIndex: int)

  /** The kinds of break, as the comparer uses them. `Match` is the
      default value of a fresh break record. */
  datatype BreakType =
    | Match
    | ColumnsDifferent
    | RowInReferenceNotInCandidate
    | RowInCandidateNotInReference
    | ValueMismatch
    | ProcessFailure

  /** The configuration of one comparison run. The exclusion lists hold
      regular expressions; `isMatch(input, pattern)` stands for
      `Regex.IsMatch`. An absent `ExcludedColumns` list is the empty list. */
  datatype Definition = Definition(
    delimiter: string,
    keyColumns: seq<string>,
    headerRowIndex: int,
    excludedColumns: seq<string>,
    ignoreInvalidRows: bool,
    orphanExclusions: seq<string>,
    keyExclusions: seq<string>,
    isMatch: (string, string) -> bool)

  /** True when some pattern of `patterns` matches `key`; the source scans the
      list in order and stops at the first match. */
  function AnyMatch(isMatch: (string, string) -> bool, key: string, patterns: seq<string>): (r: bool)
    ensures r <==> exists i :: 0 <= i < |patterns| && isMatch(key, patterns[i])
  {
    if patterns == [] then false
    else isMatch(key, patterns[0]) || AnyMatch(isMatch, key, patterns[1..])
  }
}
