/** The row logic of CSVComparer.LoadFile without the file stream: lines
    are split into fields, the header fixes the key and excluded columns,
    and every row from the header on becomes a CsvRow with its composite
    key. */
module Loader {
  import opened Wrappers
  import opened CsvTypes
  import opened Tokenizer
  import opened TokenizerFacts

  /** The exceptions the loop body can throw; LoadFile's catch turns each
      into a ProcessFailure break. */
  datatype LoadError =
    | KeyColumnsNotFound   // ComparisonException from GetKeyIndexes
    | KeyIndexOutOfRange   // IndexOutOfRangeException: a key index past a short row
    | SplitOutOfRange      // ArgumentOutOfRangeException from SplitStringWithQuotes

  /** Stand-ins for `ex.Message`: the comparer's own text for a missing key
      column and the runtime's default text for an index past the end of an
      array. Substring's ArgumentOutOfRangeException names the argument that
      failed, which the model does not track, so the generic text of that
      exception type stands in for it. */
  function Message(e: LoadError): string {
    match e
    case KeyColumnsNotFound => "No columns match the key columns defined in configuration"
    case KeyIndexOutOfRange => "Index was outside the bounds of the array."
    case SplitOutOfRange => "Specified argument was out of the range of valid values."
  }

  // ---------------------------------------------------------------------
  // Splitting a line
  // ---------------------------------------------------------------------

  /** The loader splits with the quote-aware splitter only for a
      one-character delimiter on a line holding a quote, and with String.Split
      otherwise. */
  function SplitLine(line: string, delimiter: string): SplitOutcome {
    if |delimiter| == 1 && IndexOfQuote(line, 0) > -1 then SplitSpec(line, delimiter, 1)
    else Columns(SplitOn(line, delimiter))
  }

  /** The split of `line` returns (the closing-quote search does not loop). */
  predicate Splits(line: string, delimiter: string) {
    SplitLine(line, delimiter) != NoTermination
  }

  /** `line.Split` or `SplitStringWithQuotes(line)`, as the loader chooses. */
  method SplitColumns(line: string, delimiter: string) returns (r: Option<seq<string>>)
    requires Splits(line, delimiter)
    ensures r.None? <==> SplitLine(line, delimiter) == ArgumentOutOfRange
    ensures r.Some? ==> SplitLine(line, delimiter) == Columns(r.value)
  {
    if |delimiter| == 1 && IndexOfQuote(line, 0) > -1 {
      r := SplitStringWithQuotes(line, delimiter);
    } else {
      r := Some(SplitOn(line, delimiter));
    }
  }

  // ---------------------------------------------------------------------
  // GetKeyIndexes and GetExcludedColumns
  // ---------------------------------------------------------------------

  /** The indices below `n` whose header name is a key column, ascending. */
  function KeyIndexesUpTo(header: seq<string>, keyColumns: seq<string>, n: nat): seq<nat>
    requires n <= |header|
  {
    if n == 0 then []
    else KeyIndexesUpTo(header, keyColumns, n - 1) + (if header[n - 1] in keyColumns then [n - 1] else [])
  }

  /** GetKeyIndexes: the key-column indices of the header, or the
      ComparisonException when key columns are configured and none matches. */
  function KeyIndexes(header: seq<string>, keyColumns: seq<string>): Result<seq<nat>, LoadError> {
    var found := KeyIndexesUpTo(header, keyColumns, |header|);
    if |keyColumns| > 0 && found == [] then Err(KeyColumnsNotFound) else Ok(found)
  }

  predicate StrictlyIncreasing(s: seq<nat>) {
    forall a, b :: 0 <= a < b < |s| ==> s[a] < s[b]
  }

  /** The indices found are ascending and are exactly the header positions
      below `n` that hold a key column name. */
  lemma {:induction false} KeyIndexesUpToMeaning(header: seq<string>, keyColumns: seq<string>, n: nat)
    requires n <= |header|
    ensures var r := KeyIndexesUpTo(header, keyColumns, n);
      && StrictlyIncreasing(r)
      && (forall m :: 0 <= m < |r| ==> r[m] < n)
      && (forall j :: 0 <= j < n ==> (j in r <==> header[j] in keyColumns))
  {
    if n > 0 {
      KeyIndexesUpToMeaning(header, keyColumns, n - 1);
    }
  }

  /** GetKeyIndexes fails exactly when key columns are configured and no
      header name is one of them; otherwise it returns, ascending, every
      header index holding a key column name. */
  lemma KeyIndexesMeaning(header: seq<string>, keyColumns: seq<string>)
    ensures KeyIndexes(header, keyColumns).Err?
        <==> |keyColumns| > 0 && forall j :: 0 <= j < |header| ==> header[j] !in keyColumns
    ensures KeyIndexes(header, keyColumns).Ok? ==>
      var r := KeyIndexes(header, keyColumns).value;
      && StrictlyIncreasing(r) && (forall m :: 0 <= m < |r| ==> r[m] < |header|)
      && (forall j :: 0 <= j < |header| ==> (j in r <==> header[j] in keyColumns))
  {
    KeyIndexesUpToMeaning(header, keyColumns, |header|);
    KeyIndexesNone(header, keyColumns);
  }

  /** No index is found exactly when no header name is a key column. */
  lemma KeyIndexesNone(header: seq<string>, keyColumns: seq<string>)
    ensures KeyIndexesUpTo(header, keyColumns, |header|) == []
        <==> forall j :: 0 <= j < |header| ==> header[j] !in keyColumns
  {
    var r := KeyIndexesUpTo(header, keyColumns, |header|);
    KeyIndexesUpToMeaning(header, keyColumns, |header|);
    if r != [] {
      assert r[0] in r;
    }
  }

  method GetKeyIndexes(header: seq<string>, keyColumns: seq<string>) returns (r: Result<seq<nat>, LoadError>)
    ensures r == KeyIndexes(header, keyColumns)
  {
    var keyIndexes: seq<nat> := [];
    for columnIndex := 0 to |header|
      invariant keyIndexes == KeyIndexesUpTo(header, keyColumns, columnIndex)
    {
      if header[columnIndex] in keyColumns {
        keyIndexes := keyIndexes + [columnIndex];
      }
    }
    if |keyColumns| > 0 && |keyIndexes| == 0 {
      return Err(KeyColumnsNotFound);
    }
    r := Ok(keyIndexes);
  }

  /** GetExcludedColumns: the header indices whose name is an excluded column. */
  method GetExcludedColumns(header: seq<string>, excludedColumns: seq<string>) returns (r: set<nat>)
    ensures forall j: nat :: j in r <==> j < |header| && header[j] in excludedColumns
  {
    r := {};
    for columnIndex := 0 to |header|
      invariant forall j: nat :: j in r <==> j < columnIndex && header[j] in excludedColumns
    {
      if header[columnIndex] in excludedColumns {
        r := r + {columnIndex};
      }
    }
  }

  /** The set GetExcludedColumns builds. */
  function ExcludedColumnSet(header: seq<string>, excludedColumns: seq<string>): set<nat> {
    set j: nat | j < |header| && header[j] in excludedColumns
  }

  // ---------------------------------------------------------------------
  // The composite key
  // ---------------------------------------------------------------------

  /** `s.TrimStart(c)`. */
  function TrimStart(s: string, c: char): string
    decreases |s|
  {
    if s != [] && s[0] == c then TrimStart(s[1..], c) else s
  }

  /** TrimStart drops the longest run of `c` at the front. */
  lemma {:induction false} TrimStartMeaning(s: string, c: char)
    ensures var r := TrimStart(s, c);
      && |r| <= |s| && r == s[|s| - |r|..]
      && (r == [] || r[0] != c)
      && forall k :: 0 <= k < |s| - |r| ==> s[k] == c
    decreases |s|
  {
    if s != [] && s[0] == c {
      TrimStartMeaning(s[1..], c);
    }
  }

  /** `s.TrimEnd(c)`. */
  function TrimEnd(s: string, c: char): string
    decreases |s|
  {
    if s != [] && s[|s| - 1] == c then TrimEnd(s[..|s| - 1], c) else s
  }

  /** TrimEnd drops the longest run of `c` at the back. */
  lemma {:induction false} TrimEndMeaning(s: string, c: char)
    ensures var r := TrimEnd(s, c);
      && |r| <= |s| && r == s[..|r|]
      && (r == [] || r[|r| - 1] != c)
      && forall k :: |r| <= k < |s| ==> s[k] == c
    decreases |s|
  {
    if s != [] && s[|s| - 1] == c {
      TrimEndMeaning(s[..|s| - 1], c);
    }
  }

  /** `s.Trim(c)`: every leading and trailing `c` removed. */
  function Trim(s: string, c: char): string {
    TrimEnd(TrimStart(s, c), c)
  }

  /** Trim keeps the middle slice of `s` that neither starts nor ends with
      `c`, cutting only runs of `c` at both ends. */
  lemma TrimMeaning(s: string, c: char)
    ensures var r := Trim(s, c); var a := |s| - |TrimStart(s, c)|;
      && (r == [] || (r[0] != c && r[|r| - 1] != c))
      && 0 <= a && a + |r| <= |s| && r == s[a..a + |r|]
      && (forall k :: 0 <= k < a ==> s[k] == c)
      && (forall k :: a + |r| <= k < |s| ==> s[k] == c)
  {
    var t := TrimStart(s, c);
    var r := TrimEnd(t, c);
    TrimStartMeaning(s, c);
    TrimEndMeaning(t, c);
    if r != [] {
      assert r[0] == t[0];
    }
    TrimSlice(s, t, r, c);
  }

  lemma TrimSlice(s: string, t: string, r: string, c: char)
    requires |t| <= |s| && t == s[|s| - |t|..]
    requires |r| <= |t| && r == t[..|r|] && forall k :: |r| <= k < |t| ==> t[k] == c
    ensures var a := |s| - |t|;
      && r == s[a..a + |r|] && forall k :: a + |r| <= k < |s| ==> s[k] == c
  {
    var a := |s| - |t|;
    forall k | a + |r| <= k < |s| ensures s[k] == c {
      assert s[k] == t[k - a];
    }
  }

  /** The text the key loop builds: each value followed by ':'. */
  function KeyText(values: seq<string>): string {
    if values == [] then "" else KeyText(values[..|values| - 1]) + values[|values| - 1] + ":"
  }

  /** The values of `columns` at the key indices, in key-index order. */
  function KeyValues(columns: seq<string>, keyIndexes: seq<nat>): seq<string>
    requires forall m :: 0 <= m < |keyIndexes| ==> keyIndexes[m] < |columns|
  {
    seq(|keyIndexes|, m requires 0 <= m < |keyIndexes| => columns[keyIndexes[m]])
  }

  /** The key of a row: the key values joined and trimmed of ':'. */
  function RowKey(values: seq<string>): string {
    Trim(KeyText(values), ':')
  }

  /** The key loop and the trim of LoadFile; the IndexOutOfRangeException
      when a key index is past the end of the row. */
  method BuildKey(columns: seq<string>, keyIndexes: seq<nat>) returns (r: Result<string, LoadError>)
    ensures r.Err? <==> exists m :: 0 <= m < |keyIndexes| && keyIndexes[m] >= |columns|
    ensures r.Err? ==> r.error == KeyIndexOutOfRange
    ensures r.Ok? ==> r.value == RowKey(KeyValues(columns, keyIndexes))
  {
    var key := "";
    for m := 0 to |keyIndexes|
      invariant forall t :: 0 <= t < m ==> keyIndexes[t] < |columns|
      invariant key == KeyText(seq(m, t requires 0 <= t < m => columns[keyIndexes[t]]))
    {
      var index := keyIndexes[m];
      if index >= |columns| {
        return Err(KeyIndexOutOfRange);
      }
      ghost var before := seq(m, t requires 0 <= t < m => columns[keyIndexes[t]]);
      ghost var after := seq(m + 1, t requires 0 <= t < m + 1 => columns[keyIndexes[t]]);
      assert after[..m] == before;
      key := key + columns[index] + ":";
    }
    assert seq(|keyIndexes|, t requires 0 <= t < |keyIndexes| => columns[keyIndexes[t]]) == KeyValues(columns, keyIndexes);
    r := Ok(Trim(key, ':'));
  }

  /** The key text is the values joined with ':', plus a final ':'. */
  lemma {:induction false} KeyTextJoin(values: seq<string>)
    requires values != []
    ensures KeyText(values) == Join(values, ":") + ":"
    decreases |values|
  {
    if |values| > 1 {
      var init := values[..|values| - 1];
      KeyTextJoin(init);
      JoinSnoc(init, values[|values| - 1], ":");
      assert init + [values[|values| - 1]] == values;
    }
  }

  /** Join of one more field at the end. */
  lemma {:induction false} JoinSnoc(values: seq<string>, v: string, d: string)
    requires values != []
    ensures Join(values + [v], d) == Join(values, d) + d + v
    decreases |values|
  {
    if |values| > 1 {
      JoinSnoc(values[1..], v, d);
      assert (values + [v])[1..] == values[1..] + [v];
    } else {
      assert (values + [v])[1..] == [v];
    }
  }

  /** Join begins with the first field and ends with the last. */
  lemma {:induction false} JoinEnds(values: seq<string>, d: string)
    requires values != []
    ensures var j := Join(values, d);
      && |values[0]| <= |j| && j[..|values[0]|] == values[0]
      && |values[|values| - 1]| <= |j| && j[|j| - |values[|values| - 1]|..] == values[|values| - 1]
    decreases |values|
  {
    if |values| > 1 {
      JoinEnds(values[1..], d);
      var j := Join(values, d);
      var rest := Join(values[1..], d);
      assert j == values[0] + d + rest;
      assert j[..|values[0]|] == values[0];
      assert values[1..][|values[1..]| - 1] == values[|values| - 1];
      assert j[|j| - |values[|values| - 1]|..] == rest[|rest| - |values[|values| - 1]|..];
    }
  }

  /** When the first and last key values are non-empty and no key value
      holds ':', the key is the values joined with ':' and splitting it on
      ':' gives the values back, so such keys are equal only for equal
      values. */
  lemma RowKeyRoundTrip(values: seq<string>)
    requires values != [] && values[0] != [] && values[|values| - 1] != []
    requires forall m :: 0 <= m < |values| ==> CharFree(values[m], ':')
    ensures RowKey(values) == Join(values, ":")
    ensures SplitOn(RowKey(values), ":") == values
  {
    var j := Join(values, ":");
    var t := j + ":";
    assert KeyText(values) == t by { KeyTextJoin(values); }
    assert j != [] && j[0] != ':' && j[|j| - 1] != ':' by {
      JoinEnds(values, ":");
      var last := values[|values| - 1];
      assert j[0] == values[0][0];
      assert j[|j| - 1] == last[|last| - 1];
    }
    TrimOneTrailing(j, ':');
    assert [':'] == ":";
    JoinSplit(values, ':');
  }

  /** Trimming `c` from a text that neither starts nor ends with `c`,
      followed by one `c`, gives the text back. */
  lemma TrimOneTrailing(j: string, c: char)
    requires j != [] && j[0] != c && j[|j| - 1] != c
    ensures Trim(j + [c], c) == j
  {
    var t := j + [c];
    assert TrimStart(t, c) == t by { assert t[0] == j[0]; }
    assert t[..|t| - 1] == j;
    assert TrimEnd(j, c) == j;
  }

  /** Two rows whose key values meet RowKeyRoundTrip's conditions have the
      same key only when their key values are equal. */
  lemma RowKeyInjective(a: seq<string>, b: seq<string>)
    requires a != [] && a[0] != [] && a[|a| - 1] != []
    requires b != [] && b[0] != [] && b[|b| - 1] != []
    requires forall m :: 0 <= m < |a| ==> CharFree(a[m], ':')
    requires forall m :: 0 <= m < |b| ==> CharFree(b[m], ':')
    requires RowKey(a) == RowKey(b)
    ensures a == b
  {
    RowKeyRoundTrip(a);
    RowKeyRoundTrip(b);
  }

  // ---------------------------------------------------------------------
  // The loader's loop
  // ---------------------------------------------------------------------

  /** LoadFile's local variables between lines. */
  datatype LoaderState = LoaderState(
    dataRow: bool,
    expectedColumnCount: nat,
    keyIndexes: seq<nat>,
    rows: seq<CsvRow>,
    excluded: Option<set<nat>>)

  const Start := LoaderState(false, 0, [], [], None)

  /** What one loader produces: the rows it enqueued in order, the excluded
      columns it resolved from its header (if it reached it), and the
      exception that ended it, if any. */
  datatype LoadResult = LoadResult(rows: seq<CsvRow>, excluded: Option<set<nat>>, failure: Option<LoadError>)

  /** The part of the loop body after the header handling: a data row of the
      expected width (or any width unless invalid rows are ignored) is
      enqueued with its key. */
  function RowStep(def: Definition, columns: seq<string>, rowIndex: nat, st: LoaderState): Result<LoaderState, LoadError> {
    if st.dataRow && (|columns| == st.expectedColumnCount || !def.ignoreInvalidRows) then
      if forall m :: 0 <= m < |st.keyIndexes| ==> st.keyIndexes[m] < |columns| then
        Ok(st.(rows := st.rows + [CsvRow(RowKey(KeyValues(columns, st.keyIndexes)), columns, rowIndex)]))
      else Err(KeyIndexOutOfRange)
    else Ok(st)
  }

  /** One iteration of LoadFile's loop on line `rowIndex`, whose split is `split`. */
  function LoadStep(def: Definition, split: SplitOutcome, rowIndex: nat, st: LoaderState): Result<LoaderState, LoadError>
    requires split != NoTermination
  {
    match split
    case ArgumentOutOfRange => Err(SplitOutOfRange)
    case Columns(columns) =>
      if rowIndex == def.headerRowIndex then
        match KeyIndexes(columns, def.keyColumns)
        case Err(e) => Err(e)
        case Ok(found) =>
          RowStep(def, columns, rowIndex,
                  st.(keyIndexes := st.keyIndexes + found, expectedColumnCount := |columns|, dataRow := true,
                      excluded := Some(ExcludedColumnSet(columns, def.excludedColumns))))
      else RowStep(def, columns, rowIndex, st)
  }

  predicate AllSplit(def: Definition, lines: seq<string>) {
    forall i :: 0 <= i < |lines| ==> Splits(lines[i], def.delimiter)
  }

  /** The split of every line of the file. */
  function SplitAll(def: Definition, lines: seq<string>): (r: seq<SplitOutcome>)
    ensures |r| == |lines| && forall i :: 0 <= i < |lines| ==> r[i] == SplitLine(lines[i], def.delimiter)
  {
    seq(|lines|, i requires 0 <= i < |lines| => SplitLine(lines[i], def.delimiter))
  }

  predicate Returns(splits: seq<SplitOutcome>) {
    forall i :: 0 <= i < |splits| ==> splits[i] != NoTermination
  }

  /** LoadFile's loop from line `i` on, given the split of every line. */
  function LoadFrom(def: Definition, splits: seq<SplitOutcome>, i: nat, st: LoaderState): LoadResult
    requires i <= |splits| && Returns(splits)
    decreases |splits| - i
  {
    if i == |splits| then LoadResult(st.rows, st.excluded, None)
    else match LoadStep(def, splits[i], i, st)
      case Err(e) => LoadResult(st.rows, st.excluded, Some(e))
      case Ok(next) => LoadFrom(def, splits, i + 1, next)
  }

  /** What LoadFile produces from the lines of a file. */
  function Load(def: Definition, lines: seq<string>): LoadResult
    requires AllSplit(def, lines)
  {
    LoadFrom(def, SplitAll(def, lines), 0, Start)
  }

  /** The body of LoadFile's loop on line `rowIndex`: split the line, handle
      the header, enqueue a data row. */
  method LoadLine(def: Definition, line: string, rowIndex: nat, st: LoaderState)
    returns (r: Result<LoaderState, LoadError>)
    requires Splits(line, def.delimiter)
    ensures r == LoadStep(def, SplitLine(line, def.delimiter), rowIndex, st)
  {
    var split := SplitColumns(line, def.delimiter);
    if split.None? {
      return Err(SplitOutOfRange);
    }
    var columns := split.value;
    var next := st;
    if rowIndex == def.headerRowIndex {
      var found := GetKeyIndexes(columns, def.keyColumns);
      if found.Err? {
        return Err(found.error);
      }
      var excludedColumns := GetExcludedColumns(columns, def.excludedColumns);
      assert excludedColumns == ExcludedColumnSet(columns, def.excludedColumns);
      next := next.(keyIndexes := next.keyIndexes + found.value, expectedColumnCount := |columns|,
                    dataRow := true, excluded := Some(excludedColumns));
    }
    assert LoadStep(def, SplitLine(line, def.delimiter), rowIndex, st) == RowStep(def, columns, rowIndex, next);
    if next.dataRow && (|columns| == next.expectedColumnCount || !def.ignoreInvalidRows) {
      var key := BuildKey(columns, next.keyIndexes);
      if key.Err? {
        return Err(key.error);
      }
      next := next.(rows := next.rows + [CsvRow(key.value, columns, rowIndex)]);
    }
    r := Ok(next);
  }

  /** LoadFile without the stream: the loop over the lines, stopping at the
      first exception. */
  method LoadFile(def: Definition, lines: seq<string>) returns (result: LoadResult)
    requires AllSplit(def, lines)
    ensures result == Load(def, lines)
  {
    ghost var splits := SplitAll(def, lines);
    var rowIndex: nat := 0;
    var st := Start;
    while rowIndex < |lines|
      invariant rowIndex <= |lines|
      invariant LoadFrom(def, splits, rowIndex, st) == Load(def, lines)
      decreases |lines| - rowIndex
    {
      var step := LoadLine(def, lines[rowIndex], rowIndex, st);
      if step.Err? {
        return LoadResult(st.rows, st.excluded, Some(step.error));
      }
      st := step.value;
      rowIndex := rowIndex + 1;
    }
    result := LoadResult(st.rows, st.excluded, None);
  }

  // ---------------------------------------------------------------------
  // What the loader enqueues
  // ---------------------------------------------------------------------

  /** The line index of each row. */
  function RowIndexes(rows: seq<CsvRow>): (r: seq<int>)
    ensures |r| == |rows| && forall k :: 0 <= k < |rows| ==> r[k] == rows[k].rowIndex
  {
    seq(|rows|, k requires 0 <= k < |rows| => rows[k].rowIndex)
  }

  /** Line `i` is kept as a row: it splits, and its width is the header's
      unless invalid rows are not ignored. */
  predicate Kept(def: Definition, splits: seq<SplitOutcome>, width: nat, i: nat)
    requires i < |splits|
  {
    splits[i].Columns? && (!def.ignoreInvalidRows || |splits[i].fields| == width)
  }

  /** The indices in [i, |splits|) of the kept lines, ascending. */
  function KeptFrom(def: Definition, splits: seq<SplitOutcome>, width: nat, i: nat): seq<int>
    requires i <= |splits|
    decreases |splits| - i
  {
    if i == |splits| then [] else (if Kept(def, splits, width, i) then [i] else []) + KeptFrom(def, splits, width, i + 1)
  }

  /** A row as the loader builds it: its fields are the split of its line and
      its key is built from the values at the key indices. */
  predicate RowOfLine(splits: seq<SplitOutcome>, keyIndexes: seq<nat>, row: CsvRow) {
    && 0 <= row.rowIndex < |splits|
    && splits[row.rowIndex] == Columns(row.columns)
    && (forall m :: 0 <= m < |keyIndexes| ==> keyIndexes[m] < |row.columns|)
    && row.key == RowKey(KeyValues(row.columns, keyIndexes))
  }

  /** One line after the header: an Ok step appends the line's row exactly
      when the line is kept. */
  lemma AfterHeaderStep(def: Definition, splits: seq<SplitOutcome>, i: nat, st: LoaderState)
    requires Returns(splits) && i < |splits|
    requires st.dataRow && def.headerRowIndex < i
    requires LoadStep(def, splits[i], i, st).Ok?
    ensures var next := LoadStep(def, splits[i], i, st).value;
      && next == st.(rows := next.rows)
      && if Kept(def, splits, st.expectedColumnCount, i)
         then |next.rows| == |st.rows| + 1 && next.rows[..|st.rows|] == st.rows
              && next.rows[|st.rows|].rowIndex == i && RowOfLine(splits, st.keyIndexes, next.rows[|st.rows|])
         else next.rows == st.rows
  {
  }

  /** After the header the loop keeps the rows already enqueued and adds
      only rows built from lines at or after `i`. */
  lemma {:induction false} LoadAfterHeader(def: Definition, splits: seq<SplitOutcome>, i: nat, st: LoaderState)
    requires Returns(splits) && i <= |splits|
    requires st.dataRow && def.headerRowIndex < i
    ensures var res := LoadFrom(def, splits, i, st);
      && |st.rows| <= |res.rows| && res.rows[..|st.rows|] == st.rows
      && res.excluded == st.excluded
      && (forall k :: |st.rows| <= k < |res.rows| ==>
            i <= res.rows[k].rowIndex && RowOfLine(splits, st.keyIndexes, res.rows[k]))
    decreases |splits| - i
  {
    if i < |splits| {
      var step := LoadStep(def, splits[i], i, st);
      if step.Ok? {
        var next := step.value;
        AfterHeaderStep(def, splits, i, st);
        LoadAfterHeader(def, splits, i + 1, next);
        var res := LoadFrom(def, splits, i + 1, next);
        var kept := Kept(def, splits, st.expectedColumnCount, i);
        CombineRows(splits, st.keyIndexes, st.rows, next.rows, res.rows, i, kept);
      }
    }
  }

  /** After the header, a loop that ends without exception adds exactly the
      kept lines, in file order. */
  lemma {:induction false} LoadAfterHeaderKept(def: Definition, splits: seq<SplitOutcome>, i: nat, st: LoaderState)
    requires Returns(splits) && i <= |splits|
    requires st.dataRow && def.headerRowIndex < i
    ensures var res := LoadFrom(def, splits, i, st);
      res.failure.None? ==>
        RowIndexes(res.rows) == RowIndexes(st.rows) + KeptFrom(def, splits, st.expectedColumnCount, i)
    decreases |splits| - i
  {
    if i < |splits| {
      var step := LoadStep(def, splits[i], i, st);
      if step.Ok? {
        var next := step.value;
        AfterHeaderStep(def, splits, i, st);
        LoadAfterHeaderKept(def, splits, i + 1, next);
        if Kept(def, splits, st.expectedColumnCount, i) {
          assert RowIndexes(next.rows) == RowIndexes(st.rows) + [i];
        } else {
          assert RowIndexes(next.rows) == RowIndexes(st.rows);
        }
      }
    }
  }

  /** The rows of one step followed by the rows of the rest of the loop. */
  lemma CombineRows(splits: seq<SplitOutcome>, keyIndexes: seq<nat>,
                    rows0: seq<CsvRow>, rows1: seq<CsvRow>, rows2: seq<CsvRow>, i: nat, kept: bool)
    requires kept ==> |rows1| == |rows0| + 1 && rows1[..|rows0|] == rows0
                      && rows1[|rows0|].rowIndex == i && RowOfLine(splits, keyIndexes, rows1[|rows0|])
    requires !kept ==> rows1 == rows0
    requires |rows1| <= |rows2| && rows2[..|rows1|] == rows1
    requires forall k :: |rows1| <= k < |rows2| ==> i + 1 <= rows2[k].rowIndex && RowOfLine(splits, keyIndexes, rows2[k])
    ensures |rows0| <= |rows2| && rows2[..|rows0|] == rows0
    ensures forall k :: |rows0| <= k < |rows2| ==> i <= rows2[k].rowIndex && RowOfLine(splits, keyIndexes, rows2[k])
  {
    assert rows2[..|rows0|] == rows2[..|rows1|][..|rows0|];
    if kept {
      assert rows2[|rows0|] == rows1[|rows0|];
    }
  }

  /** Before the header nothing is enqueued: the loop either fails on a line
      that does not split, or reaches the header, or, when the header index
      is outside the file, ends with no row. */
  lemma {:induction false} LoadBeforeHeader(def: Definition, splits: seq<SplitOutcome>, i: nat, st: LoaderState)
    requires Returns(splits) && i <= |splits|
    requires !st.dataRow && st.rows == [] && st.excluded.None?
    requires def.headerRowIndex < 0 || i <= def.headerRowIndex
    ensures var res := LoadFrom(def, splits, i, st);
      || (res.failure.Some? && res.rows == [] && res.excluded.None?)
      || (0 <= def.headerRowIndex < |splits| && res == LoadFrom(def, splits, def.headerRowIndex, st))
      || (!(0 <= def.headerRowIndex < |splits|) && res.rows == [] && res.excluded.None?)
    decreases |splits| - i
  {
    if i < |splits| && i != def.headerRowIndex {
      var step := LoadStep(def, splits[i], i, st);
      if step.Ok? {
        assert step.value == st;
        LoadBeforeHeader(def, splits, i + 1, st);
      }
    }
  }

  /** The loader's output, given the split of every line. Rows before
      HeaderRowIndex are never enqueued, and no row at all when the header
      index is outside the file. Otherwise, when no exception ends the load,
      the header resolves the key indices and the excluded columns, and the
      rows are the kept lines from the header on in file order (the header
      itself first), each holding the split of its line and the key built
      from it. */
  lemma {:induction false} LoadFromStart(def: Definition, splits: seq<SplitOutcome>)
    requires Returns(splits)
    ensures var res := LoadFrom(def, splits, 0, Start);
      && (!(0 <= def.headerRowIndex < |splits|) ==> res.rows == [] && res.excluded.None?)
      && (0 <= def.headerRowIndex < |splits| && res.failure.None? ==> HeaderLoaded(def, splits, res))
  {
    LoadBeforeHeader(def, splits, 0, Start);
    if 0 <= def.headerRowIndex < |splits| {
      LoadFromHeader(def, splits);
    }
  }

  /** What a load that reaches the header without exception holds: the
      header splits and resolves the key indices, the excluded columns are
      the header's, and the rows are the kept lines from the header on. */
  ghost predicate HeaderLoaded(def: Definition, splits: seq<SplitOutcome>, res: LoadResult)
    requires 0 <= def.headerRowIndex < |splits|
  {
    var h := def.headerRowIndex;
    && splits[h].Columns?
    && var header := splits[h].fields;
    && KeyIndexes(header, def.keyColumns).Ok?
    && res.excluded == Some(ExcludedColumnSet(header, def.excludedColumns))
    && RowIndexes(res.rows) == KeptFrom(def, splits, |header|, h)
    && forall k :: 0 <= k < |res.rows| ==>
         h <= res.rows[k].rowIndex && RowOfLine(splits, KeyIndexes(header, def.keyColumns).value, res.rows[k])
  }

  /** The header line: an Ok step resolves the key indices and the excluded
      columns from the header's fields and enqueues the header as the first
      row. */
  lemma {:induction false} HeaderStep(def: Definition, splits: seq<SplitOutcome>)
    requires Returns(splits) && 0 <= def.headerRowIndex < |splits|
    requires LoadStep(def, splits[def.headerRowIndex], def.headerRowIndex, Start).Ok?
    ensures var h := def.headerRowIndex;
      var next := LoadStep(def, splits[h], h, Start).value;
      && splits[h].Columns?
      && KeyIndexes(splits[h].fields, def.keyColumns).Ok?
      && next.dataRow
      && next.keyIndexes == KeyIndexes(splits[h].fields, def.keyColumns).value
      && next.expectedColumnCount == |splits[h].fields|
      && next.excluded == Some(ExcludedColumnSet(splits[h].fields, def.excludedColumns))
      && |next.rows| == 1 && next.rows[0].rowIndex == h
      && RowOfLine(splits, next.keyIndexes, next.rows[0])
  {
    var h := def.headerRowIndex;
    var header := splits[h].fields;
    var found := KeyIndexes(header, def.keyColumns).value;
    var st := Start.(keyIndexes := found, expectedColumnCount := |header|, dataRow := true,
                     excluded := Some(ExcludedColumnSet(header, def.excludedColumns)));
    assert [] + found == found;
    assert LoadStep(def, splits[h], h, Start) == RowStep(def, header, h, st);
  }

  /** The loop from the header line on, starting from the initial state. */
  lemma {:induction false} LoadFromHeader(def: Definition, splits: seq<SplitOutcome>)
    requires Returns(splits) && 0 <= def.headerRowIndex < |splits|
    ensures var res := LoadFrom(def, splits, def.headerRowIndex, Start);
      res.failure.None? ==> HeaderLoaded(def, splits, res)
  {
    var h := def.headerRowIndex;
    var step := LoadStep(def, splits[h], h, Start);
    if step.Ok? {
      HeaderStep(def, splits);
      var next := step.value;
      assert RowIndexes(next.rows) == [h];
      KeptHeader(def, splits, next.expectedColumnCount, h);
      LoadAfterHeader(def, splits, h + 1, next);
      LoadAfterHeaderKept(def, splits, h + 1, next);
      var res := LoadFrom(def, splits, h + 1, next);
      CombineRows(splits, next.keyIndexes, [], next.rows, res.rows, h, true);
    }
  }

  /** A header line that splits is kept. */
  lemma KeptHeader(def: Definition, splits: seq<SplitOutcome>, width: nat, h: nat)
    requires h < |splits| && splits[h].Columns? && |splits[h].fields| == width
    ensures KeptFrom(def, splits, width, h) == [h] + KeptFrom(def, splits, width, h + 1)
  {
  }

  /** LoadFromStart for the lines of a file. */
  lemma LoadMeaning(def: Definition, lines: seq<string>)
    requires AllSplit(def, lines)
    ensures var res := Load(def, lines); var splits := SplitAll(def, lines);
      && (!(0 <= def.headerRowIndex < |lines|) ==> res.rows == [] && res.excluded.None?)
      && (0 <= def.headerRowIndex < |lines| && res.failure.None? ==>
            && SplitLine(lines[def.headerRowIndex], def.delimiter).Columns?
            && HeaderLoaded(def, splits, res))
  {
    LoadFromStart(def, SplitAll(def, lines));
  }

  /** Without IgnoreInvalidRows every line that splits is kept: a load that
      ends without exception enqueues every line from the header on. */
  lemma {:induction false} KeptFromAll(def: Definition, splits: seq<SplitOutcome>, width: nat, i: nat)
    requires i <= |splits| && !def.ignoreInvalidRows
    requires forall j :: i <= j < |splits| ==> splits[j].Columns?
    ensures KeptFrom(def, splits, width, i) == seq(|splits| - i, k => i + k)
    decreases |splits| - i
  {
    if i < |splits| {
      KeptFromAll(def, splits, width, i + 1);
      assert seq(|splits| - i, k => i + k) == [i] + seq(|splits| - (i + 1), k => i + 1 + k);
    }
  }
}
