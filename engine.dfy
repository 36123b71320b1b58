/** The reconciler of CSVComparer as functions over its state: the row
    queues the loaders fill, the orphan dictionaries, the breaks, the
    one-shot header check and the early-terminate flag. The threads are
    replaced by a schedule that says which task moves next. */
module Engine {
  import opened Wrappers
  import opened CsvTypes
  import opened Breaks
  import Loader

  /** The exceptions the comparison task can throw; each ends CompareFiles. */
  datatype Failure =
    | DuplicateOrphanKey(key: string)  // ComparisonException from GetOrAddOrphan
    | IndexOutOfRange                  // a column with no header name
    | NullReference                    // excluded columns or header names not set
    | NeverStarted                     // no loader set the start event: CompareCsvs waits forever

  /** The text of the ComparisonException GetOrAddOrphan throws. */
  function DuplicateKeyMessage(key: string): string {
    "Orphan key: " + key + " already exists. This usually means the key columns do not define unique rows."
  }

  /** The fields of a CSVComparer that a comparison changes. A null
      `_excludedColumns` or `_headerColumns` is None. */
  datatype State = State(
    refQueue: seq<CsvRow>,
    candQueue: seq<CsvRow>,
    refOrphans: map<string, CsvRow>,
    candOrphans: map<string, CsvRow>,
    breaks: seq<BreakDetail>,
    headerCheck: bool,
    earlyTerminate: bool,
    runningLoaders: int,
    refCount: int,
    candCount: int,
    excluded: Option<set<nat>>,
    headerColumns: Option<seq<string>>,
    ready: bool)

  /** The state ResetState leaves: empty queues, dictionaries and breaks,
      the header check pending, two loaders running, no counts, and the
      start-of-comparison event not yet set. */
  const Initial := State([], [], map[], map[], [], true, false, 2, 0, 0, None, None, false)

  // ---------------------------------------------------------------------
  // AddBreak and AddOrphan
  // ---------------------------------------------------------------------

  /** AddBreak: a value break is recorded unless a key exclusion matches. */
  function AddBreak(def: Definition, breaks: seq<BreakDetail>, breakType: BreakType, key: string,
                    referenceRow: int, candidateRow: int, column: string,
                    referenceValue: string, candidateValue: string): (r: seq<BreakDetail>)
    ensures AnyMatch(def.isMatch, key, def.keyExclusions) ==> r == breaks
    ensures !AnyMatch(def.isMatch, key, def.keyExclusions) ==>
      r == breaks + [NewBreak(breakType, key, referenceRow, candidateRow, column, referenceValue, candidateValue)]
  {
    if AnyMatch(def.isMatch, key, def.keyExclusions) then breaks
    else breaks + [NewBreak(breakType, key, referenceRow, candidateRow, column, referenceValue, candidateValue)]
  }

  /** AddOrphan: a missing-key break is recorded unless an orphan exclusion
      matches the key. */
  function AddOrphan(def: Definition, breaks: seq<BreakDetail>, key: string, row: CsvRow,
                     breakType: BreakType): (r: seq<BreakDetail>)
    ensures AnyMatch(def.isMatch, key, def.orphanExclusions) ==> r == breaks
    ensures !AnyMatch(def.isMatch, key, def.orphanExclusions) ==>
      r == breaks + [OrphanBreak(breakType, key, row.rowIndex)]
  {
    if AnyMatch(def.isMatch, key, def.orphanExclusions) then breaks
    else breaks + [OrphanBreak(breakType, key, row.rowIndex)]
  }

  // ---------------------------------------------------------------------
  // CompareValues on the Exact path
  // ---------------------------------------------------------------------

  /** What CompareValues leaves: the breaks, its return value, and the
      exception it threw, if any. */
  datatype Compared = Compared(breaks: seq<BreakDetail>, success: bool, thrown: Option<Failure>)

  /** CompareValues' loop from column `i`, for rows of equal width. */
  function ColumnsFrom(def: Definition, key: string, refRow: CsvRow, candRow: CsvRow,
                       excluded: Option<set<nat>>, header: Option<seq<string>>,
                       i: nat, breaks: seq<BreakDetail>, success: bool): Compared
    requires |refRow.columns| == |candRow.columns| && i <= |refRow.columns|
    decreases |refRow.columns| - i
  {
    if i == |refRow.columns| then Compared(breaks, success, None)
    else if excluded.None? then Compared(breaks, success, Some(NullReference))
    else if i in excluded.value then ColumnsFrom(def, key, refRow, candRow, excluded, header, i + 1, breaks, success)
    else if header.None? then Compared(breaks, success, Some(NullReference))
    else if i >= |header.value| then Compared(breaks, success, Some(IndexOutOfRange))
    else if refRow.columns[i] != candRow.columns[i] then
      ColumnsFrom(def, key, refRow, candRow, excluded, header, i + 1,
                  AddBreak(def, breaks, ValueMismatch, key, refRow.rowIndex, candRow.rowIndex,
                           header.value[i], refRow.columns[i], candRow.columns[i]),
                  false)
    else ColumnsFrom(def, key, refRow, candRow, excluded, header, i + 1, breaks, success)
  }

  /** CompareValues: rows of different widths give one ColumnsDifferent break
      (not subject to key exclusions) and false; otherwise each column is
      compared in order. */
  function CompareValues(def: Definition, key: string, refRow: CsvRow, candRow: CsvRow,
                         excluded: Option<set<nat>>, header: Option<seq<string>>,
                         breaks: seq<BreakDetail>): Compared
  {
    if |refRow.columns| != |candRow.columns| then
      Compared(breaks + [ColumnsBreak(|refRow.columns|, |candRow.columns|)], false, None)
    else ColumnsFrom(def, key, refRow, candRow, excluded, header, 0, breaks, true)
  }

  /** The columns from `i` on that are compared and differ, ascending. */
  function DifferingFrom(refRow: CsvRow, candRow: CsvRow, excluded: set<nat>, i: nat): (ds: seq<nat>)
    requires |refRow.columns| == |candRow.columns| && i <= |refRow.columns|
    ensures forall m :: 0 <= m < |ds| ==> i <= ds[m] < |refRow.columns| && ds[m] !in excluded
    decreases |refRow.columns| - i
  {
    if i == |refRow.columns| then []
    else if i !in excluded && refRow.columns[i] != candRow.columns[i] then
      [i] + DifferingFrom(refRow, candRow, excluded, i + 1)
    else DifferingFrom(refRow, candRow, excluded, i + 1)
  }

  /** DifferingFrom lists exactly the non-excluded columns from `i` whose
      values differ, in ascending order. */
  lemma {:induction false} DifferingFromMeaning(refRow: CsvRow, candRow: CsvRow, excluded: set<nat>, i: nat)
    requires |refRow.columns| == |candRow.columns| && i <= |refRow.columns|
    ensures var ds := DifferingFrom(refRow, candRow, excluded, i);
      && (forall j :: j in ds <==>
            i <= j < |refRow.columns| && j !in excluded && refRow.columns[j] != candRow.columns[j])
      && Loader.StrictlyIncreasing(ds)
    decreases |refRow.columns| - i
  {
    DifferingFromMembers(refRow, candRow, excluded, i);
    DifferingFromAscending(refRow, candRow, excluded, i);
  }

  lemma {:induction false} DifferingFromMembers(refRow: CsvRow, candRow: CsvRow, excluded: set<nat>, i: nat)
    requires |refRow.columns| == |candRow.columns| && i <= |refRow.columns|
    ensures forall j :: j in DifferingFrom(refRow, candRow, excluded, i) <==>
              i <= j < |refRow.columns| && j !in excluded && refRow.columns[j] != candRow.columns[j]
    decreases |refRow.columns| - i
  {
    if i < |refRow.columns| {
      DifferingFromMembers(refRow, candRow, excluded, i + 1);
    }
  }

  lemma {:induction false} DifferingFromAscending(refRow: CsvRow, candRow: CsvRow, excluded: set<nat>, i: nat)
    requires |refRow.columns| == |candRow.columns| && i <= |refRow.columns|
    ensures Loader.StrictlyIncreasing(DifferingFrom(refRow, candRow, excluded, i))
    decreases |refRow.columns| - i
  {
    if i < |refRow.columns| {
      DifferingFromAscending(refRow, candRow, excluded, i + 1);
      var rest := DifferingFrom(refRow, candRow, excluded, i + 1);
      if i !in excluded && refRow.columns[i] != candRow.columns[i] {
        var ds := [i] + rest;
        assert ds == DifferingFrom(refRow, candRow, excluded, i);
        forall m, n | 0 <= m < n < |ds| ensures ds[m] < ds[n] {
          assert i + 1 <= rest[n - 1];
          if m > 0 {
            assert ds[m] == rest[m - 1] && ds[n] == rest[n - 1];
          } else {
            assert ds[n] == rest[n - 1];
          }
        }
      } else {
        assert rest == DifferingFrom(refRow, candRow, excluded, i);
      }
    }
  }

  /** The value break of each listed column, in list order. */
  function MismatchBreaks(key: string, refRow: CsvRow, candRow: CsvRow, header: seq<string>,
                          ds: seq<nat>): (r: seq<BreakDetail>)
    requires forall m :: 0 <= m < |ds| ==> ds[m] < |refRow.columns| && ds[m] < |candRow.columns| && ds[m] < |header|
    ensures |r| == |ds|
    decreases |ds|
  {
    if ds == [] then []
    else [NewBreak(ValueMismatch, key, refRow.rowIndex, candRow.rowIndex, header[ds[0]],
                   refRow.columns[ds[0]], candRow.columns[ds[0]])]
         + MismatchBreaks(key, refRow, candRow, header, ds[1..])
  }

  /** The breaks of a list that starts with column `i`. */
  lemma MismatchBreaksCons(key: string, refRow: CsvRow, candRow: CsvRow, header: seq<string>,
                           i: nat, rest: seq<nat>)
    requires i < |refRow.columns| && i < |candRow.columns| && i < |header|
    requires forall m :: 0 <= m < |rest| ==> rest[m] < |refRow.columns| && rest[m] < |candRow.columns| && rest[m] < |header|
    ensures MismatchBreaks(key, refRow, candRow, header, [i] + rest)
         == [NewBreak(ValueMismatch, key, refRow.rowIndex, candRow.rowIndex, header[i],
                      refRow.columns[i], candRow.columns[i])]
            + MismatchBreaks(key, refRow, candRow, header, rest)
  {
    assert ([i] + rest)[1..] == rest;
  }

  /** Break `m` is the value break of column `ds[m]`, naming the column by
      its header entry and carrying both values. */
  lemma {:induction false} MismatchBreaksAt(key: string, refRow: CsvRow, candRow: CsvRow, header: seq<string>,
                                            ds: seq<nat>)
    requires forall m :: 0 <= m < |ds| ==> ds[m] < |refRow.columns| && ds[m] < |candRow.columns| && ds[m] < |header|
    ensures var r := MismatchBreaks(key, refRow, candRow, header, ds);
      forall m :: 0 <= m < |ds| ==>
        r[m] == NewBreak(ValueMismatch, key, refRow.rowIndex, candRow.rowIndex, header[ds[m]],
                         refRow.columns[ds[m]], candRow.columns[ds[m]])
    decreases |ds|
  {
    if ds != [] {
      MismatchBreaksAt(key, refRow, candRow, header, ds[1..]);
      var r := MismatchBreaks(key, refRow, candRow, header, ds);
      var tail := MismatchBreaks(key, refRow, candRow, header, ds[1..]);
      forall m | 0 < m < |ds|
        ensures r[m] == NewBreak(ValueMismatch, key, refRow.rowIndex, candRow.rowIndex, header[ds[m]],
                                 refRow.columns[ds[m]], candRow.columns[ds[m]])
      {
        assert r[m] == tail[m - 1] && ds[1..][m - 1] == ds[m];
      }
    }
  }

  /** Every column a row pair can reach has a header name. */
  predicate HeaderCovers(refRow: CsvRow, excluded: set<nat>, header: seq<string>) {
    forall j :: 0 <= j < |refRow.columns| && j !in excluded ==> j < |header|
  }

  /** One compared column of the loop when the header covers the row. */
  lemma ColumnsFromStep(def: Definition, key: string, refRow: CsvRow, candRow: CsvRow,
                        excluded: set<nat>, header: seq<string>,
                        i: nat, breaks: seq<BreakDetail>, success: bool)
    requires |refRow.columns| == |candRow.columns| && i < |refRow.columns|
    requires i !in excluded ==> i < |header|
    ensures ColumnsFrom(def, key, refRow, candRow, Some(excluded), Some(header), i, breaks, success)
         == if i !in excluded && refRow.columns[i] != candRow.columns[i] then
              ColumnsFrom(def, key, refRow, candRow, Some(excluded), Some(header), i + 1,
                          AddBreak(def, breaks, ValueMismatch, key, refRow.rowIndex, candRow.rowIndex,
                                   header[i], refRow.columns[i], candRow.columns[i]), false)
            else ColumnsFrom(def, key, refRow, candRow, Some(excluded), Some(header), i + 1, breaks, success)
  {
  }

  /** The loop from column `i` when the header covers the row: no exception,
      one value break per differing non-excluded column in column order
      (none when a key exclusion matches), and success exactly when no such
      column exists. */
  lemma {:induction false} ColumnsFromCovered(def: Definition, key: string, refRow: CsvRow, candRow: CsvRow,
                                              excluded: set<nat>, header: seq<string>,
                                              i: nat, breaks: seq<BreakDetail>, success: bool)
    requires |refRow.columns| == |candRow.columns| && i <= |refRow.columns|
    requires HeaderCovers(refRow, excluded, header)
    ensures var ds := DifferingFrom(refRow, candRow, excluded, i);
      ColumnsFrom(def, key, refRow, candRow, Some(excluded), Some(header), i, breaks, success)
      == Compared(breaks + (if AnyMatch(def.isMatch, key, def.keyExclusions) then []
                            else MismatchBreaks(key, refRow, candRow, header, ds)),
                  success && ds == [], None)
    decreases |refRow.columns| - i
  {
    if i < |refRow.columns| {
      ColumnsFromStep(def, key, refRow, candRow, excluded, header, i, breaks, success);
      var rest := DifferingFrom(refRow, candRow, excluded, i + 1);
      if i in excluded || refRow.columns[i] == candRow.columns[i] {
        ColumnsFromCovered(def, key, refRow, candRow, excluded, header, i + 1, breaks, success);
        assert DifferingFrom(refRow, candRow, excluded, i) == rest;
      } else {
        var next := AddBreak(def, breaks, ValueMismatch, key, refRow.rowIndex, candRow.rowIndex,
                             header[i], refRow.columns[i], candRow.columns[i]);
        ColumnsFromCovered(def, key, refRow, candRow, excluded, header, i + 1, next, false);
        assert DifferingFrom(refRow, candRow, excluded, i) == [i] + rest;
        assert forall m :: 0 <= m < |rest| ==> rest[m] < |refRow.columns| && rest[m] < |header| by {
          forall m | 0 <= m < |rest| ensures rest[m] < |refRow.columns| && rest[m] < |header| {
            assert rest[m] !in excluded;
          }
        }
        AddBreakMismatches(def, key, refRow, candRow, header, i, rest, breaks);
      }
    }
  }

  /** Recording the break of column `i` and then those of `rest` gives the
      breaks of `[i] + rest`, or nothing when a key exclusion matches. */
  lemma AddBreakMismatches(def: Definition, key: string, refRow: CsvRow, candRow: CsvRow, header: seq<string>,
                           i: nat, rest: seq<nat>, breaks: seq<BreakDetail>)
    requires i < |refRow.columns| && i < |candRow.columns| && i < |header|
    requires forall m :: 0 <= m < |rest| ==> rest[m] < |refRow.columns| && rest[m] < |candRow.columns| && rest[m] < |header|
    ensures var km := AnyMatch(def.isMatch, key, def.keyExclusions);
      AddBreak(def, breaks, ValueMismatch, key, refRow.rowIndex, candRow.rowIndex,
               header[i], refRow.columns[i], candRow.columns[i])
      + (if km then [] else MismatchBreaks(key, refRow, candRow, header, rest))
      == breaks + (if km then [] else MismatchBreaks(key, refRow, candRow, header, [i] + rest))
  {
    if !AnyMatch(def.isMatch, key, def.keyExclusions) {
      MismatchBreaksCons(key, refRow, candRow, header, i, rest);
      AppendAssociative(breaks, [NewBreak(ValueMismatch, key, refRow.rowIndex, candRow.rowIndex, header[i],
                                          refRow.columns[i], candRow.columns[i])],
                        MismatchBreaks(key, refRow, candRow, header, rest));
    }
  }

  /** The loop throws exactly when it reaches a compared column without the
      excluded set, without header names, or past the header. */
  lemma {:induction false} ColumnsFromThrows(def: Definition, key: string, refRow: CsvRow, candRow: CsvRow,
                                             excluded: Option<set<nat>>, header: Option<seq<string>>,
                                             i: nat, breaks: seq<BreakDetail>, success: bool)
    requires |refRow.columns| == |candRow.columns| && i <= |refRow.columns|
    ensures var r := ColumnsFrom(def, key, refRow, candRow, excluded, header, i, breaks, success);
      r.thrown.None? <==> (i == |refRow.columns| || (excluded.Some? && ReachesFrom(refRow, excluded.value, header, i)))
    decreases |refRow.columns| - i
  {
    if i < |refRow.columns| && excluded.Some? {
      ReachesStep(refRow, excluded.value, header, i);
      if i in excluded.value {
        ColumnsFromThrows(def, key, refRow, candRow, excluded, header, i + 1, breaks, success);
      } else if header.Some? && i < |header.value| {
        var next := if refRow.columns[i] != candRow.columns[i] then
          AddBreak(def, breaks, ValueMismatch, key, refRow.rowIndex, candRow.rowIndex,
                   header.value[i], refRow.columns[i], candRow.columns[i])
        else breaks;
        ColumnsFromThrows(def, key, refRow, candRow, excluded, header, i + 1, next,
                          success && refRow.columns[i] == candRow.columns[i]);
      }
    }
  }

  /** Every compared column from `i` on has a header name. */
  predicate ReachesFrom(refRow: CsvRow, excluded: set<nat>, header: Option<seq<string>>, i: nat) {
    forall j :: i <= j < |refRow.columns| && j !in excluded ==> header.Some? && j < |header.value|
  }

  lemma ReachesStep(refRow: CsvRow, excluded: set<nat>, header: Option<seq<string>>, i: nat)
    requires i < |refRow.columns|
    ensures ReachesFrom(refRow, excluded, header, i)
        <==> (i in excluded || (header.Some? && i < |header.value|)) && ReachesFrom(refRow, excluded, header, i + 1)
  {
  }

  /** A row compared with itself differs nowhere. */
  lemma {:induction false} DifferingSame(row: CsvRow, excluded: set<nat>, i: nat)
    requires i <= |row.columns|
    ensures DifferingFrom(row, row, excluded, i) == []
    decreases |row.columns| - i
  {
    if i < |row.columns| {
      DifferingSame(row, excluded, i + 1);
    }
  }

  /** CompareValues with a header that covers the row: a width mismatch gives
      exactly the ColumnsDifferent break; otherwise the value breaks of the
      differing non-excluded columns, and true exactly when there are none,
      whether or not a key exclusion suppressed the breaks. */
  lemma CompareValuesMeaning(def: Definition, key: string, refRow: CsvRow, candRow: CsvRow,
                             excluded: set<nat>, header: seq<string>, breaks: seq<BreakDetail>)
    requires HeaderCovers(refRow, excluded, header)
    ensures var r := CompareValues(def, key, refRow, candRow, Some(excluded), Some(header), breaks);
      && r.thrown.None?
      && (|refRow.columns| != |candRow.columns| ==>
            r.breaks == breaks + [ColumnsBreak(|refRow.columns|, |candRow.columns|)] && !r.success)
      && (|refRow.columns| == |candRow.columns| ==>
            var ds := DifferingFrom(refRow, candRow, excluded, 0);
            && r.breaks == breaks + (if AnyMatch(def.isMatch, key, def.keyExclusions) then []
                                     else MismatchBreaks(key, refRow, candRow, header, ds))
            && (r.success <==> forall j :: 0 <= j < |refRow.columns| && j !in excluded ==>
                                 refRow.columns[j] == candRow.columns[j]))
  {
    if |refRow.columns| == |candRow.columns| {
      ColumnsFromCovered(def, key, refRow, candRow, excluded, header, 0, breaks, true);
      DifferingFromMeaning(refRow, candRow, excluded, 0);
      var ds := DifferingFrom(refRow, candRow, excluded, 0);
      if ds != [] {
        assert ds[0] in ds;
      }
    }
  }

  /** A row compared with itself under a covering header adds no break and
      succeeds. */
  lemma CompareValuesSame(def: Definition, key: string, row: CsvRow, excluded: set<nat>,
                          header: seq<string>, breaks: seq<BreakDetail>)
    requires HeaderCovers(row, excluded, header)
    ensures CompareValues(def, key, row, row, Some(excluded), Some(header), breaks) == Compared(breaks, true, None)
  {
    ColumnsFromCovered(def, key, row, row, excluded, header, 0, breaks, true);
    DifferingSame(row, excluded, 0);
  }

  // ---------------------------------------------------------------------
  // CompareRow and GetOrAddOrphan
  // ---------------------------------------------------------------------

  /** A state after an operation, with the exception it threw, if any. */
  datatype Outcome = Outcome(st: State, thrown: Option<Failure>)

  /** CompareRow: the first call takes the reference row's fields as the
      header names and sets earlyTerminate when that comparison fails; later
      calls only compare. */
  function CompareRow(def: Definition, st: State, key: string, refRow: CsvRow, candRow: CsvRow): Outcome {
    if st.headerCheck then
      var s1 := st.(headerCheck := false, headerColumns := Some(refRow.columns));
      var c := CompareValues(def, key, refRow, candRow, s1.excluded, s1.headerColumns, s1.breaks);
      var s2 := s1.(breaks := c.breaks);
      if c.thrown.Some? then Outcome(s2, c.thrown)
      else Outcome(if c.success then s2 else s2.(earlyTerminate := true), None)
    else
      var c := CompareValues(def, key, refRow, candRow, st.excluded, st.headerColumns, st.breaks);
      Outcome(st.(breaks := c.breaks), c.thrown)
  }

  /** CompareRow changes only the breaks, the header check, the header names
      and earlyTerminate; the first call records the reference row's fields
      as header names and sets earlyTerminate exactly when that comparison
      fails; later calls leave the flag and the names alone. */
  lemma CompareRowMeaning(def: Definition, st: State, key: string, refRow: CsvRow, candRow: CsvRow)
    ensures var o := CompareRow(def, st, key, refRow, candRow);
      && o.st == st.(breaks := o.st.breaks, headerCheck := false, headerColumns := o.st.headerColumns,
                     earlyTerminate := o.st.earlyTerminate)
      && (st.headerCheck ==>
            var c := CompareValues(def, key, refRow, candRow, st.excluded, Some(refRow.columns), st.breaks);
            && o.st.headerColumns == Some(refRow.columns)
            && o.st.breaks == c.breaks && o.thrown == c.thrown
            && (c.thrown.None? ==> (o.st.earlyTerminate <==> st.earlyTerminate || !c.success)))
      && (!st.headerCheck ==>
            var c := CompareValues(def, key, refRow, candRow, st.excluded, st.headerColumns, st.breaks);
            && o.st.headerColumns == st.headerColumns && o.st.earlyTerminate == st.earlyTerminate
            && o.st.breaks == c.breaks && o.thrown == c.thrown)
  {
  }

  /** What GetOrAddOrphan leaves: both dictionaries, the orphan it found, and
      the exception it threw, if any. */
  datatype Orphaned = Orphaned(existing: map<string, CsvRow>, toAdd: map<string, CsvRow>,
                               found: Option<CsvRow>, thrown: Option<Failure>)

  /** GetOrAddOrphan: take the row's partner out of the other side's
      dictionary, or else park the row in its own side's dictionary. */
  function GetOrAddOrphan(row: CsvRow, existing: map<string, CsvRow>, toAdd: map<string, CsvRow>): Orphaned {
    if row.key in existing then Orphaned(existing - {row.key}, toAdd, Some(existing[row.key]), None)
    else if row.key in toAdd then Orphaned(existing, toAdd, None, Some(DuplicateOrphanKey(row.key)))
    else Orphaned(existing, toAdd[row.key := row], None, None)
  }

  /** On a hit the partner is returned and only its key leaves the other
      dictionary; on a miss the row joins its own dictionary, unless its key
      is already there, which throws. Disjoint dictionaries stay disjoint,
      and a hit shrinks the other dictionary by one while a miss grows the
      row's own by one. */
  lemma GetOrAddOrphanMeaning(row: CsvRow, existing: map<string, CsvRow>, toAdd: map<string, CsvRow>)
    requires existing.Keys !! toAdd.Keys
    ensures var g := GetOrAddOrphan(row, existing, toAdd);
      && (row.key in existing ==>
            && g.found == Some(existing[row.key]) && g.thrown.None?
            && g.existing.Keys == existing.Keys - {row.key} && g.toAdd == toAdd
            && (forall k :: k in g.existing ==> g.existing[k] == existing[k])
            && |g.existing| == |existing| - 1)
      && (row.key !in existing && row.key in toAdd ==> g.thrown == Some(DuplicateOrphanKey(row.key)))
      && (row.key !in existing && row.key !in toAdd ==>
            && g.found.None? && g.thrown.None? && g.existing == existing
            && g.toAdd == toAdd[row.key := row] && |g.toAdd| == |toAdd| + 1)
      && g.existing.Keys !! g.toAdd.Keys
  {
    if row.key in existing {
      RemoveSize(existing, row.key);
    } else if row.key !in toAdd {
      AddSize(toAdd, row.key, row);
    }
  }

  lemma RemoveSize(m: map<string, CsvRow>, k: string)
    requires k in m
    ensures (m - {k}).Keys == m.Keys - {k} && |m - {k}| == |m| - 1
  {
    assert m.Keys == (m - {k}).Keys + {k};
  }

  lemma AddSize(m: map<string, CsvRow>, k: string, v: CsvRow)
    requires k !in m
    ensures m[k := v].Keys == m.Keys + {k} && |m[k := v]| == |m| + 1
  {
  }

  // ---------------------------------------------------------------------
  // One iteration of CompareCsvs
  // ---------------------------------------------------------------------

  /** A state after dispatching the dequeued rows, the exception thrown, if
      any, and the number of CompareRow calls made. */
  datatype Dispatched = Dispatched(st: State, thrown: Option<Failure>, compared: nat)

  /** A candidate row without a same-key partner: look for it among the
      reference orphans. */
  function ResolveCandidate(def: Definition, st: State, candRow: CsvRow): Dispatched {
    var g := GetOrAddOrphan(candRow, st.refOrphans, st.candOrphans);
    var s1 := st.(refOrphans := g.existing, candOrphans := g.toAdd);
    if g.thrown.Some? then Dispatched(s1, g.thrown, 0)
    else if g.found.Some? then
      var o := CompareRow(def, s1, candRow.key, g.found.value, candRow);
      Dispatched(o.st, o.thrown, 1)
    else Dispatched(s1, None, 0)
  }

  /** A reference row without a same-key partner: look for it among the
      candidate orphans. */
  function ResolveReference(def: Definition, st: State, refRow: CsvRow): Dispatched {
    var g := GetOrAddOrphan(refRow, st.candOrphans, st.refOrphans);
    var s1 := st.(candOrphans := g.existing, refOrphans := g.toAdd);
    if g.thrown.Some? then Dispatched(s1, g.thrown, 0)
    else if g.found.Some? then
      var o := CompareRow(def, s1, refRow.key, refRow, g.found.value);
      Dispatched(o.st, o.thrown, 1)
    else Dispatched(s1, None, 0)
  }

  /** The dispatch of CompareCsvs on the rows it dequeued: same keys are
      compared at once; otherwise the candidate row is resolved first, then
      the reference row. */
  function Dispatch(def: Definition, st: State, refRow: Option<CsvRow>, candRow: Option<CsvRow>): Dispatched {
    match (refRow, candRow)
    case (Some(r), Some(c)) =>
      if r.key == c.key then
        var o := CompareRow(def, st, r.key, r, c);
        Dispatched(o.st, o.thrown, 1)
      else
        var a := ResolveCandidate(def, st, c);
        if a.thrown.Some? then a
        else
          var b := ResolveReference(def, a.st, r);
          Dispatched(b.st, b.thrown, a.compared + b.compared)
    case (None, Some(c)) => ResolveCandidate(def, st, c)
    case (Some(r), None) => ResolveReference(def, st, r)
    case (None, None) => Dispatched(st, None, 0)
  }

  /** A state after one iteration, whether the loop is complete, the
      exception thrown, if any, and the number of CompareRow calls made. */
  datatype Stepped = Stepped(st: State, complete: bool, thrown: Option<Failure>, compared: nat)

  /** The row at the head of a queue, if any. */
  function Front(q: seq<CsvRow>): Option<CsvRow> {
    if |q| > 0 then Some(q[0]) else None
  }

  /** The state after dequeuing at most one row per side, each dequeue
      counted. */
  function Dequeue(st: State): (r: State)
    ensures r == st.(refQueue := r.refQueue, refCount := r.refCount, candQueue := r.candQueue, candCount := r.candCount)
    ensures |st.refQueue| > 0 ==> r.refQueue == st.refQueue[1..] && r.refCount == st.refCount + 1
    ensures |st.refQueue| == 0 ==> r.refQueue == [] && r.refCount == st.refCount
    ensures |st.candQueue| > 0 ==> r.candQueue == st.candQueue[1..] && r.candCount == st.candCount + 1
    ensures |st.candQueue| == 0 ==> r.candQueue == [] && r.candCount == st.candCount
  {
    st.(refQueue := if |st.refQueue| > 0 then st.refQueue[1..] else st.refQueue,
        refCount := if |st.refQueue| > 0 then st.refCount + 1 else st.refCount,
        candQueue := if |st.candQueue| > 0 then st.candQueue[1..] else st.candQueue,
        candCount := if |st.candQueue| > 0 then st.candCount + 1 else st.candCount)
  }

  /** One iteration of CompareCsvs' loop: stop on earlyTerminate; otherwise
      dequeue, note whether both queues are now empty with no loader
      running, and dispatch what was dequeued. */
  function Step(def: Definition, st: State): Stepped {
    if st.earlyTerminate then Stepped(st, true, None, 0)
    else
      var s1 := Dequeue(st);
      var d := Dispatch(def, s1, Front(st.refQueue), Front(st.candQueue));
      Stepped(d.st, |s1.refQueue| == 0 && |s1.candQueue| == 0 && s1.runningLoaders == 0, d.thrown, d.compared)
  }

  /** The orphan dictionaries never share a key. */
  predicate Disjoint(st: State) {
    st.refOrphans.Keys !! st.candOrphans.Keys
  }

  /** What dispatching leaves alone: the queues, the counters, the running
      loaders, the excluded columns and the start event. */
  predicate Frame(st: State, st': State) {
    && st'.refQueue == st.refQueue && st'.candQueue == st.candQueue
    && st'.refCount == st.refCount && st'.candCount == st.candCount
    && st'.runningLoaders == st.runningLoaders && st'.excluded == st.excluded
    && st'.ready == st.ready
  }

  /** Resolving a candidate row either matches a reference orphan (one
      CompareRow, one reference orphan fewer) or parks the row as a candidate
      orphan; the dictionaries stay disjoint. */
  lemma ResolveCandidateMeaning(def: Definition, st: State, candRow: CsvRow)
    requires Disjoint(st)
    ensures var d := ResolveCandidate(def, st, candRow);
      d.thrown.None? ==>
        && d.compared <= 1 && Disjoint(d.st) && Frame(st, d.st)
        && |d.st.refOrphans| == |st.refOrphans| - d.compared
        && |d.st.candOrphans| == |st.candOrphans| + 1 - d.compared
  {
    GetOrAddOrphanMeaning(candRow, st.refOrphans, st.candOrphans);
    var g := GetOrAddOrphan(candRow, st.refOrphans, st.candOrphans);
    var s1 := st.(refOrphans := g.existing, candOrphans := g.toAdd);
    if g.found.Some? {
      CompareRowMeaning(def, s1, candRow.key, g.found.value, candRow);
    }
  }

  /** Resolving a reference row, symmetrically. */
  lemma ResolveReferenceMeaning(def: Definition, st: State, refRow: CsvRow)
    requires Disjoint(st)
    ensures var d := ResolveReference(def, st, refRow);
      d.thrown.None? ==>
        && d.compared <= 1 && Disjoint(d.st) && Frame(st, d.st)
        && |d.st.candOrphans| == |st.candOrphans| - d.compared
        && |d.st.refOrphans| == |st.refOrphans| + 1 - d.compared
  {
    GetOrAddOrphanMeaning(refRow, st.candOrphans, st.refOrphans);
    var g := GetOrAddOrphan(refRow, st.candOrphans, st.refOrphans);
    var s1 := st.(candOrphans := g.existing, refOrphans := g.toAdd);
    if g.found.Some? {
      CompareRowMeaning(def, s1, refRow.key, refRow, g.found.value);
    }
  }

  /** Rows dequeued on a side and not waiting as orphans. */
  function Matched(count: int, orphans: map<string, CsvRow>): int {
    count - |orphans|
  }

  /** An iteration that does not throw keeps the orphan dictionaries
      disjoint, and each CompareRow call it makes accounts for one dequeued
      row of each side: the dequeued rows not waiting as orphans grow on both
      sides by the number of CompareRow calls. Same keys leave the
      dictionaries untouched. */
  lemma StepConserves(def: Definition, st: State)
    requires Disjoint(st)
    ensures var r := Step(def, st);
      r.thrown.None? ==>
        && Disjoint(r.st)
        && Matched(r.st.refCount, r.st.refOrphans) == Matched(st.refCount, st.refOrphans) + r.compared
        && Matched(r.st.candCount, r.st.candOrphans) == Matched(st.candCount, st.candOrphans) + r.compared
        && r.st.runningLoaders == st.runningLoaders && r.st.excluded == st.excluded
  {
    if !st.earlyTerminate {
      DispatchConserves(def, Dequeue(st), Front(st.refQueue), Front(st.candQueue));
    }
  }

  /** Dispatch in terms of the dequeued rows. */
  lemma DispatchConserves(def: Definition, st: State, refRow: Option<CsvRow>, candRow: Option<CsvRow>)
    requires Disjoint(st)
    ensures var d := Dispatch(def, st, refRow, candRow);
      d.thrown.None? ==>
        && Disjoint(d.st) && Frame(st, d.st)
        && |d.st.refOrphans| == |st.refOrphans| + (if refRow.Some? then 1 else 0) - d.compared
        && |d.st.candOrphans| == |st.candOrphans| + (if candRow.Some? then 1 else 0) - d.compared
        && (refRow.Some? && candRow.Some? && refRow.value.key == candRow.value.key ==>
              d.st.refOrphans == st.refOrphans && d.st.candOrphans == st.candOrphans)
  {
    match (refRow, candRow)
    case (Some(r), Some(c)) =>
      if r.key == c.key {
        CompareRowMeaning(def, st, r.key, r, c);
      } else {
        ResolveCandidateMeaning(def, st, c);
        var a := ResolveCandidate(def, st, c);
        if a.thrown.None? {
          ResolveReferenceMeaning(def, a.st, r);
        }
      }
    case (None, Some(c)) => ResolveCandidateMeaning(def, st, c);
    case (Some(r), None) => ResolveReferenceMeaning(def, st, r);
    case (None, None) =>
  }

  /** An iteration stops the loop at once on earlyTerminate, changing
      nothing. Otherwise it dequeues at most one row per side, counting each
      dequeue, and reports completion exactly when both queues are then empty
      and no loader is running; the rows dequeued by that last iteration are
      still dispatched and counted. */
  lemma StepMeaning(def: Definition, st: State)
    requires Disjoint(st)
    ensures var r := Step(def, st);
      && (st.earlyTerminate ==> r == Stepped(st, true, None, 0))
      && (!st.earlyTerminate ==>
            && (r.complete <==> |st.refQueue| <= 1 && |st.candQueue| <= 1 && st.runningLoaders == 0)
            && r.compared <= 2
            && (r.thrown.None? ==>
                  && r.st.refQueue == (if |st.refQueue| > 0 then st.refQueue[1..] else [])
                  && r.st.candQueue == (if |st.candQueue| > 0 then st.candQueue[1..] else [])
                  && r.st.refCount == st.refCount + (if |st.refQueue| > 0 then 1 else 0)
                  && r.st.candCount == st.candCount + (if |st.candQueue| > 0 then 1 else 0)
                  && r.st.runningLoaders == st.runningLoaders))
  {
    if !st.earlyTerminate {
      DispatchConserves(def, Dequeue(st), Front(st.refQueue), Front(st.candQueue));
      DispatchCompared(def, Dequeue(st), Front(st.refQueue), Front(st.candQueue));
    }
  }

  /** Dispatch makes at most one CompareRow call per dequeued row. */
  lemma DispatchCompared(def: Definition, st: State, refRow: Option<CsvRow>, candRow: Option<CsvRow>)
    ensures Dispatch(def, st, refRow, candRow).compared
         <= (if refRow.Some? then 1 else 0) + (if candRow.Some? then 1 else 0)
  {
  }

  /** An iteration never lengthens the queues and leaves the running
      loaders and the start event alone; when no loader is running, one that
      does not complete dequeues at least one row, so the loop ends once the
      loaders are done. */
  lemma StepProgress(def: Definition, st: State)
    ensures var r := Step(def, st);
      && r.st.runningLoaders == st.runningLoaders && r.st.ready == st.ready
      && |r.st.refQueue| + |r.st.candQueue| <= |st.refQueue| + |st.candQueue|
      && (st.runningLoaders == 0 && !r.complete ==>
            |r.st.refQueue| + |r.st.candQueue| < |st.refQueue| + |st.candQueue|)
  {
    if !st.earlyTerminate {
      DispatchFrame(def, Dequeue(st), Front(st.refQueue), Front(st.candQueue));
    }
  }

  /** Dispatch leaves the queues, the counters, the running loaders and the
      excluded columns alone. */
  lemma DispatchFrame(def: Definition, st: State, refRow: Option<CsvRow>, candRow: Option<CsvRow>)
    ensures Frame(st, Dispatch(def, st, refRow, candRow).st)
  {
    match (refRow, candRow)
    case (Some(r), Some(c)) =>
      if r.key == c.key {
        CompareRowMeaning(def, st, r.key, r, c);
      } else {
        ResolveCandidateFrame(def, st, c);
        ResolveReferenceFrame(def, ResolveCandidate(def, st, c).st, r);
      }
    case (None, Some(c)) => ResolveCandidateFrame(def, st, c);
    case (Some(r), None) => ResolveReferenceFrame(def, st, r);
    case (None, None) =>
  }

  lemma ResolveCandidateFrame(def: Definition, st: State, candRow: CsvRow)
    ensures Frame(st, ResolveCandidate(def, st, candRow).st)
  {
    var g := GetOrAddOrphan(candRow, st.refOrphans, st.candOrphans);
    if g.thrown.None? && g.found.Some? {
      CompareRowMeaning(def, st.(refOrphans := g.existing, candOrphans := g.toAdd), candRow.key, g.found.value, candRow);
    }
  }

  lemma ResolveReferenceFrame(def: Definition, st: State, refRow: CsvRow)
    ensures Frame(st, ResolveReference(def, st, refRow).st)
  {
    var g := GetOrAddOrphan(refRow, st.candOrphans, st.refOrphans);
    if g.thrown.None? && g.found.Some? {
      CompareRowMeaning(def, st.(candOrphans := g.existing, refOrphans := g.toAdd), refRow.key, refRow, g.found.value);
    }
  }

  // ---------------------------------------------------------------------
  // The loaders' side
  // ---------------------------------------------------------------------

  datatype Side = Reference | Candidate

  /** What a loader does to the shared state, in the order it does it. */
  datatype Event =
    | SetExcluded(columns: set<nat>)  // `_excludedColumns ??= ...` at the header line
    | Push(row: CsvRow)               // Enqueue on its own queue, then set the start event
    | Fail(detail: BreakDetail)       // the catch: a ProcessFailure break, earlyTerminate, the start event
    | Signal                          // the start event set for a file without lines
    | Exit                            // Interlocked.Decrement of the running loaders

  /** The effect of one loader event. */
  function Apply(st: State, side: Side, ev: Event): (r: State)
    ensures r == st.(refQueue := r.refQueue, candQueue := r.candQueue, breaks := r.breaks,
                     earlyTerminate := r.earlyTerminate, runningLoaders := r.runningLoaders,
                     excluded := r.excluded, ready := r.ready)
  {
    match ev
    case SetExcluded(columns) => if st.excluded.None? then st.(excluded := Some(columns)) else st
    case Push(row) =>
      if side == Reference then st.(refQueue := st.refQueue + [row], ready := true)
      else st.(candQueue := st.candQueue + [row], ready := true)
    case Fail(detail) => st.(breaks := st.breaks + [detail], earlyTerminate := true, ready := true)
    case Signal => st.(ready := true)
    case Exit => st.(runningLoaders := st.runningLoaders - 1)
  }

  /** The events of one LoadFile run: the excluded columns when the header
      was reached, each enqueued row in order, the ProcessFailure break when
      the load threw, the start event for a file without lines, and the
      final decrement. A data row that is not enqueued only sets the start
      event again, which the header row, always enqueued, has already set. */
  function LoaderEvents(res: Loader.LoadResult, file: string, noLines: bool): (evs: seq<Event>)
    ensures |evs| >= 1 && evs[|evs| - 1] == Exit
  {
    (if res.excluded.Some? then [SetExcluded(res.excluded.value)] else [])
    + seq(|res.rows|, k requires 0 <= k < |res.rows| => Push(res.rows[k]))
    + (if res.failure.Some? then [Fail(ProcessFailureBreak(file, Loader.Message(res.failure.value)))] else [])
    + (if noLines && res.failure.None? then [Signal] else [])
    + [Exit]
  }

  /** The number of decrements still to come. */
  function ExitCount(evs: seq<Event>): nat {
    if evs == [] then 0 else (if evs[0] == Exit then 1 else 0) + ExitCount(evs[1..])
  }

  /** A loader's events decrement the running count exactly once. */
  lemma {:induction false} LoaderEventsExit(res: Loader.LoadResult, file: string, noLines: bool)
    ensures ExitCount(LoaderEvents(res, file, noLines)) == 1
  {
    var evs := LoaderEvents(res, file, noLines);
    var body := evs[..|evs| - 1];
    assert forall k :: 0 <= k < |body| ==> body[k] != Exit;
    NoExit(body);
    ExitCountAppend(body, [Exit]);
    assert evs == body + [Exit];
  }

  lemma {:induction false} NoExit(evs: seq<Event>)
    requires forall k :: 0 <= k < |evs| ==> evs[k] != Exit
    ensures ExitCount(evs) == 0
    decreases |evs|
  {
    if evs != [] {
      NoExit(evs[1..]);
    }
  }

  lemma {:induction false} ExitCountAppend(a: seq<Event>, b: seq<Event>)
    ensures ExitCount(a + b) == ExitCount(a) + ExitCount(b)
    decreases |a|
  {
    if a != [] {
      ExitCountAppend(a[1..], b);
      assert (a + b)[0] == a[0];
      assert (a + b)[1..] == a[1..] + b;
    } else {
      assert a + b == b;
    }
  }

  /** The number of rows still to be enqueued. */
  function Pushes(evs: seq<Event>): nat {
    if evs == [] then 0 else (if evs[0].Push? then 1 else 0) + Pushes(evs[1..])
  }

  lemma {:induction false} PushesAppend(a: seq<Event>, b: seq<Event>)
    ensures Pushes(a + b) == Pushes(a) + Pushes(b)
    decreases |a|
  {
    if a != [] {
      PushesAppend(a[1..], b);
      assert (a + b)[0] == a[0];
      assert (a + b)[1..] == a[1..] + b;
    } else {
      assert a + b == b;
    }
  }

  /** Events that are all pushes enqueue one row each. */
  lemma {:induction false} AllPushes(evs: seq<Event>)
    requires forall k :: 0 <= k < |evs| ==> evs[k].Push?
    ensures Pushes(evs) == |evs|
    decreases |evs|
  {
    if evs != [] {
      AllPushes(evs[1..]);
    }
  }

  /** A loader's events enqueue each of its loaded rows once. */
  lemma LoaderEventsPushes(res: Loader.LoadResult, file: string, noLines: bool)
    ensures Pushes(LoaderEvents(res, file, noLines)) == |res.rows|
  {
    var pre := if res.excluded.Some? then [SetExcluded(res.excluded.value)] else [];
    var rows := seq(|res.rows|, k requires 0 <= k < |res.rows| => Push(res.rows[k]));
    var fail := if res.failure.Some? then [Fail(ProcessFailureBreak(file, Loader.Message(res.failure.value)))] else [];
    var signal := if noLines && res.failure.None? then [Signal] else [];
    AllPushes(rows);
    PushesAppend(pre, rows);
    PushesAppend(pre + rows, fail);
    PushesAppend(pre + rows + fail, signal);
    PushesAppend(pre + rows + fail + signal, [Exit]);
    assert Pushes(pre) == 0 && Pushes(fail) == 0 && Pushes(signal) == 0 && Pushes([Exit]) == 0;
  }

  /** Events that end with the final decrement, or none at all, hold a
      decrement whenever they are not empty. */
  lemma ExitLast(evs: seq<Event>)
    requires evs != [] && evs[|evs| - 1] == Exit
    ensures ExitCount(evs) >= 1
  {
    ExitCountAppend(evs[..|evs| - 1], [Exit]);
    assert evs == evs[..|evs| - 1] + [Exit];
  }

  // ---------------------------------------------------------------------
  // The orphan flush of CompareFiles
  // ---------------------------------------------------------------------

  /** The keys of `keys`, in order, that no orphan exclusion matches. */
  function KeptKeys(def: Definition, keys: seq<string>): (r: seq<string>)
    ensures forall k :: k in r ==> k in keys
  {
    if keys == [] then []
    else (if AnyMatch(def.isMatch, keys[0], def.orphanExclusions) then [] else [keys[0]])
         + KeptKeys(def, keys[1..])
  }

  /** KeptKeys keeps exactly the keys no orphan exclusion matches. */
  lemma {:induction false} KeptKeysMeaning(def: Definition, keys: seq<string>)
    ensures forall k :: k in KeptKeys(def, keys) <==> k in keys && !AnyMatch(def.isMatch, k, def.orphanExclusions)
    decreases |keys|
  {
    if keys != [] {
      KeptKeysMeaning(def, keys[1..]);
      assert keys == [keys[0]] + keys[1..];
    }
  }

  /** AddOrphan for each key in enumeration order. */
  function FlushFrom(def: Definition, breaks: seq<BreakDetail>, orphans: map<string, CsvRow>,
                     keys: seq<string>, breakType: BreakType): seq<BreakDetail>
    requires forall k :: k in keys ==> k in orphans
    decreases |keys|
  {
    if keys == [] then breaks
    else FlushFrom(def, AddOrphan(def, breaks, keys[0], orphans[keys[0]], breakType), orphans, keys[1..], breakType)
  }

  /** The missing-key breaks of the listed keys, in order. */
  function OrphanBreaks(orphans: map<string, CsvRow>, keys: seq<string>, breakType: BreakType): (r: seq<BreakDetail>)
    requires forall k :: k in keys ==> k in orphans
    ensures |r| == |keys|
  {
    seq(|keys|, j requires 0 <= j < |keys| => OrphanBreak(breakType, keys[j], orphans[keys[j]].rowIndex))
  }

  lemma OrphanBreaksCons(orphans: map<string, CsvRow>, k0: string, rest: seq<string>, breakType: BreakType)
    requires k0 in orphans && forall k :: k in rest ==> k in orphans
    ensures OrphanBreaks(orphans, [k0] + rest, breakType)
         == [OrphanBreak(breakType, k0, orphans[k0].rowIndex)] + OrphanBreaks(orphans, rest, breakType)
  {
    var ks := [k0] + rest;
    assert forall j :: 0 < j < |ks| ==> ks[j] == rest[j - 1];
  }

  /** The orphan breaks of the kept keys start with the first key's break,
      unless an orphan exclusion matches that key. */
  lemma KeptOrphansCons(def: Definition, orphans: map<string, CsvRow>, keys: seq<string>, breakType: BreakType)
    requires keys != [] && forall k :: k in keys ==> k in orphans
    ensures OrphanBreaks(orphans, KeptKeys(def, keys), breakType)
         == (if AnyMatch(def.isMatch, keys[0], def.orphanExclusions) then []
             else [OrphanBreak(breakType, keys[0], orphans[keys[0]].rowIndex)])
            + OrphanBreaks(orphans, KeptKeys(def, keys[1..]), breakType)
  {
    var rest := KeptKeys(def, keys[1..]);
    assert keys[0] in keys;
    if AnyMatch(def.isMatch, keys[0], def.orphanExclusions) {
      assert KeptKeys(def, keys) == [] + rest == rest;
    } else {
      assert KeptKeys(def, keys) == [keys[0]] + rest;
      OrphanBreaksCons(orphans, keys[0], rest, breakType);
    }
  }

  /** Flushing appends one missing-key break per key no orphan exclusion
      matches, in enumeration order, each with the orphan's row index. */
  lemma {:induction false} FlushFromMeaning(def: Definition, breaks: seq<BreakDetail>, orphans: map<string, CsvRow>,
                                            keys: seq<string>, breakType: BreakType)
    requires forall k :: k in keys ==> k in orphans
    ensures FlushFrom(def, breaks, orphans, keys, breakType)
         == breaks + OrphanBreaks(orphans, KeptKeys(def, keys), breakType)
    decreases |keys|
  {
    if keys != [] {
      var k0 := keys[0];
      assert k0 in orphans by { assert k0 in keys; }
      var head := if AnyMatch(def.isMatch, k0, def.orphanExclusions) then []
                  else [OrphanBreak(breakType, k0, orphans[k0].rowIndex)];
      var next := AddOrphan(def, breaks, k0, orphans[k0], breakType);
      assert next == breaks + head;
      assert forall k :: k in keys[1..] ==> k in orphans by {
        assert forall k :: k in keys[1..] ==> k in keys;
      }
      var tail := OrphanBreaks(orphans, KeptKeys(def, keys[1..]), breakType);
      assert FlushFrom(def, next, orphans, keys[1..], breakType) == next + tail by {
        FlushFromMeaning(def, next, orphans, keys[1..], breakType);
      }
      KeptOrphansCons(def, orphans, keys, breakType);
      AppendAssociative(breaks, head, tail);
    }
  }

  /** `keys` lists the keys of `m`, each once: how a Dictionary enumerates. */
  predicate Enumerates(keys: seq<string>, m: map<string, CsvRow>) {
    && (forall k :: k in keys ==> k in m)
    && (forall k :: k in m ==> k in keys)
    && (forall i, j :: 0 <= i < j < |keys| ==> keys[i] != keys[j])
  }

  /** The orphan flush: nothing after an early termination; otherwise the
      candidate orphans, then the reference orphans, in their enumeration
      orders. */
  function Flush(def: Definition, st: State, candKeys: seq<string>, refKeys: seq<string>): seq<BreakDetail>
    requires Enumerates(candKeys, st.candOrphans) && Enumerates(refKeys, st.refOrphans)
  {
    if st.earlyTerminate then st.breaks
    else
      var withCand := FlushFrom(def, st.breaks, st.candOrphans, candKeys, RowInCandidateNotInReference);
      FlushFrom(def, withCand, st.refOrphans, refKeys, RowInReferenceNotInCandidate)
  }

  /** The flush appends, when not early-terminated, a RowInCandidateNotInReference
      break per non-excluded candidate orphan, then a RowInReferenceNotInCandidate
      break per non-excluded reference orphan; after an early termination it
      appends nothing. */
  lemma FlushMeaning(def: Definition, st: State, candKeys: seq<string>, refKeys: seq<string>)
    requires Enumerates(candKeys, st.candOrphans) && Enumerates(refKeys, st.refOrphans)
    ensures Flush(def, st, candKeys, refKeys)
         == st.breaks + (if st.earlyTerminate then []
                         else OrphanBreaks(st.candOrphans, KeptKeys(def, candKeys), RowInCandidateNotInReference)
                              + OrphanBreaks(st.refOrphans, KeptKeys(def, refKeys), RowInReferenceNotInCandidate))
  {
    if st.earlyTerminate {
      assert st.breaks + [] == st.breaks;
    } else {
      FlushBoth(def, st.breaks, st.candOrphans, candKeys, st.refOrphans, refKeys);
    }
  }

  lemma FlushBoth(def: Definition, breaks: seq<BreakDetail>, candOrphans: map<string, CsvRow>, candKeys: seq<string>,
                  refOrphans: map<string, CsvRow>, refKeys: seq<string>)
    requires forall k :: k in candKeys ==> k in candOrphans
    requires forall k :: k in refKeys ==> k in refOrphans
    ensures var withCand := FlushFrom(def, breaks, candOrphans, candKeys, RowInCandidateNotInReference);
      FlushFrom(def, withCand, refOrphans, refKeys, RowInReferenceNotInCandidate)
      == breaks + (OrphanBreaks(candOrphans, KeptKeys(def, candKeys), RowInCandidateNotInReference)
                   + OrphanBreaks(refOrphans, KeptKeys(def, refKeys), RowInReferenceNotInCandidate))
  {
    var cand := OrphanBreaks(candOrphans, KeptKeys(def, candKeys), RowInCandidateNotInReference);
    var ref := OrphanBreaks(refOrphans, KeptKeys(def, refKeys), RowInReferenceNotInCandidate);
    var withCand := FlushFrom(def, breaks, candOrphans, candKeys, RowInCandidateNotInReference);
    assert withCand == breaks + cand by {
      FlushFromMeaning(def, breaks, candOrphans, candKeys, RowInCandidateNotInReference);
    }
    assert FlushFrom(def, withCand, refOrphans, refKeys, RowInReferenceNotInCandidate) == withCand + ref by {
      FlushFromMeaning(def, withCand, refOrphans, refKeys, RowInReferenceNotInCandidate);
    }
    AppendAssociative(breaks, cand, ref);
  }
}
