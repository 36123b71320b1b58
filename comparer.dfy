/** CSVComparer as a class: the fields the comparison changes, and the
    methods that change them in place. Each method is proved to leave the
    state that the corresponding function of Engine computes from the state
    before the call, so what is proved about Engine and Runner holds of
    these methods. */
module Comparer {
  import opened Wrappers
  import opened CsvTypes
  import opened Breaks
  import opened Engine
  import Loader
  import Runner

  class CsvComparer {
    const definition: Definition
    var referenceQueue: seq<CsvRow>
    var candidateQueue: seq<CsvRow>
    var referenceOrphans: map<string, CsvRow>
    var candidateOrphans: map<string, CsvRow>
    var breaks: seq<BreakDetail>
    var headerCheck: bool
    var earlyTerminate: bool
    var runningLoaderThreads: int
    var numberOfReferenceRows: int
    var numberOfCandidateRows: int
    var excludedColumns: Option<set<nat>>    // None while `_excludedColumns` is null
    var headerColumns: Option<seq<string>>   // None while `_headerColumns` is null
    var readyToStartComparison: bool         // whether the ManualResetEvent is set

    /** The fields as one Engine state. */
    function Snapshot(): State
      reads this
    {
      State(referenceQueue, candidateQueue, referenceOrphans, candidateOrphans, breaks,
            headerCheck, earlyTerminate, runningLoaderThreads, numberOfReferenceRows,
            numberOfCandidateRows, excludedColumns, headerColumns, readyToStartComparison)
    }

    /** A new comparer holds the definition; its fields start as ResetState
        leaves them. */
    constructor(comparisonDefinition: Definition)
      ensures definition == comparisonDefinition
      ensures referenceQueue == [] && candidateQueue == [] && referenceOrphans == map[] && candidateOrphans == map[]
      ensures breaks == [] && headerCheck && !earlyTerminate && runningLoaderThreads == 2
      ensures numberOfReferenceRows == 0 && numberOfCandidateRows == 0
      ensures excludedColumns == None && headerColumns == None && !readyToStartComparison
    {
      definition := comparisonDefinition;
      readyToStartComparison, referenceQueue, candidateQueue, referenceOrphans, candidateOrphans,
        breaks, headerCheck, earlyTerminate, runningLoaderThreads, numberOfReferenceRows,
        numberOfCandidateRows, excludedColumns, headerColumns
        := false, [], [], map[], map[], [], true, false, 2, 0, 0, None, None;
    }

    /** Clears everything a previous comparison left. */
    method ResetState()
      modifies this
      ensures referenceQueue == [] && candidateQueue == [] && referenceOrphans == map[] && candidateOrphans == map[]
      ensures breaks == [] && headerCheck && !earlyTerminate && runningLoaderThreads == 2
      ensures numberOfReferenceRows == 0 && numberOfCandidateRows == 0
      ensures excludedColumns == None && headerColumns == None && !readyToStartComparison
    {
      readyToStartComparison := false;
      referenceQueue, candidateQueue := [], [];
      referenceOrphans, candidateOrphans := map[], map[];
      breaks := [];
      headerCheck := true;
      earlyTerminate := false;
      runningLoaderThreads := 2;
      numberOfReferenceRows, numberOfCandidateRows := 0, 0;
      excludedColumns, headerColumns := None, None;
    }

    /** Records a value break unless one of the key exclusions matches the key. */
    method AddBreak(breakType: BreakType, breakKey: string, referenceRowIndex: int, candidateRowIndex: int,
                    columnName: string, referenceValue: string, candidateValue: string)
      modifies this
      ensures Snapshot() == old(Snapshot()).(breaks := Engine.AddBreak(definition, old(breaks), breakType, breakKey,
                                                                        referenceRowIndex, candidateRowIndex,
                                                                        columnName, referenceValue, candidateValue))
    {
      var exclusions := definition.keyExclusions;
      for i := 0 to |exclusions|
        invariant forall j :: 0 <= j < i ==> !definition.isMatch(breakKey, exclusions[j])
      {
        if definition.isMatch(breakKey, exclusions[i]) {
          return;
        }
      }
      breaks := breaks + [NewBreak(breakType, breakKey, referenceRowIndex, candidateRowIndex,
                                   columnName, referenceValue, candidateValue)];
    }

    /** Records a missing-key break unless one of the orphan exclusions
        matches the key. */
    method AddOrphan(key: string, orphan: CsvRow, breakType: BreakType)
      modifies this
      ensures Snapshot() == old(Snapshot()).(breaks := Engine.AddOrphan(definition, old(breaks), key, orphan, breakType))
    {
      var exclusions := definition.orphanExclusions;
      var excludeBreak := false;
      for i := 0 to |exclusions|
        invariant excludeBreak <==> exists j :: 0 <= j < i && definition.isMatch(key, exclusions[j])
      {
        if definition.isMatch(key, exclusions[i]) {
          excludeBreak := true;
          break;
        }
      }
      if !excludeBreak {
        breaks := breaks + [OrphanBreak(breakType, key, orphan.rowIndex)];
      }
    }

    /** Takes the partner of `row` out of the other side's orphans, or else
        parks `row` among its own side's orphans; a key already parked there
        throws. `side` is the side `row` comes from. */
    method GetOrAddOrphan(row: CsvRow, side: Side) returns (found: Option<CsvRow>, thrown: Option<Failure>)
      modifies this
      ensures side == Candidate ==>
        var g := Engine.GetOrAddOrphan(row, old(referenceOrphans), old(candidateOrphans));
        && found == g.found && thrown == g.thrown
        && Snapshot() == old(Snapshot()).(refOrphans := g.existing, candOrphans := g.toAdd)
      ensures side == Reference ==>
        var g := Engine.GetOrAddOrphan(row, old(candidateOrphans), old(referenceOrphans));
        && found == g.found && thrown == g.thrown
        && Snapshot() == old(Snapshot()).(candOrphans := g.existing, refOrphans := g.toAdd)
    {
      var existingOrphans := if side == Candidate then referenceOrphans else candidateOrphans;
      var orphansToAdd := if side == Candidate then candidateOrphans else referenceOrphans;
      found, thrown := None, None;
      if row.key in existingOrphans {
        found := Some(existingOrphans[row.key]);
        existingOrphans := existingOrphans - {row.key};
      } else if row.key in orphansToAdd {
        thrown := Some(DuplicateOrphanKey(row.key));
        return;
      } else {
        orphansToAdd := orphansToAdd[row.key := row];
      }
      if side == Candidate {
        referenceOrphans, candidateOrphans := existingOrphans, orphansToAdd;
      } else {
        candidateOrphans, referenceOrphans := existingOrphans, orphansToAdd;
      }
    }

    /** Compares two rows with the same key on the Exact path: a width
        difference is one ColumnsDifferent break; otherwise each column that
        is not excluded is compared in order, a difference being a value
        break. Reading a null `_excludedColumns` or `_headerColumns`, or a
        header name past the header's end, throws. */
    method CompareValues(key: string, referenceRow: CsvRow, candidateRow: CsvRow)
      returns (success: bool, thrown: Option<Failure>)
      modifies this
      ensures var c := Engine.CompareValues(definition, key, referenceRow, candidateRow,
                                            old(excludedColumns), old(headerColumns), old(breaks));
        && success == c.success && thrown == c.thrown
        && Snapshot() == old(Snapshot()).(breaks := c.breaks)
    {
      var referenceColumns := referenceRow.columns;
      var candidateColumns := candidateRow.columns;
      if |referenceColumns| != |candidateColumns| {
        breaks := breaks + [ColumnsBreak(|referenceColumns|, |candidateColumns|)];
        return false, None;
      }
      success, thrown := true, None;
      for referenceIndex := 0 to |referenceColumns|
        invariant Snapshot() == old(Snapshot()).(breaks := breaks)
        invariant ColumnsFrom(definition, key, referenceRow, candidateRow, excludedColumns, headerColumns,
                              referenceIndex, breaks, success)
               == ColumnsFrom(definition, key, referenceRow, candidateRow, excludedColumns, headerColumns,
                              0, old(breaks), true)
      {
        if excludedColumns.None? {
          return success, Some(NullReference);
        }
        if referenceIndex in excludedColumns.value {
          continue;
        }
        var referenceValue := referenceColumns[referenceIndex];
        var candidateValue := candidateColumns[referenceIndex];
        if headerColumns.None? {
          return success, Some(NullReference);
        }
        if referenceIndex >= |headerColumns.value| {
          return success, Some(IndexOutOfRange);
        }
        var columnName := headerColumns.value[referenceIndex];
        if referenceValue != candidateValue {
          success := false;
          AddBreak(ValueMismatch, key, referenceRow.rowIndex, candidateRow.rowIndex,
                   columnName, referenceValue, candidateValue);
        }
      }
    }

    /** Compares two rows with the same key; the first call takes the
        reference row's fields as header names and stops the comparison when
        they do not match. */
    method CompareRow(key: string, referenceRow: CsvRow, candidateRow: CsvRow) returns (thrown: Option<Failure>)
      modifies this
      ensures var o := Engine.CompareRow(definition, old(Snapshot()), key, referenceRow, candidateRow);
        Snapshot() == o.st && thrown == o.thrown
    {
      if headerCheck {
        headerCheck := false;
        headerColumns := Some(referenceRow.columns);
        var success;
        success, thrown := CompareValues(key, referenceRow, candidateRow);
        if thrown.None? && !success {
          earlyTerminate := true;
        }
      } else {
        var success;
        success, thrown := CompareValues(key, referenceRow, candidateRow);
      }
    }

    /** A row from `side` without a same-key partner: compared with its
        orphan partner if the other side has one, otherwise parked. */
    method Resolve(row: CsvRow, side: Side) returns (thrown: Option<Failure>, compared: nat)
      modifies this
      ensures side == Candidate ==>
        var d := ResolveCandidate(definition, old(Snapshot()), row);
        Snapshot() == d.st && thrown == d.thrown && compared == d.compared
      ensures side == Reference ==>
        var d := ResolveReference(definition, old(Snapshot()), row);
        Snapshot() == d.st && thrown == d.thrown && compared == d.compared
    {
      var found;
      found, thrown := GetOrAddOrphan(row, side);
      compared := 0;
      if thrown.None? && found.Some? {
        if side == Candidate {
          thrown := CompareRow(row.key, found.value, row);
        } else {
          thrown := CompareRow(row.key, row, found.value);
        }
        compared := 1;
      }
    }

    /** The dispatch in CompareCsvs of the rows just dequeued. */
    method Dispatch(referenceRow: Option<CsvRow>, candidateRow: Option<CsvRow>)
      returns (thrown: Option<Failure>, compared: nat)
      modifies this
      ensures var d := Engine.Dispatch(definition, old(Snapshot()), referenceRow, candidateRow);
        Snapshot() == d.st && thrown == d.thrown && compared == d.compared
    {
      thrown, compared := None, 0;
      if referenceRow.Some? && candidateRow.Some? {
        if referenceRow.value.key == candidateRow.value.key {
          thrown := CompareRow(referenceRow.value.key, referenceRow.value, candidateRow.value);
          compared := 1;
        } else {
          thrown, compared := Resolve(candidateRow.value, Candidate);
          if thrown.None? {
            var more;
            thrown, more := Resolve(referenceRow.value, Reference);
            compared := compared + more;
          }
        }
      } else if candidateRow.Some? {
        thrown, compared := Resolve(candidateRow.value, Candidate);
      } else if referenceRow.Some? {
        thrown, compared := Resolve(referenceRow.value, Reference);
      }
    }

    /** One iteration of CompareCsvs' loop: stop on earlyTerminate; otherwise
        dequeue at most one row per side under the lock, note whether the
        queues are drained with no loader running, and dispatch. */
    method Iterate() returns (complete: bool, thrown: Option<Failure>, compared: nat)
      modifies this
      ensures var r := Step(definition, old(Snapshot()));
        && Snapshot() == r.st && complete == r.complete && thrown == r.thrown && compared == r.compared
    {
      if earlyTerminate {
        return true, None, 0;
      }
      var referenceRow: Option<CsvRow> := None;
      var candidateRow: Option<CsvRow> := None;
      if |referenceQueue| > 0 {
        referenceRow := Some(referenceQueue[0]);
        referenceQueue := referenceQueue[1..];
        numberOfReferenceRows := numberOfReferenceRows + 1;
      }
      if |candidateQueue| > 0 {
        candidateRow := Some(candidateQueue[0]);
        candidateQueue := candidateQueue[1..];
        numberOfCandidateRows := numberOfCandidateRows + 1;
      }
      complete := |referenceQueue| == 0 && |candidateQueue| == 0 && runningLoaderThreads == 0;
      assert Snapshot() == Dequeue(old(Snapshot()));
      thrown, compared := Dispatch(referenceRow, candidateRow);
    }

    /** CompareCsvs once both loaders have finished and the start event is
        set: iterations until the loop completes or an exception ends it.
        `made` is the number of CompareRow calls before this one, which only
        the model counts. */
    method CompareCsvs(ghost made: nat) returns (thrown: Option<Failure>)
      requires runningLoaderThreads == 0 && readyToStartComparison
      modifies this
      ensures var d := Runner.Drain(definition, Runner.Sim(old(Snapshot()), [], [], false, made));
        && (d.Err? ==> thrown == Some(d.error))
        && (d.Ok? ==> thrown.None? && Snapshot() == d.value.st)
    {
      ghost var target := Runner.Drain(definition, Runner.Sim(Snapshot(), [], [], false, made));
      ghost var comparisons: nat := made;
      var complete := false;
      while !complete
        invariant runningLoaderThreads == 0 && readyToStartComparison
        invariant Runner.Drain(definition, Runner.Sim(Snapshot(), [], [], complete, comparisons)) == target
        decreases |referenceQueue| + |candidateQueue|, if complete then 0 else 1
      {
        ghost var before := Runner.Sim(Snapshot(), [], [], complete, comparisons);
        StepProgress(definition, before.st);
        Runner.DrainStep(definition, before);
        var compared;
        complete, thrown, compared := Iterate();
        if thrown.Some? {
          return;
        }
        comparisons := comparisons + compared;
        assert Runner.Sim(Snapshot(), [], [], complete, comparisons)
            == Runner.Sim(Step(definition, before.st).st, before.refEvents, before.candEvents,
                          Step(definition, before.st).complete, before.comparisons + Step(definition, before.st).compared);
      }
      thrown := None;
    }

    /** A loader's locked update of the shared state: one event. */
    method Receive(side: Side, event: Event)
      modifies this
      ensures Snapshot() == Apply(old(Snapshot()), side, event)
    {
      match event
      case SetExcluded(columns) =>
        if excludedColumns.None? {
          excludedColumns := Some(columns);
        }
      case Push(row) =>
        if side == Reference {
          referenceQueue := referenceQueue + [row];
        } else {
          candidateQueue := candidateQueue + [row];
        }
        readyToStartComparison := true;
      case Fail(detail) =>
        breaks := breaks + [detail];
        earlyTerminate := true;
        readyToStartComparison := true;
      case Signal =>
        readyToStartComparison := true;
      case Exit =>
        runningLoaderThreads := runningLoaderThreads - 1;
    }

    /** The orphan flush: unless stopped early, a missing-key break for each
        candidate orphan in `candidateKeys` order, then for each reference
        orphan in `referenceKeys` order. */
    method FlushOrphans(candidateKeys: seq<string>, referenceKeys: seq<string>)
      requires Enumerates(candidateKeys, candidateOrphans) && Enumerates(referenceKeys, referenceOrphans)
      modifies this
      ensures Snapshot() == old(Snapshot()).(breaks := Flush(definition, old(Snapshot()), candidateKeys, referenceKeys))
    {
      if earlyTerminate {
        return;
      }
      for i := 0 to |candidateKeys|
        invariant Snapshot() == old(Snapshot()).(breaks := breaks)
        invariant FlushFrom(definition, breaks, candidateOrphans, candidateKeys[i..], RowInCandidateNotInReference)
               == FlushFrom(definition, old(breaks), candidateOrphans, candidateKeys, RowInCandidateNotInReference)
      {
        assert candidateKeys[i] in candidateKeys;
        assert candidateKeys[i..][1..] == candidateKeys[i + 1..];
        AddOrphan(candidateKeys[i], candidateOrphans[candidateKeys[i]], RowInCandidateNotInReference);
      }
      ghost var withCandidates := breaks;
      for i := 0 to |referenceKeys|
        invariant Snapshot() == old(Snapshot()).(breaks := breaks)
        invariant FlushFrom(definition, breaks, referenceOrphans, referenceKeys[i..], RowInReferenceNotInCandidate)
               == FlushFrom(definition, withCandidates, referenceOrphans, referenceKeys, RowInReferenceNotInCandidate)
      {
        assert referenceKeys[i] in referenceKeys;
        assert referenceKeys[i..][1..] == referenceKeys[i + 1..];
        AddOrphan(referenceKeys[i], referenceOrphans[referenceKeys[i]], RowInReferenceNotInCandidate);
      }
    }

    /** One turn: a loader applies its next event; the comparison task,
        once the start event is set and until its loop completes, runs one
        iteration. `made` counts the CompareRow calls, which only the model
        counts. */
    method Turn(actor: Runner.Actor, referenceEvents: seq<Event>, candidateEvents: seq<Event>,
                complete: bool, ghost made: nat)
      returns (referenceLeft: seq<Event>, candidateLeft: seq<Event>, completed: bool,
               thrown: Option<Failure>, ghost madeAfter: nat)
      modifies this
      ensures var a := Runner.Act(definition, Runner.Sim(old(Snapshot()), referenceEvents, candidateEvents,
                                                         complete, made), actor);
        && (a.Err? ==> thrown == Some(a.error))
        && (a.Ok? ==> thrown.None? && a.value == Runner.Sim(Snapshot(), referenceLeft, candidateLeft,
                                                            completed, madeAfter))
    {
      referenceLeft, candidateLeft, completed, thrown, madeAfter
        := referenceEvents, candidateEvents, complete, None, made;
      match actor
      case ReferenceLoader =>
        if referenceLeft != [] {
          Receive(Reference, referenceLeft[0]);
          referenceLeft := referenceLeft[1..];
        }
      case CandidateLoader =>
        if candidateLeft != [] {
          Receive(Candidate, candidateLeft[0]);
          candidateLeft := candidateLeft[1..];
        }
      case ComparerTask =>
        if !complete && readyToStartComparison {
          var compared;
          completed, thrown, compared := Iterate();
          madeAfter := made + compared;
        }
    }

    /** The turns of `schedule`, from the start of CompareFiles. It returns
        the loaders' remaining events, whether the comparison loop
        completed, and the exception that ended the comparison task, if
        any. */
    method RunTurns(schedule: seq<Runner.Actor>, referenceEvents: seq<Event>, candidateEvents: seq<Event>)
      returns (referenceLeft: seq<Event>, candidateLeft: seq<Event>, complete: bool,
               thrown: Option<Failure>, ghost made: nat)
      modifies this
      ensures var r := Runner.Run(definition, Runner.Sim(old(Snapshot()), referenceEvents, candidateEvents, false, 0),
                                  schedule);
        && (r.Err? ==> thrown == Some(r.error))
        && (r.Ok? ==> thrown.None? && r.value == Runner.Sim(Snapshot(), referenceLeft, candidateLeft, complete, made))
    {
      ghost var start := Runner.Sim(Snapshot(), referenceEvents, candidateEvents, false, 0);
      referenceLeft, candidateLeft, complete, thrown, made := referenceEvents, candidateEvents, false, None, 0;
      for turn := 0 to |schedule|
        invariant Runner.Run(definition, Runner.Sim(Snapshot(), referenceLeft, candidateLeft, complete, made),
                             schedule[turn..])
               == Runner.Run(definition, start, schedule)
        invariant thrown.None?
      {
        assert schedule[turn..][1..] == schedule[turn + 1..];
        referenceLeft, candidateLeft, complete, thrown, made
          := Turn(schedule[turn], referenceLeft, candidateLeft, complete, made);
        if thrown.Some? {
          return;
        }
      }
    }

    /** Task.WaitAll: each loader applies the rest of its events, then the
        comparison task, once started, runs its loop to the end; with
        neither loader having set the start event it never starts. */
    method WaitAll(referenceEvents: seq<Event>, candidateEvents: seq<Event>, complete: bool, ghost made: nat)
      returns (thrown: Option<Failure>)
      requires Runner.Pending(Runner.Sim(Snapshot(), referenceEvents, candidateEvents, complete, made))
      modifies this
      ensures var f := Runner.Finish(definition, Runner.Sim(old(Snapshot()), referenceEvents, candidateEvents,
                                                            complete, made));
        && (f.Err? ==> thrown == Some(f.error))
        && (f.Ok? ==> thrown.None? && Snapshot() == f.value.st)
    {
      ghost var finish := Runner.Finish(definition, Runner.Sim(Snapshot(), referenceEvents, candidateEvents,
                                                               complete, made));
      var referenceLeft, candidateLeft := referenceEvents, candidateEvents;
      while referenceLeft != []
        invariant Runner.Pending(Runner.Sim(Snapshot(), referenceLeft, candidateLeft, complete, made))
        invariant Runner.Finish(definition, Runner.Sim(Snapshot(), referenceLeft, candidateLeft, complete, made))
               == finish
        decreases |referenceLeft|
      {
        Runner.LoaderActPending(Runner.Sim(Snapshot(), referenceLeft, candidateLeft, complete, made), Reference);
        Receive(Reference, referenceLeft[0]);
        referenceLeft := referenceLeft[1..];
      }
      while candidateLeft != []
        invariant referenceLeft == []
        invariant Runner.Pending(Runner.Sim(Snapshot(), referenceLeft, candidateLeft, complete, made))
        invariant Runner.Finish(definition, Runner.Sim(Snapshot(), referenceLeft, candidateLeft, complete, made))
               == finish
        decreases |candidateLeft|
      {
        Runner.LoaderActPending(Runner.Sim(Snapshot(), referenceLeft, candidateLeft, complete, made), Candidate);
        Receive(Candidate, candidateLeft[0]);
        candidateLeft := candidateLeft[1..];
      }
      thrown := None;
      if !complete {
        if !readyToStartComparison {
          return Some(NeverStarted);
        }
        thrown := CompareCsvs(made);
      }
    }

    /** CompareFiles: ResetState, the two loaders and the comparison task
        taking turns as `schedule` says, Task.WaitAll, and the orphan flush.
        `enumerate` is the order in which a Dictionary lists its keys. */
    method CompareFiles(referenceLines: seq<string>, candidateLines: seq<string>,
                        referenceFile: string, candidateFile: string,
                        schedule: seq<Runner.Actor>, enumerate: map<string, CsvRow> -> seq<string>)
      returns (result: Result<Runner.ComparisonResult, Failure>)
      requires Loader.AllSplit(definition, referenceLines) && Loader.AllSplit(definition, candidateLines)
      requires forall m :: Enumerates(enumerate(m), m)
      modifies this
      ensures result == Runner.CompareFiles(definition, referenceLines, candidateLines,
                                            referenceFile, candidateFile, schedule, enumerate)
    {
      ResetState();
      var referenceLoad := Loader.LoadFile(definition, referenceLines);
      var candidateLoad := Loader.LoadFile(definition, candidateLines);
      var referenceEvents := LoaderEvents(referenceLoad, referenceFile, |referenceLines| == 0);
      var candidateEvents := LoaderEvents(candidateLoad, candidateFile, |candidateLines| == 0);
      ghost var start := Runner.Start(definition, referenceLines, candidateLines, referenceFile, candidateFile);
      assert start == Runner.Sim(Snapshot(), referenceEvents, candidateEvents, false, 0);
      var referenceLeft, candidateLeft, complete, thrown, made := RunTurns(schedule, referenceEvents, candidateEvents);
      if thrown.Some? {
        return Err(thrown.value);
      }
      Runner.RunPending(definition, start, schedule);
      thrown := WaitAll(referenceLeft, candidateLeft, complete, made);
      if thrown.Some? {
        return Err(thrown.value);
      }
      FlushOrphans(enumerate(candidateOrphans), enumerate(referenceOrphans));
      result := Ok(Runner.ComparisonResult(breaks, referenceFile, candidateFile,
                                           numberOfReferenceRows, numberOfCandidateRows));
    }
  }
}
