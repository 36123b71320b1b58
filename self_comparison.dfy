/** Comparing a file with itself. When the file loads without an exception,
    has unique keys and no row reaches a compared column past the header,
    every schedule of the three tasks ends with no break at all and both row
    counts equal to the number of rows read. */
module SelfComparison {
  import opened Wrappers
  import opened CsvTypes
  import opened Breaks
  import opened Engine
  import opened Runner
  import Loader

  predicate UniqueKeys(rows: seq<CsvRow>) {
    forall p, q :: 0 <= p < q < |rows| ==> rows[p].key != rows[q].key
  }

  /** Every row's compared columns have names in the first row, the header. */
  predicate Covered(rows: seq<CsvRow>, excluded: set<nat>) {
    forall m :: 0 <= m < |rows| ==> HeaderCovers(rows[m], excluded, rows[0].columns)
  }

  /** The rows `lo` up to `hi` as an orphan dictionary. */
  function Orphans(rows: seq<CsvRow>, lo: nat, hi: nat): map<string, CsvRow>
    requires lo <= hi <= |rows|
    decreases hi
  {
    if lo == hi then map[] else Orphans(rows, lo, hi - 1)[rows[hi - 1].key := rows[hi - 1]]
  }

  /** With unique keys, row `m`'s key is in the dictionary exactly when `m`
      is in range, and it maps to that row. */
  lemma {:induction false} OrphansMeaning(rows: seq<CsvRow>, lo: nat, hi: nat)
    requires lo <= hi <= |rows| && UniqueKeys(rows)
    ensures forall m :: 0 <= m < |rows| ==> (rows[m].key in Orphans(rows, lo, hi) <==> lo <= m < hi)
    ensures forall m :: lo <= m < hi ==> Orphans(rows, lo, hi)[rows[m].key] == rows[m]
    decreases hi
  {
    if lo < hi {
      OrphansMeaning(rows, lo, hi - 1);
    }
  }

  /** Taking out the lowest row leaves the dictionary of the rest. */
  lemma {:induction false} OrphansRemoveLow(rows: seq<CsvRow>, lo: nat, hi: nat)
    requires lo < hi <= |rows| && UniqueKeys(rows)
    ensures Orphans(rows, lo, hi) - {rows[lo].key} == Orphans(rows, lo + 1, hi)
    decreases hi
  {
    if lo + 1 < hi {
      OrphansRemoveLow(rows, lo, hi - 1);
      var m := Orphans(rows, lo, hi - 1);
      var k := rows[hi - 1].key;
      assert rows[lo].key != k;
      assert m[k := rows[hi - 1]] - {rows[lo].key} == (m - {rows[lo].key})[k := rows[hi - 1]];
    } else {
      assert Orphans(rows, lo, hi) == map[][rows[lo].key := rows[lo]];
    }
  }

  /** The comparison's bookkeeping after `a` reference and `b` candidate rows
      have been dequeued: the unmatched ones wait as orphans on the side that
      is ahead, the header check was done once both sides reached a row, with
      the first row's fields as names, and nothing has gone wrong. */
  predicate Matching(rows: seq<CsvRow>, a: nat, b: nat, st: State) {
    && a <= |rows| && b <= |rows|
    && (if a >= b then st.candOrphans == map[] && st.refOrphans == Orphans(rows, b, a)
        else st.refOrphans == map[] && st.candOrphans == Orphans(rows, a, b))
    && (st.headerCheck <==> a == 0 || b == 0)
    && (!st.headerCheck ==> 0 < |rows| && st.headerColumns == Some(rows[0].columns))
    && st.breaks == [] && !st.earlyTerminate
  }

  /** The conditions of the theorem on the rows read and their excluded
      columns. */
  predicate Clean(rows: seq<CsvRow>, excluded: set<nat>) {
    UniqueKeys(rows) && Covered(rows, excluded)
  }

  /** A row compared with itself under the names the check will use adds no
      break, throws nothing and only settles the header check. */
  lemma CompareRowSame(def: Definition, st: State, row: CsvRow, excluded: set<nat>)
    requires st.excluded == Some(excluded)
    requires !st.headerCheck ==> st.headerColumns.Some?
    requires HeaderCovers(row, excluded, if st.headerCheck then row.columns else st.headerColumns.value)
    ensures var o := CompareRow(def, st, row.key, row, row);
      o.thrown.None? && o.st == st.(headerCheck := false, headerColumns := o.st.headerColumns)
      && o.st.headerColumns == (if st.headerCheck then Some(row.columns) else st.headerColumns)
  {
    CompareRowMeaning(def, st, row.key, row, row);
    CompareValuesSame(def, row.key, row, excluded,
                      if st.headerCheck then row.columns else st.headerColumns.value, st.breaks);
  }

  /** The candidate's row `b` meets its partner when the reference is ahead,
      and otherwise waits as an orphan. */
  lemma ResolveCandidateSelf(def: Definition, rows: seq<CsvRow>, excluded: set<nat>, st: State, a: nat, b: nat)
    requires Clean(rows, excluded) && st.excluded == Some(excluded)
    requires Matching(rows, a, b, st) && b < |rows|
    ensures var d := ResolveCandidate(def, st, rows[b]);
      d.thrown.None? && Frame(st, d.st) && Matching(rows, a, b + 1, d.st)
  {
    ResolveCandidateFrame(def, st, rows[b]);
    if a > b {
      OrphansMeaning(rows, b, a);
      OrphansRemoveLow(rows, b, a);
      var s1 := st.(refOrphans := Orphans(rows, b + 1, a));
      assert GetOrAddOrphan(rows[b], st.refOrphans, st.candOrphans)
          == Orphaned(Orphans(rows, b + 1, a), st.candOrphans, Some(rows[b]), None);
      assert b == 0 ==> rows[b] == rows[0];
      CompareRowSame(def, s1, rows[b], excluded);
    } else {
      OrphansMeaning(rows, a, b);
      assert GetOrAddOrphan(rows[b], st.refOrphans, st.candOrphans)
          == Orphaned(st.refOrphans, Orphans(rows, a, b + 1), None, None);
    }
  }

  /** The reference's row `a`, symmetrically. */
  lemma ResolveReferenceSelf(def: Definition, rows: seq<CsvRow>, excluded: set<nat>, st: State, a: nat, b: nat)
    requires Clean(rows, excluded) && st.excluded == Some(excluded)
    requires Matching(rows, a, b, st) && a < |rows|
    ensures var d := ResolveReference(def, st, rows[a]);
      d.thrown.None? && Frame(st, d.st) && Matching(rows, a + 1, b, d.st)
  {
    ResolveReferenceFrame(def, st, rows[a]);
    if b > a {
      OrphansMeaning(rows, a, b);
      OrphansRemoveLow(rows, a, b);
      var s1 := st.(candOrphans := Orphans(rows, a + 1, b));
      assert GetOrAddOrphan(rows[a], st.candOrphans, st.refOrphans)
          == Orphaned(Orphans(rows, a + 1, b), st.refOrphans, Some(rows[a]), None);
      assert a == 0 ==> rows[a] == rows[0];
      CompareRowSame(def, s1, rows[a], excluded);
    } else {
      OrphansMeaning(rows, b, a);
      assert GetOrAddOrphan(rows[a], st.candOrphans, st.refOrphans)
          == Orphaned(st.candOrphans, Orphans(rows, b, a + 1), None, None);
    }
  }

  /** Both sides at the same row: compared at once. */
  lemma SameRowSelf(def: Definition, rows: seq<CsvRow>, excluded: set<nat>, st: State, a: nat)
    requires Clean(rows, excluded) && st.excluded == Some(excluded)
    requires Matching(rows, a, a, st) && a < |rows|
    ensures var o := CompareRow(def, st, rows[a].key, rows[a], rows[a]);
      o.thrown.None? && Frame(st, o.st) && Matching(rows, a + 1, a + 1, o.st)
  {
    assert a == 0 ==> rows[a] == rows[0];
    CompareRowSame(def, st, rows[a], excluded);
  }

  /** The dispatch of the dequeued rows `a` and `b`, when present, leading
      to `a'` and `b'` dequeued rows. */
  lemma DispatchSelf(def: Definition, rows: seq<CsvRow>, excluded: set<nat>, st: State,
                     a: nat, b: nat, refRow: Option<CsvRow>, candRow: Option<CsvRow>, a': nat, b': nat)
    requires Clean(rows, excluded) && st.excluded == Some(excluded) && Matching(rows, a, b, st)
    requires refRow.Some? ==> a < |rows| && refRow == Some(rows[a])
    requires candRow.Some? ==> b < |rows| && candRow == Some(rows[b])
    requires a' == a + (if refRow.Some? then 1 else 0) && b' == b + (if candRow.Some? then 1 else 0)
    ensures var d := Dispatch(def, st, refRow, candRow);
      d.thrown.None? && Frame(st, d.st) && Matching(rows, a', b', d.st)
  {
    if refRow.Some? && candRow.Some? {
      if a == b {
        SameRowSelf(def, rows, excluded, st, a);
      } else {
        assert rows[a].key != rows[b].key;
        ResolveCandidateSelf(def, rows, excluded, st, a, b);
        ResolveReferenceSelf(def, rows, excluded, ResolveCandidate(def, st, rows[b]).st, a, b + 1);
      }
    } else if candRow.Some? {
      ResolveCandidateSelf(def, rows, excluded, st, a, b);
    } else if refRow.Some? {
      ResolveReferenceSelf(def, rows, excluded, st, a, b);
    }
  }

  /** The comparison state once `pr` reference and `pc` candidate rows have
      been enqueued. */
  predicate Reading(rows: seq<CsvRow>, st: State, pr: nat, pc: nat) {
    && 0 <= st.refCount <= pr <= |rows| && 0 <= st.candCount <= pc <= |rows|
    && st.refQueue == rows[st.refCount..pr] && st.candQueue == rows[st.candCount..pc]
    && Matching(rows, st.refCount, st.candCount, st)
  }

  /** Dequeuing takes the next enqueued row of each side that has one. */
  lemma DequeueSelf(rows: seq<CsvRow>, st: State, pr: nat, pc: nat)
    requires Reading(rows, st, pr, pc)
    ensures var s1 := Dequeue(st);
      && s1.refCount == st.refCount + (if st.refCount < pr then 1 else 0)
      && s1.candCount == st.candCount + (if st.candCount < pc then 1 else 0)
      && s1.refQueue == rows[s1.refCount..pr] && s1.candQueue == rows[s1.candCount..pc]
      && Front(st.refQueue) == (if st.refCount < pr then Some(rows[st.refCount]) else None)
      && Front(st.candQueue) == (if st.candCount < pc then Some(rows[st.candCount]) else None)
      && Matching(rows, st.refCount, st.candCount, s1)
  {
  }

  /** One iteration keeps the bookkeeping and throws nothing; an iteration
      that completes has dequeued every enqueued row with no loader left. */
  lemma StepSelf(def: Definition, rows: seq<CsvRow>, excluded: set<nat>, st: State, pr: nat, pc: nat)
    requires Clean(rows, excluded) && st.excluded == Some(excluded)
    requires Reading(rows, st, pr, pc)
    ensures var r := Step(def, st);
      && r.thrown.None? && Reading(rows, r.st, pr, pc)
      && r.st.excluded == st.excluded && r.st.ready == st.ready && r.st.runningLoaders == st.runningLoaders
      && (r.complete ==> r.st.refCount == pr && r.st.candCount == pc && st.runningLoaders == 0)
  {
    var s1 := Dequeue(st);
    var a := st.refCount;
    var b := st.candCount;
    DequeueSelf(rows, st, pr, pc);
    DispatchSelf(def, rows, excluded, s1, a, b, Front(st.refQueue), Front(st.candQueue), s1.refCount, s1.candCount);
    var d := Dispatch(def, s1, Front(st.refQueue), Front(st.candQueue));
    assert Step(def, st) == Stepped(d.st, |s1.refQueue| == 0 && |s1.candQueue| == 0 && s1.runningLoaders == 0,
                                    d.thrown, d.compared);
  }

  // ---------------------------------------------------------------------
  // The three tasks on the same file
  // ---------------------------------------------------------------------

  /** Event `i` of a loader whose file loads without an exception and
      reaches its header: the excluded columns, row `i - 1`, or the
      decrement. */
  function EventAt(rows: seq<CsvRow>, excluded: set<nat>, i: nat): Event {
    if i == 0 then SetExcluded(excluded) else if i <= |rows| then Push(rows[i - 1]) else Exit
  }

  /** The events from position `i` on. */
  function EventsFrom(rows: seq<CsvRow>, excluded: set<nat>, i: nat): (evs: seq<Event>)
    ensures |evs| == if i <= |rows| + 2 then |rows| + 2 - i else 0
    decreases |rows| + 2 - i
  {
    if i >= |rows| + 2 then [] else [EventAt(rows, excluded, i)] + EventsFrom(rows, excluded, i + 1)
  }

  lemma EventsFromStep(rows: seq<CsvRow>, excluded: set<nat>, i: nat)
    requires i < |rows| + 2
    ensures EventsFrom(rows, excluded, i)[0] == EventAt(rows, excluded, i)
    ensures EventsFrom(rows, excluded, i)[1..] == EventsFrom(rows, excluded, i + 1)
  {
    var evs := EventsFrom(rows, excluded, i);
    assert evs == [EventAt(rows, excluded, i)] + EventsFrom(rows, excluded, i + 1);
  }

  /** The pushes of rows `k` on, then the decrement. */
  lemma {:induction false} EventsFromRows(rows: seq<CsvRow>, excluded: set<nat>, k: nat)
    requires k <= |rows|
    ensures EventsFrom(rows, excluded, k + 1)
         == seq(|rows| - k, m requires 0 <= m < |rows| - k => Push(rows[k + m])) + [Exit]
    decreases |rows| - k
  {
    var pushes := seq(|rows| - k, m requires 0 <= m < |rows| - k => Push(rows[k + m]));
    if k == |rows| {
      assert EventsFrom(rows, excluded, k + 2) == [];
    } else {
      EventsFromRows(rows, excluded, k + 1);
      var rest := seq(|rows| - (k + 1), m requires 0 <= m < |rows| - (k + 1) => Push(rows[k + 1 + m]));
      assert pushes == [Push(rows[k])] + rest;
    }
  }

  /** LoaderEvents for such a file. */
  lemma EventsSelf(res: Loader.LoadResult, file: string)
    requires res.failure.None? && res.excluded.Some?
    ensures LoaderEvents(res, file, false) == EventsFrom(res.rows, res.excluded.value, 0)
  {
    var rows := res.rows;
    EventsFromRows(rows, res.excluded.value, 0);
    assert seq(|rows| - 0, m requires 0 <= m < |rows| - 0 => Push(rows[0 + m]))
        == seq(|rows|, k requires 0 <= k < |rows| => Push(rows[k]));
  }

  /** The rows a loader has enqueued after `i` of its events. */
  function Pushed(n: nat, i: int): nat {
    if i <= 1 then 0 else if i - 1 <= n then i - 1 else n
  }

  /** The shared state after the reference loader applied `i` events and
      the candidate loader `j`. */
  predicate SelfState(rows: seq<CsvRow>, excluded: set<nat>, st: State, i: nat, j: nat, complete: bool) {
    var n := |rows| + 2;
    && Reading(rows, st, Pushed(|rows|, i), Pushed(|rows|, j))
    && st.excluded == (if i > 0 || j > 0 then Some(excluded) else None)
    && (st.ready <==> Pushed(|rows|, i) > 0 || Pushed(|rows|, j) > 0)
    && st.runningLoaders == (if i == n then 0 else 1) + (if j == n then 0 else 1)
    && (complete ==> i == n && j == n && st.refCount == |rows| && st.candCount == |rows|)
  }

  /** The run so far: each loader has applied a prefix of its events. */
  predicate SelfInv(rows: seq<CsvRow>, excluded: set<nat>, sim: Sim) {
    var n := |rows| + 2;
    && |sim.refEvents| <= n && |sim.candEvents| <= n
    && sim.refEvents == EventsFrom(rows, excluded, n - |sim.refEvents|)
    && sim.candEvents == EventsFrom(rows, excluded, n - |sim.candEvents|)
    && SelfState(rows, excluded, sim.st, n - |sim.refEvents|, n - |sim.candEvents|, sim.complete)
  }

  /** The reference loader's `i`-th event keeps the state invariant. */
  lemma ReferenceEventSelf(rows: seq<CsvRow>, excluded: set<nat>, st: State, i: nat, j: nat)
    requires i < |rows| + 2 && j <= |rows| + 2
    requires SelfState(rows, excluded, st, i, j, false)
    ensures SelfState(rows, excluded, Apply(st, Reference, EventAt(rows, excluded, i)), i + 1, j, false)
  {
    var st' := Apply(st, Reference, EventAt(rows, excluded, i));
    if 1 <= i <= |rows| {
      assert st'.refQueue == st.refQueue + [rows[i - 1]];
      assert rows[st.refCount..i - 1] + [rows[i - 1]] == rows[st.refCount..i];
    }
    assert Matching(rows, st.refCount, st.candCount, st');
  }

  /** The candidate loader's `j`-th event keeps the state invariant. */
  lemma CandidateEventSelf(rows: seq<CsvRow>, excluded: set<nat>, st: State, i: nat, j: nat)
    requires i <= |rows| + 2 && j < |rows| + 2
    requires SelfState(rows, excluded, st, i, j, false)
    ensures SelfState(rows, excluded, Apply(st, Candidate, EventAt(rows, excluded, j)), i, j + 1, false)
  {
    var st' := Apply(st, Candidate, EventAt(rows, excluded, j));
    if 1 <= j <= |rows| {
      assert st'.candQueue == st.candQueue + [rows[j - 1]];
      assert rows[st.candCount..j - 1] + [rows[j - 1]] == rows[st.candCount..j];
    }
    assert Matching(rows, st.refCount, st.candCount, st');
  }

  /** The invariant from the events each loader has applied. */
  lemma SelfInvAt(rows: seq<CsvRow>, excluded: set<nat>, sim: Sim, i: nat, j: nat)
    requires i <= |rows| + 2 && j <= |rows| + 2
    requires sim.refEvents == EventsFrom(rows, excluded, i) && sim.candEvents == EventsFrom(rows, excluded, j)
    requires SelfState(rows, excluded, sim.st, i, j, sim.complete)
    ensures SelfInv(rows, excluded, sim)
  {
  }

  /** The reference loader's turn keeps the invariant. */
  lemma ReferenceActSelf(rows: seq<CsvRow>, excluded: set<nat>, sim: Sim)
    requires SelfInv(rows, excluded, sim)
    ensures SelfInv(rows, excluded, LoaderAct(sim, Reference))
  {
    var n := |rows| + 2;
    var i := n - |sim.refEvents|;
    var j := n - |sim.candEvents|;
    if sim.refEvents != [] {
      ReferenceActAt(rows, excluded, sim, i, j);
    } else {
      assert LoaderAct(sim, Reference) == sim;
    }
  }

  lemma ReferenceActAt(rows: seq<CsvRow>, excluded: set<nat>, sim: Sim, i: nat, j: nat)
    requires i < |rows| + 2 && j <= |rows| + 2
    requires sim.refEvents == EventsFrom(rows, excluded, i) && sim.candEvents == EventsFrom(rows, excluded, j)
    requires SelfState(rows, excluded, sim.st, i, j, sim.complete)
    ensures SelfInv(rows, excluded, LoaderAct(sim, Reference))
  {
    assert !sim.complete;
    EventsFromStep(rows, excluded, i);
    ReferenceEventSelf(rows, excluded, sim.st, i, j);
    SelfInvAt(rows, excluded, LoaderAct(sim, Reference), i + 1, j);
  }

  /** The candidate loader's turn keeps the invariant. */
  lemma CandidateActSelf(rows: seq<CsvRow>, excluded: set<nat>, sim: Sim)
    requires SelfInv(rows, excluded, sim)
    ensures SelfInv(rows, excluded, LoaderAct(sim, Candidate))
  {
    var n := |rows| + 2;
    var i := n - |sim.refEvents|;
    var j := n - |sim.candEvents|;
    if sim.candEvents != [] {
      CandidateActAt(rows, excluded, sim, i, j);
    } else {
      assert LoaderAct(sim, Candidate) == sim;
    }
  }

  lemma CandidateActAt(rows: seq<CsvRow>, excluded: set<nat>, sim: Sim, i: nat, j: nat)
    requires i <= |rows| + 2 && j < |rows| + 2
    requires sim.refEvents == EventsFrom(rows, excluded, i) && sim.candEvents == EventsFrom(rows, excluded, j)
    requires SelfState(rows, excluded, sim.st, i, j, sim.complete)
    ensures SelfInv(rows, excluded, LoaderAct(sim, Candidate))
  {
    assert !sim.complete;
    EventsFromStep(rows, excluded, j);
    CandidateEventSelf(rows, excluded, sim.st, i, j);
    SelfInvAt(rows, excluded, LoaderAct(sim, Candidate), i, j + 1);
  }

  /** An iteration on the state invariant, once the start event is set. */
  lemma StepStateSelf(def: Definition, rows: seq<CsvRow>, excluded: set<nat>, st: State, i: nat, j: nat)
    requires Clean(rows, excluded) && i <= |rows| + 2 && j <= |rows| + 2
    requires SelfState(rows, excluded, st, i, j, false) && st.ready
    ensures var r := Step(def, st);
      r.thrown.None? && SelfState(rows, excluded, r.st, i, j, r.complete)
  {
    StepSelf(def, rows, excluded, st, Pushed(|rows|, i), Pushed(|rows|, j));
  }

  /** The comparison task's turn throws nothing and keeps the invariant. */
  lemma ComparerActSelf(def: Definition, rows: seq<CsvRow>, excluded: set<nat>, sim: Sim)
    requires Clean(rows, excluded) && SelfInv(rows, excluded, sim)
    ensures Act(def, sim, ComparerTask).Ok? && SelfInv(rows, excluded, Act(def, sim, ComparerTask).value)
  {
    if !sim.complete && sim.st.ready {
      ComparerActAt(def, rows, excluded, sim, |rows| + 2 - |sim.refEvents|, |rows| + 2 - |sim.candEvents|);
    } else {
      assert Act(def, sim, ComparerTask) == Ok(sim);
    }
  }

  lemma ComparerActAt(def: Definition, rows: seq<CsvRow>, excluded: set<nat>, sim: Sim, i: nat, j: nat)
    requires Clean(rows, excluded) && i <= |rows| + 2 && j <= |rows| + 2
    requires sim.refEvents == EventsFrom(rows, excluded, i) && sim.candEvents == EventsFrom(rows, excluded, j)
    requires SelfState(rows, excluded, sim.st, i, j, false) && sim.st.ready && !sim.complete
    ensures Act(def, sim, ComparerTask).Ok? && SelfInv(rows, excluded, Act(def, sim, ComparerTask).value)
  {
    var next := ComparerStepSelf(def, rows, excluded, sim, i, j);
    SelfInvAt(rows, excluded, next, i, j);
  }

  /** The comparison task's turn on the state invariant: the next state. */
  lemma ComparerStepSelf(def: Definition, rows: seq<CsvRow>, excluded: set<nat>, sim: Sim, i: nat, j: nat)
    returns (next: Sim)
    requires Clean(rows, excluded) && i <= |rows| + 2 && j <= |rows| + 2
    requires SelfState(rows, excluded, sim.st, i, j, false) && sim.st.ready && !sim.complete
    ensures Act(def, sim, ComparerTask) == Ok(next)
    ensures next.refEvents == sim.refEvents && next.candEvents == sim.candEvents
    ensures SelfState(rows, excluded, next.st, i, j, next.complete)
  {
    StepStateSelf(def, rows, excluded, sim.st, i, j);
    var r := Step(def, sim.st);
    ComparerTurn(def, sim);
    next := sim.(st := r.st, complete := r.complete, comparisons := sim.comparisons + r.compared);
    assert next.st == r.st && next.complete == r.complete;
  }

  lemma ActSelf(def: Definition, rows: seq<CsvRow>, excluded: set<nat>, sim: Sim, actor: Actor)
    requires Clean(rows, excluded) && SelfInv(rows, excluded, sim)
    ensures Act(def, sim, actor).Ok? && SelfInv(rows, excluded, Act(def, sim, actor).value)
  {
    match actor
    case ReferenceLoader => ReferenceActSelf(rows, excluded, sim);
    case CandidateLoader => CandidateActSelf(rows, excluded, sim);
    case ComparerTask => ComparerActSelf(def, rows, excluded, sim);
  }

  lemma {:induction false} RunSelf(def: Definition, rows: seq<CsvRow>, excluded: set<nat>, sim: Sim, schedule: seq<Actor>)
    requires Clean(rows, excluded) && SelfInv(rows, excluded, sim)
    ensures Run(def, sim, schedule).Ok? && SelfInv(rows, excluded, Run(def, sim, schedule).value)
    decreases |schedule|
  {
    if schedule != [] {
      ActSelf(def, rows, excluded, sim, schedule[0]);
      RunSelf(def, rows, excluded, Act(def, sim, schedule[0]).value, schedule[1..]);
    }
  }

  lemma {:induction false} DrainSelf(def: Definition, rows: seq<CsvRow>, excluded: set<nat>, sim: Sim)
    requires Clean(rows, excluded) && SelfInv(rows, excluded, sim)
    requires sim.st.runningLoaders == 0 && (sim.complete || sim.st.ready)
    ensures Drain(def, sim).Ok? && Drain(def, sim).value.complete && SelfInv(rows, excluded, Drain(def, sim).value)
    decreases |sim.st.refQueue| + |sim.st.candQueue|, if sim.complete then 0 else 1
  {
    if !sim.complete {
      StepProgress(def, sim.st);
      ComparerActSelf(def, rows, excluded, sim);
      DrainSelf(def, rows, excluded, Act(def, sim, ComparerTask).value);
    }
  }

  lemma {:induction false} FinishSelf(def: Definition, rows: seq<CsvRow>, excluded: set<nat>, sim: Sim)
    requires Clean(rows, excluded) && rows != [] && SelfInv(rows, excluded, sim) && Pending(sim)
    ensures Finish(def, sim).Ok? && Finish(def, sim).value.complete && SelfInv(rows, excluded, Finish(def, sim).value)
    decreases |sim.refEvents| + |sim.candEvents|
  {
    if sim.refEvents != [] {
      LoaderActPending(sim, Reference);
      ReferenceActSelf(rows, excluded, sim);
      FinishSelf(def, rows, excluded, LoaderAct(sim, Reference));
    } else if sim.candEvents != [] {
      LoaderActPending(sim, Candidate);
      CandidateActSelf(rows, excluded, sim);
      FinishSelf(def, rows, excluded, LoaderAct(sim, Candidate));
    } else {
      DrainSelf(def, rows, excluded, sim);
    }
  }

  /** A Dictionary with no entry enumerates no key. */
  lemma EnumeratesEmpty(keys: seq<string>)
    requires Enumerates(keys, map[])
    ensures keys == []
  {
    if keys != [] {
      FirstIn(keys);
      assert false;
    }
  }

  lemma FirstIn(keys: seq<string>)
    requires keys != []
    ensures keys[0] in keys
  {
  }

  /** Comparing a file with itself: when it loads without an exception,
      reaches its header with at least one row, has unique keys and no
      compared column past the header, then under every schedule of the
      three tasks CompareFiles returns no break, and both row counts are the
      number of rows read. */
  lemma SelfComparisonClean(def: Definition, lines: seq<string>, file: string, schedule: seq<Actor>,
                            enumerate: map<string, CsvRow> -> seq<string>)
    requires Loader.AllSplit(def, lines)
    requires forall m :: Enumerates(enumerate(m), m)
    requires var res := Loader.Load(def, lines);
      res.failure.None? && res.excluded.Some? && res.rows != [] && Clean(res.rows, res.excluded.value)
    ensures var res := Loader.Load(def, lines);
      CompareFiles(def, lines, lines, file, file, schedule, enumerate)
        == Ok(ComparisonResult([], file, file, |res.rows|, |res.rows|))
  {
    var res := Loader.Load(def, lines);
    var rows := res.rows;
    var excluded := res.excluded.value;
    Loader.LoadMeaning(def, lines);
    assert |lines| != 0;
    EventsSelf(res, file);
    var s0 := Start(def, lines, lines, file, file);
    assert s0 == Sim(Initial, EventsFrom(rows, excluded, 0), EventsFrom(rows, excluded, 0), false, 0);
    assert Reading(rows, s0.st, 0, 0);
    RunSelf(def, rows, excluded, s0, schedule);
    var s1 := Run(def, s0, schedule).value;
    RunPending(def, s0, schedule);
    FinishSelf(def, rows, excluded, s1);
    var s2 := Finish(def, s1).value;
    assert s2.st.refOrphans == map[] && s2.st.candOrphans == map[];
    EnumeratesEmpty(enumerate(s2.st.candOrphans));
    EnumeratesEmpty(enumerate(s2.st.refOrphans));
  }
}
