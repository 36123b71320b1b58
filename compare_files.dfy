/** CompareFiles: two loader tasks and the comparison task over one shared
    CSVComparer state, interleaved as a schedule says, then the orphan flush.
    A schedule is a sequence of turns; each turn lets one task take its next
    step, which is atomic, as CompareCsvs's iterations and the loaders'
    locked updates are. */
module Runner {
  import opened Wrappers
  import opened CsvTypes
  import opened Breaks
  import opened Engine
  import Loader

  datatype Actor = ReferenceLoader | CandidateLoader | ComparerTask

  /** The shared state, each loader's events not yet applied, whether
      CompareCsvs has left its loop, and the CompareRow calls made so far. */
  datatype Sim = Sim(st: State, refEvents: seq<Event>, candEvents: seq<Event>,
                     complete: bool, comparisons: nat)

  /** ComparisonResult without its Date. */
  datatype ComparisonResult = ComparisonResult(breakDetails: seq<BreakDetail>,
                                               referenceSource: string, candidateSource: string,
                                               numberOfReferenceRows: int, numberOfCandidateRows: int)

  /** A loader applies its next event, if it has one. */
  function LoaderAct(sim: Sim, side: Side): (r: Sim)
    ensures r.complete == sim.complete && r.comparisons == sim.comparisons
  {
    if side == Reference then
      if sim.refEvents == [] then sim
      else sim.(st := Apply(sim.st, Reference, sim.refEvents[0]), refEvents := sim.refEvents[1..])
    else
      if sim.candEvents == [] then sim
      else sim.(st := Apply(sim.st, Candidate, sim.candEvents[0]), candEvents := sim.candEvents[1..])
  }

  /** One turn. The comparison task waits for the start event, leaves its
      loop once complete, and otherwise runs one iteration; an exception it
      throws ends CompareFiles. */
  function Act(def: Definition, sim: Sim, actor: Actor): Result<Sim, Failure> {
    match actor
    case ReferenceLoader => Ok(LoaderAct(sim, Reference))
    case CandidateLoader => Ok(LoaderAct(sim, Candidate))
    case ComparerTask =>
      if sim.complete || !sim.st.ready then Ok(sim)
      else
        var r := Step(def, sim.st);
        if r.thrown.Some? then Err(r.thrown.value)
        else Ok(sim.(st := r.st, complete := r.complete, comparisons := sim.comparisons + r.compared))
  }

  /** The turns of a schedule, in order. */
  function Run(def: Definition, sim: Sim, schedule: seq<Actor>): Result<Sim, Failure>
    decreases |schedule|
  {
    if schedule == [] then Ok(sim)
    else match Act(def, sim, schedule[0])
      case Err(f) => Err(f)
      case Ok(next) => Run(def, next, schedule[1..])
  }

  /** The running-loader count equals the decrements still to come. */
  predicate Pending(sim: Sim) {
    sim.st.runningLoaders == ExitCount(sim.refEvents) + ExitCount(sim.candEvents)
  }

  /** The comparison task alone, once both loaders are done, until it
      leaves its loop. */
  function Drain(def: Definition, sim: Sim): Result<Sim, Failure>
    requires sim.st.runningLoaders == 0 && (sim.complete || sim.st.ready)
    decreases |sim.st.refQueue| + |sim.st.candQueue|, if sim.complete then 0 else 1
  {
    if sim.complete then Ok(sim)
    else
      StepProgress(def, sim.st);
      match Act(def, sim, ComparerTask)
      case Err(f) => Err(f)
      case Ok(next) => Drain(def, next)
  }

  /** The comparison task's turn, once started and before its loop
      completes, is one iteration of CompareCsvs. */
  lemma ComparerTurn(def: Definition, sim: Sim)
    requires sim.st.ready && !sim.complete
    ensures var r := Step(def, sim.st);
      && (r.thrown.Some? ==> Act(def, sim, ComparerTask) == Err(r.thrown.value))
      && (r.thrown.None? ==>
            Act(def, sim, ComparerTask)
            == Ok(sim.(st := r.st, complete := r.complete, comparisons := sim.comparisons + r.compared)))
  {
  }

  /** One iteration of the comparison task alone: CompareCsvs' remaining
      run is the iteration followed by the remaining run from its result. */
  lemma DrainStep(def: Definition, sim: Sim)
    requires sim.st.runningLoaders == 0 && sim.st.ready && !sim.complete
    ensures var r := Step(def, sim.st);
      && (r.thrown.Some? ==> Drain(def, sim) == Err(r.thrown.value))
      && (r.thrown.None? ==>
            && r.st.runningLoaders == 0 && r.st.ready
            && Drain(def, sim) == Drain(def, Sim(r.st, sim.refEvents, sim.candEvents, r.complete,
                                                 sim.comparisons + r.compared)))
  {
    StepProgress(def, sim.st);
  }

  /** Task.WaitAll after a schedule: the loaders finish their events, then
      the comparison task runs to the end of its loop; it never starts when
      neither loader set the start event. */
  function Finish(def: Definition, sim: Sim): Result<Sim, Failure>
    requires Pending(sim)
    decreases |sim.refEvents| + |sim.candEvents|
  {
    if sim.refEvents != [] then
      LoaderActPending(sim, Reference);
      Finish(def, LoaderAct(sim, Reference))
    else if sim.candEvents != [] then
      LoaderActPending(sim, Candidate);
      Finish(def, LoaderAct(sim, Candidate))
    else if !sim.complete && !sim.st.ready then Err(NeverStarted)
    else Drain(def, sim)
  }

  /** `ResetState`, then the three tasks. */
  function Start(def: Definition, refLines: seq<string>, candLines: seq<string>,
                 refFile: string, candFile: string): (s: Sim)
    requires Loader.AllSplit(def, refLines) && Loader.AllSplit(def, candLines)
    ensures Pending(s)
  {
    LoaderEventsExit(Loader.Load(def, refLines), refFile, |refLines| == 0);
    LoaderEventsExit(Loader.Load(def, candLines), candFile, |candLines| == 0);
    Sim(Initial,
        LoaderEvents(Loader.Load(def, refLines), refFile, |refLines| == 0),
        LoaderEvents(Loader.Load(def, candLines), candFile, |candLines| == 0),
        false, 0)
  }

  /** The three tasks under a schedule of their turns, then Task.WaitAll. */
  function Execute(def: Definition, refLines: seq<string>, candLines: seq<string>,
                   refFile: string, candFile: string, schedule: seq<Actor>): Result<Sim, Failure>
    requires Loader.AllSplit(def, refLines) && Loader.AllSplit(def, candLines)
  {
    var s0 := Start(def, refLines, candLines, refFile, candFile);
    match Run(def, s0, schedule)
    case Err(f) => Err(f)
    case Ok(s1) =>
      RunPending(def, s0, schedule);
      Finish(def, s1)
  }

  /** CompareFiles under a schedule of the tasks' turns; `enumerate` gives
      the order in which a Dictionary lists its keys. */
  function CompareFiles(def: Definition, refLines: seq<string>, candLines: seq<string>,
                        refFile: string, candFile: string, schedule: seq<Actor>,
                        enumerate: map<string, CsvRow> -> seq<string>): Result<ComparisonResult, Failure>
    requires Loader.AllSplit(def, refLines) && Loader.AllSplit(def, candLines)
    requires forall m :: Enumerates(enumerate(m), m)
  {
    match Execute(def, refLines, candLines, refFile, candFile, schedule)
    case Err(f) => Err(f)
    case Ok(s) =>
      var st := s.st;
      Ok(ComparisonResult(Flush(def, st, enumerate(st.candOrphans), enumerate(st.refOrphans)),
                          refFile, candFile, st.refCount, st.candCount))
  }

  // ---------------------------------------------------------------------
  // What every run keeps
  // ---------------------------------------------------------------------

  /** A turn keeps the running count equal to the decrements to come. */
  lemma ActPending(def: Definition, sim: Sim, actor: Actor)
    requires Pending(sim)
    ensures Act(def, sim, actor).Ok? ==> Pending(Act(def, sim, actor).value)
  {
    match actor
    case ReferenceLoader => LoaderActPending(sim, Reference);
    case CandidateLoader => LoaderActPending(sim, Candidate);
    case ComparerTask =>
      if !sim.complete && sim.st.ready {
        StepProgress(def, sim.st);
      }
  }

  /** A loader's Exit event is the decrement it accounts for. */
  lemma LoaderActPending(sim: Sim, side: Side)
    requires Pending(sim)
    ensures Pending(LoaderAct(sim, side))
  {
    var evs := if side == Reference then sim.refEvents else sim.candEvents;
    if evs != [] {
      var st := Apply(sim.st, side, evs[0]);
      assert st.runningLoaders == sim.st.runningLoaders - (if evs[0] == Exit then 1 else 0);
      assert ExitCount(evs) == (if evs[0] == Exit then 1 else 0) + ExitCount(evs[1..]);
    }
  }

  lemma {:induction false} RunPending(def: Definition, sim: Sim, schedule: seq<Actor>)
    requires Pending(sim)
    ensures Run(def, sim, schedule).Ok? ==> Pending(Run(def, sim, schedule).value)
    decreases |schedule|
  {
    if schedule != [] {
      ActPending(def, sim, schedule[0]);
      if Act(def, sim, schedule[0]).Ok? {
        RunPending(def, Act(def, sim, schedule[0]).value, schedule[1..]);
      }
    }
  }

  /** The reconciliation invariant: the orphan dictionaries share no key,
      and on each side the dequeued rows not waiting as orphans are exactly
      the CompareRow calls made. */
  predicate Balanced(sim: Sim) {
    && Disjoint(sim.st)
    && Matched(sim.st.refCount, sim.st.refOrphans) == sim.comparisons
    && Matched(sim.st.candCount, sim.st.candOrphans) == sim.comparisons
  }

  lemma ActBalanced(def: Definition, sim: Sim, actor: Actor)
    requires Balanced(sim)
    ensures Act(def, sim, actor).Ok? ==> Balanced(Act(def, sim, actor).value)
  {
    match actor
    case ReferenceLoader => LoaderActBalanced(sim, Reference);
    case CandidateLoader => LoaderActBalanced(sim, Candidate);
    case ComparerTask =>
      if !sim.complete && sim.st.ready {
        StepConserves(def, sim.st);
      }
  }

  /** Loader events touch neither the dictionaries nor the counters. */
  lemma LoaderActBalanced(sim: Sim, side: Side)
    requires Balanced(sim)
    ensures Balanced(LoaderAct(sim, side))
  {
    var evs := if side == Reference then sim.refEvents else sim.candEvents;
    if evs != [] {
      var st := Apply(sim.st, side, evs[0]);
      assert st.refOrphans == sim.st.refOrphans && st.candOrphans == sim.st.candOrphans;
    }
  }

  lemma {:induction false} RunBalanced(def: Definition, sim: Sim, schedule: seq<Actor>)
    requires Balanced(sim)
    ensures Run(def, sim, schedule).Ok? ==> Balanced(Run(def, sim, schedule).value)
    decreases |schedule|
  {
    if schedule != [] {
      ActBalanced(def, sim, schedule[0]);
      if Act(def, sim, schedule[0]).Ok? {
        RunBalanced(def, Act(def, sim, schedule[0]).value, schedule[1..]);
      }
    }
  }

  /** Draining ends with the comparison task out of its loop, keeping the
      invariant. */
  lemma {:induction false} DrainMeaning(def: Definition, sim: Sim)
    requires sim.st.runningLoaders == 0 && (sim.complete || sim.st.ready)
    requires Balanced(sim)
    ensures Drain(def, sim).Ok? ==>
      var s := Drain(def, sim).value;
      && s.complete && s.refEvents == sim.refEvents && s.candEvents == sim.candEvents
      && s.st.runningLoaders == 0 && Balanced(s)
    decreases |sim.st.refQueue| + |sim.st.candQueue|, if sim.complete then 0 else 1
  {
    if !sim.complete {
      StepProgress(def, sim.st);
      ActBalanced(def, sim, ComparerTask);
      if Act(def, sim, ComparerTask).Ok? {
        DrainMeaning(def, Act(def, sim, ComparerTask).value);
      }
    }
  }

  /** Finishing applies every remaining loader event, leaves no loader
      running, ends with the comparison task out of its loop, and keeps the
      invariant. */
  lemma {:induction false} FinishMeaning(def: Definition, sim: Sim)
    requires Pending(sim) && Balanced(sim)
    ensures Finish(def, sim).Ok? ==>
      var s := Finish(def, sim).value;
      s.refEvents == [] && s.candEvents == [] && s.st.runningLoaders == 0 && s.complete && Balanced(s)
    decreases |sim.refEvents| + |sim.candEvents|
  {
    if sim.refEvents != [] {
      LoaderActPending(sim, Reference);
      LoaderActBalanced(sim, Reference);
      FinishMeaning(def, LoaderAct(sim, Reference));
    } else if sim.candEvents != [] {
      LoaderActPending(sim, Candidate);
      LoaderActBalanced(sim, Candidate);
      FinishMeaning(def, LoaderAct(sim, Candidate));
    } else if sim.complete || sim.st.ready {
      DrainMeaning(def, sim);
    }
  }

  /** Events that are used up or still end with the final decrement. */
  predicate EndsInExit(evs: seq<Event>) {
    evs == [] || evs[|evs| - 1] == Exit
  }

  /** Where the loaded rows are: on each side, every row the loader will
      have enqueued has been dequeued and counted, waits in the queue, or is
      still to be pushed; and once CompareCsvs leaves its loop without
      early termination, the queues are empty and no loader event remains. */
  predicate Flows(sim: Sim, nRef: nat, nCand: nat) {
    && sim.st.refCount + |sim.st.refQueue| + Pushes(sim.refEvents) == nRef
    && sim.st.candCount + |sim.st.candQueue| + Pushes(sim.candEvents) == nCand
    && EndsInExit(sim.refEvents) && EndsInExit(sim.candEvents)
    && (sim.complete && !sim.st.earlyTerminate ==>
          && sim.st.refQueue == [] && sim.st.candQueue == []
          && sim.refEvents == [] && sim.candEvents == [])
  }

  /** A loader event moves a pushed row into its queue and touches nothing
      else the row count depends on. */
  lemma LoaderActFlows(sim: Sim, side: Side, nRef: nat, nCand: nat)
    requires Flows(sim, nRef, nCand)
    ensures Flows(LoaderAct(sim, side), nRef, nCand)
  {
    var evs := if side == Reference then sim.refEvents else sim.candEvents;
    if evs != [] {
      var ev := evs[0];
      var st := Apply(sim.st, side, ev);
      assert sim.st.earlyTerminate ==> st.earlyTerminate;
      assert Pushes(evs) == (if ev.Push? then 1 else 0) + Pushes(evs[1..]);
      if side == Reference {
        assert |st.refQueue| == |sim.st.refQueue| + (if ev.Push? then 1 else 0);
        assert st.candQueue == sim.st.candQueue;
      } else {
        assert |st.candQueue| == |sim.st.candQueue| + (if ev.Push? then 1 else 0);
        assert st.refQueue == sim.st.refQueue;
      }
    }
  }

  /** Used-up events of a finished loader: no decrement is left, so nothing
      is. */
  lemma NoEventsLeft(evs: seq<Event>)
    requires EndsInExit(evs) && ExitCount(evs) == 0
    ensures evs == []
  {
    if evs != [] {
      ExitLast(evs);
    }
  }

  /** An iteration of the comparison task moves a queued row to the count,
      and the one that completes without early termination empties both
      queues while no loader has events left. */
  lemma ActFlows(def: Definition, sim: Sim, actor: Actor, nRef: nat, nCand: nat)
    requires Pending(sim) && Balanced(sim) && Flows(sim, nRef, nCand)
    ensures Act(def, sim, actor).Ok? ==> Flows(Act(def, sim, actor).value, nRef, nCand)
  {
    match actor
    case ReferenceLoader => LoaderActFlows(sim, Reference, nRef, nCand);
    case CandidateLoader => LoaderActFlows(sim, Candidate, nRef, nCand);
    case ComparerTask =>
      if !sim.complete && sim.st.ready {
        StepMeaning(def, sim.st);
        var r := Step(def, sim.st);
        if r.thrown.None? && r.complete && !r.st.earlyTerminate {
          assert !sim.st.earlyTerminate;
          NoEventsLeft(sim.refEvents);
          NoEventsLeft(sim.candEvents);
        }
      }
  }

  lemma {:induction false} RunFlows(def: Definition, sim: Sim, schedule: seq<Actor>, nRef: nat, nCand: nat)
    requires Pending(sim) && Balanced(sim) && Flows(sim, nRef, nCand)
    ensures Run(def, sim, schedule).Ok? ==> Flows(Run(def, sim, schedule).value, nRef, nCand)
    decreases |schedule|
  {
    if schedule != [] {
      ActPending(def, sim, schedule[0]);
      ActBalanced(def, sim, schedule[0]);
      ActFlows(def, sim, schedule[0], nRef, nCand);
      if Act(def, sim, schedule[0]).Ok? {
        RunFlows(def, Act(def, sim, schedule[0]).value, schedule[1..], nRef, nCand);
      }
    }
  }

  lemma {:induction false} DrainFlows(def: Definition, sim: Sim, nRef: nat, nCand: nat)
    requires sim.st.runningLoaders == 0 && (sim.complete || sim.st.ready)
    requires Pending(sim) && Balanced(sim) && Flows(sim, nRef, nCand)
    ensures Drain(def, sim).Ok? ==> Flows(Drain(def, sim).value, nRef, nCand)
    decreases |sim.st.refQueue| + |sim.st.candQueue|, if sim.complete then 0 else 1
  {
    if !sim.complete {
      StepProgress(def, sim.st);
      ActPending(def, sim, ComparerTask);
      ActBalanced(def, sim, ComparerTask);
      ActFlows(def, sim, ComparerTask, nRef, nCand);
      if Act(def, sim, ComparerTask).Ok? {
        DrainFlows(def, Act(def, sim, ComparerTask).value, nRef, nCand);
      }
    }
  }

  lemma {:induction false} FinishFlows(def: Definition, sim: Sim, nRef: nat, nCand: nat)
    requires Pending(sim) && Balanced(sim) && Flows(sim, nRef, nCand)
    ensures Finish(def, sim).Ok? ==> Flows(Finish(def, sim).value, nRef, nCand)
    decreases |sim.refEvents| + |sim.candEvents|
  {
    if sim.refEvents != [] {
      LoaderActPending(sim, Reference);
      LoaderActBalanced(sim, Reference);
      LoaderActFlows(sim, Reference, nRef, nCand);
      FinishFlows(def, LoaderAct(sim, Reference), nRef, nCand);
    } else if sim.candEvents != [] {
      LoaderActPending(sim, Candidate);
      LoaderActBalanced(sim, Candidate);
      LoaderActFlows(sim, Candidate, nRef, nCand);
      FinishFlows(def, LoaderAct(sim, Candidate), nRef, nCand);
    } else if sim.complete || sim.st.ready {
      DrainFlows(def, sim, nRef, nCand);
    }
  }

  /** The three tasks start with every row still to be pushed. */
  lemma StartFlows(def: Definition, refLines: seq<string>, candLines: seq<string>,
                   refFile: string, candFile: string)
    requires Loader.AllSplit(def, refLines) && Loader.AllSplit(def, candLines)
    ensures Flows(Start(def, refLines, candLines, refFile, candFile),
                  |Loader.Load(def, refLines).rows|, |Loader.Load(def, candLines).rows|)
  {
    LoaderEventsPushes(Loader.Load(def, refLines), refFile, |refLines| == 0);
    LoaderEventsPushes(Loader.Load(def, candLines), candFile, |candLines| == 0);
  }

  /** Whatever the schedule, a comparison that ends has applied every loader
      event, has no loader running, has left CompareCsvs's loop, and keeps
      the reconciliation invariant: the orphan dictionaries share no key and
      NumberOfReferenceRows minus the reference orphans equals
      NumberOfCandidateRows minus the candidate orphans, both being the
      number of CompareRow calls. Every loaded row has been counted or is
      still queued, and unless the comparison was terminated early both
      queues are empty, so each count is the number of rows its loader
      enqueued. */
  lemma ExecuteMeaning(def: Definition, refLines: seq<string>, candLines: seq<string>,
                       refFile: string, candFile: string, schedule: seq<Actor>)
    requires Loader.AllSplit(def, refLines) && Loader.AllSplit(def, candLines)
    ensures var e := Execute(def, refLines, candLines, refFile, candFile, schedule);
      e.Ok? ==>
        && e.value.refEvents == [] && e.value.candEvents == []
        && e.value.st.runningLoaders == 0 && e.value.complete && Balanced(e.value)
        && e.value.st.refCount + |e.value.st.refQueue| == |Loader.Load(def, refLines).rows|
        && e.value.st.candCount + |e.value.st.candQueue| == |Loader.Load(def, candLines).rows|
        && (!e.value.st.earlyTerminate ==>
              && e.value.st.refQueue == [] && e.value.st.candQueue == []
              && e.value.st.refCount == |Loader.Load(def, refLines).rows|
              && e.value.st.candCount == |Loader.Load(def, candLines).rows|)
  {
    var s0 := Start(def, refLines, candLines, refFile, candFile);
    var nRef, nCand := |Loader.Load(def, refLines).rows|, |Loader.Load(def, candLines).rows|;
    StartFlows(def, refLines, candLines, refFile, candFile);
    RunPending(def, s0, schedule);
    RunBalanced(def, s0, schedule);
    RunFlows(def, s0, schedule, nRef, nCand);
    if Run(def, s0, schedule).Ok? {
      FinishMeaning(def, Run(def, s0, schedule).value);
      FinishFlows(def, Run(def, s0, schedule).value, nRef, nCand);
    }
  }

  /** Unless the comparison was terminated early, NumberOfReferenceRows and
      NumberOfCandidateRows are the numbers of rows the loaders enqueued,
      header rows included. */
  lemma RowCounts(def: Definition, refLines: seq<string>, candLines: seq<string>,
                  refFile: string, candFile: string, schedule: seq<Actor>,
                  enumerate: map<string, CsvRow> -> seq<string>)
    requires Loader.AllSplit(def, refLines) && Loader.AllSplit(def, candLines)
    requires forall m :: Enumerates(enumerate(m), m)
    ensures var e := Execute(def, refLines, candLines, refFile, candFile, schedule);
      var c := CompareFiles(def, refLines, candLines, refFile, candFile, schedule, enumerate);
      (c.Ok? <==> e.Ok?) &&
      (e.Ok? && !e.value.st.earlyTerminate ==>
         && c.value.numberOfReferenceRows == |Loader.Load(def, refLines).rows|
         && c.value.numberOfCandidateRows == |Loader.Load(def, candLines).rows|)
  {
    ExecuteMeaning(def, refLines, candLines, refFile, candFile, schedule);
  }

  // ---------------------------------------------------------------------
  // A loader failure is always reported
  // ---------------------------------------------------------------------

  /** The ProcessFailure break `d` is still to be applied, or it has been
      recorded and the comparison is early-terminated. */
  predicate Reports(sim: Sim, d: BreakDetail) {
    Fail(d) in sim.refEvents || Fail(d) in sim.candEvents || (d in sim.st.breaks && sim.st.earlyTerminate)
  }

  /** A loader event never drops a break or clears earlyTerminate. */
  lemma ApplyKeeps(st: State, side: Side, ev: Event, d: BreakDetail)
    ensures d in st.breaks ==> d in Apply(st, side, ev).breaks
    ensures st.earlyTerminate ==> Apply(st, side, ev).earlyTerminate
    ensures ev == Fail(d) ==> d in Apply(st, side, ev).breaks && Apply(st, side, ev).earlyTerminate
  {
    if ev.Fail? {
      assert Apply(st, side, ev).breaks == st.breaks + [ev.detail];
    }
  }

  lemma LoaderActReports(sim: Sim, side: Side, d: BreakDetail)
    requires Reports(sim, d)
    ensures Reports(LoaderAct(sim, side), d)
  {
    var evs := if side == Reference then sim.refEvents else sim.candEvents;
    if evs != [] {
      ApplyKeeps(sim.st, side, evs[0], d);
      if Fail(d) in evs && evs[0] != Fail(d) {
        assert evs == [evs[0]] + evs[1..];
      }
    }
  }

  lemma ActReports(def: Definition, sim: Sim, actor: Actor, d: BreakDetail)
    requires Reports(sim, d)
    ensures Act(def, sim, actor).Ok? ==> Reports(Act(def, sim, actor).value, d)
  {
    match actor
    case ReferenceLoader => LoaderActReports(sim, Reference, d);
    case CandidateLoader => LoaderActReports(sim, Candidate, d);
    case ComparerTask =>
  }

  lemma {:induction false} RunReports(def: Definition, sim: Sim, schedule: seq<Actor>, d: BreakDetail)
    requires Reports(sim, d)
    ensures Run(def, sim, schedule).Ok? ==> Reports(Run(def, sim, schedule).value, d)
    decreases |schedule|
  {
    if schedule != [] {
      ActReports(def, sim, schedule[0], d);
      if Act(def, sim, schedule[0]).Ok? {
        RunReports(def, Act(def, sim, schedule[0]).value, schedule[1..], d);
      }
    }
  }

  lemma {:induction false} DrainReports(def: Definition, sim: Sim, d: BreakDetail)
    requires sim.st.runningLoaders == 0 && (sim.complete || sim.st.ready)
    requires Reports(sim, d)
    ensures Drain(def, sim).Ok? ==> Reports(Drain(def, sim).value, d)
    decreases |sim.st.refQueue| + |sim.st.candQueue|, if sim.complete then 0 else 1
  {
    if !sim.complete {
      StepProgress(def, sim.st);
      ActReports(def, sim, ComparerTask, d);
      if Act(def, sim, ComparerTask).Ok? {
        DrainReports(def, Act(def, sim, ComparerTask).value, d);
      }
    }
  }

  lemma {:induction false} FinishReports(def: Definition, sim: Sim, d: BreakDetail)
    requires Pending(sim) && Reports(sim, d)
    ensures Finish(def, sim).Ok? ==> Reports(Finish(def, sim).value, d)
    decreases |sim.refEvents| + |sim.candEvents|
  {
    if sim.refEvents != [] {
      LoaderActPending(sim, Reference);
      LoaderActReports(sim, Reference, d);
      FinishReports(def, LoaderAct(sim, Reference), d);
    } else if sim.candEvents != [] {
      LoaderActPending(sim, Candidate);
      LoaderActReports(sim, Candidate, d);
      FinishReports(def, LoaderAct(sim, Candidate), d);
    } else if sim.complete || sim.st.ready {
      DrainReports(def, sim, d);
    }
  }

  /** A failed load's events carry its ProcessFailure break. */
  lemma FailEvent(res: Loader.LoadResult, file: string, noLines: bool)
    requires res.failure.Some?
    ensures Fail(ProcessFailureBreak(file, Loader.Message(res.failure.value))) in LoaderEvents(res, file, noLines)
  {
    var pre := (if res.excluded.Some? then [SetExcluded(res.excluded.value)] else [])
      + seq(|res.rows|, k requires 0 <= k < |res.rows| => Push(res.rows[k]));
    var evs := LoaderEvents(res, file, noLines);
    assert evs[|pre|] == Fail(ProcessFailureBreak(file, Loader.Message(res.failure.value)));
  }

  /** When a loader throws, whatever the schedule, a comparison that ends
      reports "Problem loading <file> : <message>" as a ProcessFailure break
      and, being early-terminated, adds no orphan break after it. */
  lemma FailureReported(def: Definition, refLines: seq<string>, candLines: seq<string>,
                        refFile: string, candFile: string, schedule: seq<Actor>,
                        enumerate: map<string, CsvRow> -> seq<string>, side: Side)
    requires Loader.AllSplit(def, refLines) && Loader.AllSplit(def, candLines)
    requires forall m :: Enumerates(enumerate(m), m)
    requires var res := Loader.Load(def, if side == Reference then refLines else candLines);
      res.failure.Some?
    ensures var res := Loader.Load(def, if side == Reference then refLines else candLines);
      var d := ProcessFailureBreak(if side == Reference then refFile else candFile, Loader.Message(res.failure.value));
      var e := Execute(def, refLines, candLines, refFile, candFile, schedule);
      var c := CompareFiles(def, refLines, candLines, refFile, candFile, schedule, enumerate);
      e.Ok? ==>
        && c.Ok? && e.value.st.earlyTerminate && d in c.value.breakDetails
        && c.value.breakDetails == e.value.st.breaks
  {
    var lines := if side == Reference then refLines else candLines;
    var file := if side == Reference then refFile else candFile;
    var res := Loader.Load(def, lines);
    var d := ProcessFailureBreak(file, Loader.Message(res.failure.value));
    FailEvent(res, file, |lines| == 0);
    var s0 := Start(def, refLines, candLines, refFile, candFile);
    assert Reports(s0, d);
    RunPending(def, s0, schedule);
    RunReports(def, s0, schedule, d);
    if Run(def, s0, schedule).Ok? {
      FinishReports(def, Run(def, s0, schedule).value, d);
    }
    ExecuteMeaning(def, refLines, candLines, refFile, candFile, schedule);
  }
}
