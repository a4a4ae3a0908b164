/** Whole runs: safety, the destructor, names, and what removal achieves. */
module SchedulerRuns {
  import opened TaskNames
  import opened TaskQueue
  import opened SchedulerSteps
  import opened SchedulerSafety
  import opened SchedulerPass

  lemma StepKeeps(s: State, step: Step)
    requires Inv(s) && Enabled(s, step)
    ensures Inv(Apply(s, step))
  {
    hide Inv, Apply, Enabled;
    match step {
      case InsertTask(_, _, _, _) => InsertTaskKeeps(s, step);
      case Register => RegisterKeeps(s);
      case Finish(ref, clock) => FinishKeeps(s, ref, clock);
      case ClearInterval(id) => ClearIntervalKeeps(s, id);
      case Erase => EraseKeeps(s);
      case Manage(readings) => ManageKeeps(s, readings);
      case _ => SimpleKeeps(s, step);
    }
  }

  lemma {:induction false} RunKeeps(s: State, steps: seq<Step>)
    requires Inv(s) && IsRun(s, steps)
    ensures Inv(After(s, steps))
    decreases |steps|
  {
    hide Inv, Apply, Enabled;
    if steps != [] {
      StepKeeps(s, steps[0]);
      RunKeeps(Apply(s, steps[0]), steps[1..]);
    }
  }

  /** Every state that can be reached satisfies the invariant. */
  lemma ReachableSafe(now: int, steps: seq<Step>)
    requires now >= 0 && IsRun(Fresh(now), steps)
    ensures Inv(After(Fresh(now), steps))
  {
    RunKeeps(Fresh(now), steps);
  }

  /** In every state that can be reached: a steady cron task was started for
      each match once at most, and for nothing else but the time it was added
      for. */
  lemma EachMatchOnce(now: int, steps: seq<Step>, i: nat, j: nat)
    requires now >= 0 && IsRun(Fresh(now), steps)
    requires var t := After(Fresh(now), steps);
      && i < j < |t.log| && t.log[i].ref == t.log[j].ref
      && t.log[i].ref in t.tasks && Steady(t.tasks[t.log[i].ref].kind)
    ensures var t := After(Fresh(now), steps);
      var task := t.tasks[t.log[i].ref];
      && t.log[i].key <= t.log[i].at < t.log[j].key <= t.log[j].at
      && (t.log[j].key == task.time || AtMatch(task.kind, t.log[j].key))
  {
    hide AtMatch, AlwaysAdvances, Timed, Apply, Enabled, NoLostWakeup, TaskOk, EntryOk, Known;
    ReachableSafe(now, steps);
    var t := After(Fresh(now), steps);
    assert Spaced(t.tasks[t.log[i].ref].kind, t.log[i].at, t.log[j].key);
    TimedMatches(t.tasks[t.log[j].ref], t.log[j].key);
  }

  // ----- The destructor -----

  predicate OfManager(step: Step) {
    step.Check? || step.Look? || step.Peek? || step.Wake? || step.Manage?
  }

  /** How many steps the manager may still take once `done` is set. */
  function StepsLeft(m: Manager): nat {
    match m
    case Looking => 5
    case Peeking => 4
    case Asleep(_) => 3
    case Managing => 2
    case CheckDone => 1
    case Exited => 0
  }

  /** Once the destructor has set `done` the manager thread ends after at most
      five more steps of its own, and after the destructor's interrupt it never
      blocks on its sleep. */
  lemma DestructorJoins(s: State, step: Step)
    requires Inv(s) && !s.closing.Open? && Enabled(s, step)
    ensures var t := Apply(s, step);
      && !t.closing.Open? && (s.closing.Signalled? ==> t.closing.Signalled?)
      && (OfManager(step) ==> StepsLeft(t.manager) < StepsLeft(s.manager))
      && (!OfManager(step) ==> t.manager == s.manager)
    ensures s.closing.Signalled? && s.manager.Asleep? ==> Enabled(s, Wake)
    ensures s.manager.Peeking? ==> Enabled(s, Peek)
  {
    hide Known, TaskOk, EntryOk, LogOk, Sorted, Serve, Servable, InsertAll, Spaced, Timed;
    hide Insert, NewTime, FirstFree, Later, Due, Kind.Valid, InternalName, UpperBound;
    assert s.closing.Signalled? && (s.manager.Asleep? || s.manager.Looking? || s.manager.Peeking?) ==> s.interrupted;
    match step {
      case Manage(_) =>
      case Finish(_, _) =>
      case Register =>
      case ClearInterval(_) =>
      case _ =>
    }
  }

  // ----- Names -----

  /** A task added without a name gets one that no registered task has, and
      registration never replaces a registered task. */
  lemma RegisterIsFresh(s: State)
    requires Inv(s) && Enabled(s, Register)
    ensures var t, ref := Apply(s, Register), s.adder.ref;
      && (forall id | id in s.ids :: id in t.ids && t.ids[id] == s.ids[id])
      && (s.tasks[ref].id == "" ==> t.tasks[ref].id !in s.ids && t.ids[t.tasks[ref].id] == ref)
      && (s.tasks[ref].id != ""
          ==> t.tasks[ref].id == s.tasks[ref].id && (ref in t.ids.Values <==> s.tasks[ref].id !in s.ids))
  {
    hide TaskOk, EntryOk, LogOk, Sorted, NoLostWakeup, AfterManage, Later, NewTime, Due, Insert;
    var t, ref := Apply(s, Register), s.adder.ref;
    var id := s.tasks[ref].id;
    if id != "" && id !in s.ids {
      assert t.ids[id] == ref;
    }
  }

  // ----- Tasks that never start again -----

  /** Not registered, and either no body runs, or no entry is left and none
      will come. */
  ghost predicate Silent(s: State, ref: Ref) {
    && ref in s.tasks && ref !in s.ids.Values && !(s.adder.Inserted? && s.adder.ref == ref)
    && (s.running[ref] == 0 || (Count(s.queue, ref) == 0 && !s.tasks[ref].interval))
  }

  lemma SilentPass(s: State, readings: seq<int>, ref: Ref)
    requires Inv(s) && Enabled(s, Manage(readings)) && Silent(s, ref)
    ensures var t := Apply(s, Manage(readings)); Silent(t, ref) && Starts(t.log, ref) == Starts(s.log, ref)
  {
    hide Serve, InsertAll, Starts, Count, Servable, TaskOk, EntryOk;
    hide LogOk, Known, Enabled, AfterManage, NoLostWakeup, Sorted;
    var k := PassServes(s, readings);
    var p := Serve(s, s.queue[..k], readings[0], readings[1..]);
    ServeTask(s, s.queue[..k], readings[0], readings[1..], ref);
    CountInsertAll(s.queue[k..], p.recurred, ref);
  }

  lemma SilentStep(s: State, step: Step, ref: Ref)
    requires Inv(s) && Enabled(s, step) && Silent(s, ref)
    ensures var t := Apply(s, step); Silent(t, ref) && Starts(t.log, ref) == Starts(s.log, ref)
  {
    hide Starts, Count, TaskOk, EntryOk, LogOk, NoLostWakeup, Sorted, Insert, Spaced, Timed;
    hide NewTime, FirstFree, InternalName, AfterManage, Later, Due, Kind.Valid;
    match step {
      case Manage(readings) => SilentPass(s, readings, ref);
      case InsertTask(r, time, _, _) => CountInsert(s.queue, Entry(time, r), ref);
      case Finish(r, clock) => CountInsert(s.queue, Entry(NewTime(s.tasks[r].kind, clock), r), ref);
      case _ =>
    }
  }

  /** A silent task is never started again, whatever happens. */
  lemma {:induction false} SilentForever(s: State, steps: seq<Step>, ref: Ref)
    requires Inv(s) && IsRun(s, steps) && Silent(s, ref)
    ensures Starts(After(s, steps).log, ref) == Starts(s.log, ref)
    decreases |steps|
  {
    hide Inv, Apply, Enabled, Silent, Starts;
    if steps != [] {
      SilentStep(s, steps[0], ref);
      StepKeeps(s, steps[0]);
      SilentForever(Apply(s, steps[0]), steps[1..], ref);
    }
  }
}
