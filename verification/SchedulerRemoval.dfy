/** What `remove` and a second task under a held name achieve. */
module SchedulerRemoval {
  import opened Wrappers
  import opened TaskNames
  import opened TaskQueue
  import opened SchedulerSteps
  import opened SchedulerSafety
  import opened SchedulerPass
  import opened SchedulerRuns

  // ----- Composing runs -----

  lemma OneStep(s: State, step: Step, steps: seq<Step>)
    requires Enabled(s, step) && IsRun(Apply(s, step), steps)
    ensures IsRun(s, [step] + steps) && After(s, [step] + steps) == After(Apply(s, step), steps)
  {
    assert ([step] + steps)[1..] == steps;
  }

  lemma {:induction false} Join(s: State, a: seq<Step>, b: seq<Step>)
    requires IsRun(s, a) && IsRun(After(s, a), b)
    ensures IsRun(s, a + b) && After(s, a + b) == After(After(s, a), b)
    decreases |a|
  {
    hide Apply, Enabled;
    if a == [] {
      assert a + b == b;
    } else {
      Join(Apply(s, a[0]), a[1..], b);
      assert (a + b)[1..] == a[1..] + b;
    }
  }

  // ----- A second task under a held name -----

  /** It is dropped at once and never runs, and the first one keeps its name. */
  lemma SecondTaskNeverRuns(s: State, steps: seq<Step>)
    requires Inv(s) && Enabled(s, Register) && s.tasks[s.adder.ref].id in s.ids && s.tasks[s.adder.ref].id != ""
    requires IsRun(Apply(s, Register), steps)
    ensures Apply(s, Register).ids == s.ids
    ensures Starts(After(Apply(s, Register), steps).log, s.adder.ref) == 0
  {
    hide Inv, Starts, After, IsRun, InternalName, AfterManage, Later, Due, Kind.Valid, NewTime, Insert, Count;
    var ref, t := s.adder.ref, Apply(s, Register);
    StepKeeps(s, Register);
    assert s.running[ref] == 0 && Starts(s.log, ref) == 0 && ref !in s.ids.Values by { BeforeRegistration(s); }
    SilentForever(t, steps, ref);
  }

  lemma BeforeRegistration(s: State)
    requires Inv(s) && s.adder.Inserted?
    ensures s.adder.ref in s.tasks && s.running[s.adder.ref] == 0 && Starts(s.log, s.adder.ref) == 0
      && s.adder.ref !in s.ids.Values
  {
  }

  // ----- Removal -----

  /** What the two steps of `remove` leave of an interval task that nobody
      else touched in between. */
  lemma RemovedAtOnce(s: State, id: string, steps: seq<Step>)
    requires Inv(s) && Enabled(s, ClearInterval(id)) && s.tasks[s.ids[id]].kind.Interval? && s.tasks[s.ids[id]].interval
    requires var t := Apply(s, ClearInterval(id)); Enabled(t, Erase) && IsRun(Apply(t, Erase), steps)
    ensures var t := Apply(Apply(s, ClearInterval(id)), Erase);
      Starts(After(t, steps).log, s.ids[id]) == Starts(s.log, s.ids[id])
  {
    hide Inv, Starts, After, IsRun, Count, Known, Sorted;
    hide EntryOk, LogOk, NoLostWakeup, AfterManage, Later, Due, Kind.Valid;
    var ref := s.ids[id];
    var t := Apply(s, ClearInterval(id));
    RegisteredTask(s, id);
    StepKeeps(s, ClearInterval(id));
    StepKeeps(t, Erase);
    ErasedIsGone(t);
    SilentForever(Apply(t, Erase), steps, ref);
  }

  lemma RegisteredTask(s: State, id: string)
    requires Inv(s) && id in s.ids
    ensures s.ids[id] in s.tasks && TaskOk(s, s.ids[id]) && !(s.adder.Inserted? && s.adder.ref == s.ids[id])
    ensures Live(s, s.ids[id])
  {
    hide TaskOk;
    assert s.ids[id] in s.ids.Values;
  }

  lemma ErasedIsGone(s: State)
    requires Inv(s) && Enabled(s, Erase)
    ensures var t, ref := Apply(s, Erase), s.ids[s.removing.value];
      && ref in t.tasks && ref !in t.ids.Values && !(t.adder.Inserted? && t.adder.ref == ref) && !t.tasks[ref].interval
      && t.running == s.running && t.queue == s.queue && t.log == s.log && t.tasks == s.tasks
  {
    hide TaskOk, EntryOk, LogOk, Sorted, NoLostWakeup;
    var t, id := Apply(s, Erase), s.removing.value;
    RegisteredTask(s, id);
    forall i | i in t.ids
      ensures t.ids[i] != s.ids[id]
    {
      assert i in s.ids && s.tasks[s.ids[i]].id == i;
    }
  }

  /** The manager is at work and nobody is adding or removing. */
  ghost predicate Working(s: State) {
    s.adder.Free? && s.closing.Open? && !s.manager.Exited?
  }

  /** Only the clock, the interrupt and the manager changed. */
  ghost predicate OnlyManager(s: State, t: State) {
    t == s.(now := t.now, interrupted := t.interrupted, manager := t.manager)
  }

  function Rank(m: Manager): nat {
    match m
    case CheckDone => 4
    case Looking => 3
    case Peeking => 2
    case Asleep(_) => 1
    case Managing => 0
    case Exited => 0
  }

  /** The next step of a manager that is not asleep. */
  lemma ManagerMoves(s: State, step: Step)
    requires Inv(s) && Working(s) && s.queue != []
    requires step == match s.manager { case CheckDone => Check case Looking => Look case _ => Peek }
    requires s.manager.CheckDone? || s.manager.Looking? || s.manager.Peeking?
    ensures Enabled(s, step)
    ensures var t := Apply(s, step);
      Rank(t.manager) < Rank(s.manager) && Working(t) && OnlyManager(s, t) && t.now == s.now
  {
    hide Known, TaskOk, EntryOk, LogOk, Sorted, AfterManage, Later, Due, Kind.Valid;
  }

  lemma Tick(s: State, now: int)
    requires s.now <= now
    ensures Enabled(s, Step.Tick(now)) && Apply(s, Step.Tick(now)) == s.(now := now)
  {
  }

  /** A sleeping manager wakes in time. */
  lemma SleeperWakes(s: State, late: int) returns (steps: seq<Step>)
    requires Inv(s) && Working(s) && s.queue != [] && late >= s.now && s.manager.Asleep?
    ensures IsRun(s, steps)
    ensures var t := After(s, steps); t.manager.Managing? && OnlyManager(s, t) && t.now >= late
  {
    hide Known, TaskOk, EntryOk, LogOk, Sorted, AfterManage, Later, Due, Kind.Valid, IsRun, After;
    assert s.manager.until.None? ==> s.interrupted by {
      assert s.queue[0] in s.queue;
    }
    var now := if s.manager.until.Some? && s.manager.until.value > late then s.manager.until.value else late;
    var t := s.(now := now);
    Tick(s, now);
    var u := Apply(t, Wake);
    EmptyRun(u);
    OneStep(t, Wake, []);
    OneStep(s, Step.Tick(now), [Wake] + []);
    steps := [Step.Tick(now)] + ([Wake] + []);
  }

  lemma EmptyRun(s: State)
    ensures IsRun(s, []) && After(s, []) == s
  {
  }

  /** From any place the manager gets to its next pass. */
  lemma {:induction false} ToManaging(s: State, late: int) returns (steps: seq<Step>)
    requires Inv(s) && Working(s) && s.queue != [] && late >= s.now
    ensures IsRun(s, steps)
    ensures var t := After(s, steps); t.manager.Managing? && OnlyManager(s, t) && t.now >= late
    decreases Rank(s.manager)
  {
    hide Inv, Enabled, Apply, IsRun, After;
    if s.manager.Managing? {
      Tick(s, late);
      EmptyRun(s.(now := late));
      OneStep(s, Step.Tick(late), []);
      steps := [Step.Tick(late)] + [];
    } else if s.manager.Asleep? {
      steps := SleeperWakes(s, late);
    } else {
      var step := match s.manager { case CheckDone => Check case Looking => Look case _ => Peek };
      ManagerMoves(s, step);
      StepKeeps(s, step);
      var rest := ToManaging(Apply(s, step), late);
      OneStep(s, step, rest);
      steps := [step] + rest;
    }
  }

  /** A removed task with an entry and a body that runs. */
  ghost predicate Restartable(s: State, ref: Ref) {
    && ref in s.tasks && ref !in s.ids.Values && s.running[ref] > 0 && Count(s.queue, ref) == 1
    && !s.tasks[ref].interval && Working(s)
  }

  lemma EntryOf(s: State, ref: Ref) returns (e: Entry)
    requires Inv(s) && Count(s.queue, ref) == 1
    ensures e in s.queue && e.ref == ref && s.queue != []
  {
    CountPositive(s.queue, ref);
    e :| e in s.queue && e.ref == ref;
  }

  /** A one-shot that runs has no entry. */
  lemma RestartableRecurs(s: State, ref: Ref)
    requires Inv(s) && Restartable(s, ref)
    ensures s.tasks[ref].Recurs()
  {
    assert TaskOk(s, ref);
  }

  /** The readings of a clock that stands still. */
  function Still(s: State): seq<int> {
    seq(1 + UpperBound(s.queue, s.now), _ => s.now)
  }

  lemma StillManages(s: State)
    requires Inv(s) && Working(s) && s.manager.Managing?
    ensures Enabled(s, Manage(Still(s)))
  {
    hide EntryOk, LogOk, NoLostWakeup, UpperBound, AfterManage;
    forall e | e in s.queue
      ensures e.ref in s.tasks && s.tasks[e.ref].kind.Valid()
    {
      assert TaskOk(s, e.ref);
    }
  }

  lemma DueOnce(s: State, k: nat, e: Entry)
    requires Sorted(s.queue) && k == UpperBound(s.queue, s.now) && e in s.queue && e.time <= s.now
      && Count(s.queue, e.ref) == 1
    ensures Count(s.queue[..k], e.ref) == 1
  {
    hide Count;
    var due, rest := s.queue[..k], s.queue[k..];
    assert s.queue == due + rest;
    CountAppend(due, rest, e.ref);
    assert e !in rest;
    CountPositive(due, e.ref);
  }

  /** A pass at a time when its entry is due starts a live recurring task
      and queues it anew. */
  lemma PassStarts(s: State, ref: Ref, e: Entry)
    requires Inv(s) && Working(s) && s.manager.Managing? && e in s.queue && e.ref == ref && e.time <= s.now
    requires ref in s.tasks && Live(s, ref) && Count(s.queue, ref) == 1 && s.tasks[ref].Recurs()
      && !s.tasks[ref].interval
    ensures Enabled(s, Manage(Still(s)))
    ensures var t := Apply(s, Manage(Still(s)));
      && t == s.(now := t.now, queue := t.queue, running := t.running, log := t.log, manager := CheckDone)
      && Count(t.queue, ref) == 1 && t.running[ref] == s.running[ref] + 1
      && Starts(t.log, ref) == Starts(s.log, ref) + 1
  {
    hide Serve, InsertAll, Starts, Count, Servable, TaskOk, EntryOk, LogOk;
    hide Known, Enabled, AfterManage, NoLostWakeup, UpperBound, Still, Live;
    StillManages(s);
    assert Still(s)[0] == s.now by { StillNow(s); }
    var k := PassServes(s, Still(s));
    var p := Serve(s, s.queue[..k], Still(s)[0], Still(s)[1..]);
    DueOnce(s, k, e);
    ServeTask(s, s.queue[..k], Still(s)[0], Still(s)[1..], ref);
    CountInsertAll(s.queue[k..], p.recurred, ref);
    assert Apply(s, Manage(Still(s))) == AfterManage(s, Still(s));
  }

  lemma PassRestarts(s: State, ref: Ref, e: Entry)
    requires Inv(s) && Restartable(s, ref) && s.manager.Managing? && e in s.queue && e.ref == ref && e.time <= s.now
    ensures Enabled(s, Manage(Still(s)))
    ensures var t := Apply(s, Manage(Still(s))); Restartable(t, ref) && Starts(t.log, ref) == Starts(s.log, ref) + 1
  {
    hide Inv, Enabled, Apply, Starts, Count, Still;
    RestartableRecurs(s, ref);
    PassStarts(s, ref, e);
  }

  lemma StillNow(s: State)
    ensures |Still(s)| > 0 && Still(s)[0] == s.now
  {
  }

  /** One more start, and again the same situation. */
  lemma OneMoreStart(s: State, ref: Ref) returns (steps: seq<Step>)
    requires Inv(s) && Restartable(s, ref)
    ensures IsRun(s, steps)
    ensures var t := After(s, steps); Inv(t) && Restartable(t, ref) && Starts(t.log, ref) == Starts(s.log, ref) + 1
  {
    hide Inv, Enabled, Apply, IsRun, After, Starts, Count, Still;
    var e := EntryOf(s, ref);
    var late := if e.time > s.now then e.time else s.now;
    var before := ToManaging(s, late);
    var t := After(s, before);
    RunKeeps(s, before);
    PassRestarts(t, ref, e);
    StepKeeps(t, Manage(Still(t)));
    EmptyRun(Apply(t, Manage(Still(t))));
    OneStep(t, Manage(Still(t)), []);
    var last := [Manage(Still(t))] + [];
    Join(s, before, last);
    steps := before + last;
  }

  lemma {:induction false} ManyMoreStarts(s: State, ref: Ref, n: nat) returns (steps: seq<Step>)
    requires Inv(s) && Restartable(s, ref)
    ensures IsRun(s, steps) && Starts(After(s, steps).log, ref) == Starts(s.log, ref) + n
    decreases n
  {
    hide Inv, Enabled, Apply, IsRun, After, Starts, Restartable;
    if n == 0 {
      steps := [];
      EmptyRun(s);
    } else {
      var first := OneMoreStart(s, ref);
      var rest := ManyMoreStarts(After(s, first), ref, n - 1);
      Join(s, first, rest);
      steps := first + rest;
    }
  }

  /** In any state: a removed task without an entry, or without a body that
      runs, never starts again. */
  lemma RemovedNeverAgain(s: State, steps: seq<Step>)
    requires Inv(s) && Enabled(s, Erase) && IsRun(Apply(s, Erase), steps)
    ensures s.removing.Some? && s.removing.value in s.ids
    ensures var t, ref := Apply(s, Erase), s.ids[s.removing.value];
      !(Count(s.queue, ref) == 1 && s.running[ref] > 0) ==> Starts(After(t, steps).log, ref) == Starts(t.log, ref)
  {
    hide Inv, IsRun, After, Starts, Count, Apply, Enabled;
    RemovingSomeone(s);
    var t, ref := Apply(s, Erase), s.ids[s.removing.value];
    StepKeeps(s, Erase);
    ErasedIsGone(s);
    AtMostOneEntry(s, ref);
    if !(Count(s.queue, ref) == 1 && s.running[ref] > 0) {
      SilentForever(t, steps, ref);
    }
  }

  lemma RemovingSomeone(s: State)
    requires Inv(s) && Enabled(s, Erase)
    ensures s.removing.Some? && s.removing.value in s.ids
  {
  }

  /** With the manager at work, a removed task can start again exactly if it
      has both an entry and a body that runs; then it can start any number of
      times. */
  lemma RemovedStartsAgain(s: State, n: nat)
    requires Inv(s) && Enabled(s, Erase) && Working(s)
    ensures var t, ref := Apply(s, Erase), s.ids[s.removing.value];
      (exists steps :: IsRun(t, steps) && Starts(After(t, steps).log, ref) == Starts(t.log, ref) + 1 + n)
      <==> (Count(s.queue, ref) == 1 && s.running[ref] > 0)
  {
    hide Inv, IsRun, After, Starts, Count, Apply, Enabled;
    StillWorking(s);
    var t, ref := Apply(s, Erase), s.ids[s.removing.value];
    StepKeeps(s, Erase);
    ErasedIsGone(s);
    if Count(s.queue, ref) == 1 && s.running[ref] > 0 {
      var steps := ManyMoreStarts(t, ref, n + 1);
    } else {
      forall steps | IsRun(t, steps)
        ensures Starts(After(t, steps).log, ref) == Starts(t.log, ref)
      {
        RemovedNeverAgain(s, steps);
      }
    }
  }

  lemma StillWorking(s: State)
    requires Inv(s) && Enabled(s, Erase) && Working(s)
    ensures Working(Apply(s, Erase)) && s.removing.Some? && s.removing.value in s.ids
  {
  }

  lemma AtMostOneEntry(s: State, ref: Ref)
    requires Inv(s) && ref in s.tasks
    ensures Count(s.queue, ref) <= 1
  {
    assert TaskOk(s, ref);
  }

  // ----- A pass between the two steps of `remove` -----

  const RACE_TASK := Task("x", Interval(1), true, 0)

  /** It was added, and nothing else has happened. */
  function Added(): State {
    State(0, map[0 := RACE_TASK], [Entry(0, 0)], map["x" := 0], 0, multiset{}, [], Free, None, true, CheckDone, Open)
  }

  lemma AddedIsReached() returns (steps: seq<Step>)
    ensures IsRun(Fresh(0), steps) && After(Fresh(0), steps) == Added() && Inv(Added())
  {
    hide IsRun, After, FirstFree, InternalName, AfterManage, Later, Due, Inv;
    var add := InsertTask(0, 0, "x", Interval(1));
    var s1 := State(0, map[0 := RACE_TASK], [Entry(0, 0)], map[], 0, multiset{}, [], Inserted(0), None, false,
      CheckDone, Open);
    var s2 := s1.(ids := map["x" := 0], adder := Registered(0));
    assert Enabled(Fresh(0), add) && Apply(Fresh(0), add) == s1;
    assert s1.tasks[0].(id := "x") == RACE_TASK;
    assert Enabled(s1, Register) && Apply(s1, Register) == s2;
    assert Enabled(s2, Signal) && Apply(s2, Signal) == Added();
    EmptyRun(Added());
    OneStep(s2, Signal, []);
    OneStep(s1, Register, [Signal] + []);
    OneStep(Fresh(0), add, [Register] + ([Signal] + []));
    steps := [add] + ([Register] + ([Signal] + []));
    ReachableSafe(0, steps);
  }

  /** A pass between the two steps of `remove` starts the interval task as a
      recurring one. After `remove` has returned it can then start any number
      of times. */
  lemma RemoveRace(n: nat) returns (before: seq<Step>, after: seq<Step>)
    ensures IsRun(Fresh(0), before)
    ensures var s := After(Fresh(0), before);
      && s.removing == Some("x") && "x" in s.ids && s.ids["x"] in s.tasks && s.tasks[s.ids["x"]].kind.Interval?
      && Enabled(s, Erase)
      && var t := Apply(s, Erase);
         IsRun(t, after) && Starts(After(t, after).log, s.ids["x"]) == Starts(t.log, s.ids["x"]) + 1 + n
  {
    hide Inv, IsRun, After, Starts, Count, AfterManage, Later, Due, FirstFree, Still;
    var add := AddedIsReached();
    var s := Added();
    var wait := ToManaging(s, 0);
    var due := After(s, wait);
    RunKeeps(s, wait);
    var clear := ClearInterval("x");
    var cleared := Apply(due, clear);
    StepKeeps(due, clear);
    assert 0 in cleared.ids.Values by { assert cleared.ids["x"] == 0; }
    assert Count(cleared.queue, 0) == 1 by { CountOne(Entry(0, 0)); }
    PassStarts(cleared, 0, Entry(0, 0));
    var manage := Manage(Still(cleared));
    var raced := Apply(cleared, manage);
    StepKeeps(cleared, manage);
    EmptyRun(raced);
    OneStep(cleared, manage, []);
    OneStep(due, clear, [manage] + []);
    Join(s, wait, [clear] + ([manage] + []));
    Join(Fresh(0), add, wait + ([clear] + ([manage] + [])));
    before := add + (wait + ([clear] + ([manage] + [])));
    RemovedStartsAgain(raced, n);
    after :| IsRun(Apply(raced, Erase), after)
      && Starts(After(Apply(raced, Erase), after).log, 0) == Starts(Apply(raced, Erase).log, 0) + 1 + n;
  }

  lemma CountOne(e: Entry)
    ensures Count([e], e.ref) == 1
  {
    assert [e][..0] == [];
  }
}
