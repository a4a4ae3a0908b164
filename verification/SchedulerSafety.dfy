/** What holds of the scheduler in every state that can be reached. */
module SchedulerSafety {
  import opened Wrappers
  import opened TaskNames
  import opened TaskQueue
  import opened SchedulerSteps

  // ----- The invariant -----

  /** One task: its entries, its bodies, its starts. */
  ghost predicate TaskOk(s: State, ref: Ref)
    requires ref in s.tasks
  {
    var task, entries := s.tasks[ref], Count(s.queue, ref);
    && task.Valid() && entries <= 1
    // every body that runs was started
    && s.running[ref] <= Starts(s.log, ref)
    // a one-shot starts at most once
    && (task.kind.Once? ==> entries + Starts(s.log, ref) <= 1)
    // a live every or cron task has exactly one entry
    && (Live(s, ref) && (task.kind.Every? || task.kind.Cron?) ==> entries == 1)
    // a live interval task has an entry or one body, never both or two
    && (task.interval ==> entries + s.running[ref] <= 1)
    && (task.interval && Live(s, ref) ==> entries + s.running[ref] == 1)
  }

  /** References refer to tasks, and names to those that bear them. */
  ghost predicate Known(s: State) {
    && (forall e | e in s.queue :: e.ref in s.tasks)
    && (forall r | r in s.running :: r in s.tasks)
    && (forall x | x in s.log :: x.ref in s.tasks)
    && (forall id | id in s.ids :: s.ids[id] in s.tasks && s.tasks[s.ids[id]].id == id)
    && (!s.adder.Free? ==> s.adder.ref in s.tasks)
    && (s.adder.Inserted?
        ==> s.adder.ref !in s.ids.Values && s.adder.ref !in s.running && Starts(s.log, s.adder.ref) == 0)
    && (s.removing.Some? ==> s.removing.value in s.ids && !s.tasks[s.ids[s.removing.value]].interval)
    && s.nextId < SIZE_LIMIT
  }

  /** An entry of a task that was started before keeps its distance from that
      start, and has a time of its task. */
  ghost predicate EntryOk(tasks: map<Ref, Task>, log: seq<Start>, e: Entry)
    requires e.ref in tasks
  {
    && tasks[e.ref].kind.Valid() && Timed(tasks[e.ref], e.time)
    && (forall x | x in log && x.ref == e.ref :: Spaced(tasks[e.ref].kind, x.at, e.time))
  }

  /** No body is started before its key time, which is a time of its task, and
      starts of one task keep their distance. */
  ghost predicate LogOk(tasks: map<Ref, Task>, log: seq<Start>, now: int)
    requires forall x | x in log :: x.ref in tasks
  {
    && (forall i | 0 <= i < |log| :: log[i].key <= log[i].at <= now)
    && (forall i | 0 <= i < |log| :: tasks[log[i].ref].kind.Valid() && Timed(tasks[log[i].ref], log[i].key))
    && (forall i, j | 0 <= i < j < |log| && log[i].ref == log[j].ref ::
          Spaced(tasks[log[i].ref].kind, log[i].at, log[j].key))
  }

  /** If the manager sleeps uninterrupted past an entry, the adder of that
      entry has yet to interrupt it; if the destructor has interrupted, the
      manager will not sleep on. */
  ghost predicate NoLostWakeup(s: State) {
    && (s.manager.Asleep? && !s.interrupted ==>
          forall e | e in s.queue && (s.manager.until.None? || e.time < s.manager.until.value) ::
            !s.adder.Free? && s.adder.ref == e.ref)
    && (s.closing.Signalled? && (s.manager.Looking? || s.manager.Peeking? || s.manager.Asleep?) ==> s.interrupted)
  }

  ghost predicate Inv(s: State) {
    && s.now >= 0 && Known(s) && Sorted(s.queue)
    && (forall r | r in s.tasks :: TaskOk(s, r))
    && (forall e | e in s.queue :: EntryOk(s.tasks, s.log, e))
    && LogOk(s.tasks, s.log, s.now)
    && (s.manager.Peeking? ==> s.queue != [])
    && NoLostWakeup(s)
  }

  // ----- Steps that leave queue, bodies and log alone -----

  lemma TaskStays(s: State, t: State, ref: Ref)
    requires ref in s.tasks && TaskOk(s, ref) && ref in t.tasks
    requires t.tasks[ref].kind == s.tasks[ref].kind && (t.tasks[ref].interval ==> s.tasks[ref].interval)
    requires Count(t.queue, ref) == Count(s.queue, ref) && t.running[ref] == s.running[ref] && t.log == s.log
    requires Live(t, ref) ==> Live(s, ref)
    ensures TaskOk(t, ref)
  {
  }

  /** The step renames at most tasks, clears flags, and drops references. */
  ghost predicate Calm(s: State, t: State) {
    && t.tasks.Keys == s.tasks.Keys && t.queue == s.queue && t.running == s.running && t.log == s.log && s.now <= t.now
    && (forall r | r in s.tasks :: t.tasks[r].kind == s.tasks[r].kind && t.tasks[r].time == s.tasks[r].time
          && (t.tasks[r].interval ==> s.tasks[r].interval) && (Live(t, r) ==> Live(s, r)))
  }

  lemma CalmKeeps(s: State, t: State)
    requires Inv(s) && Calm(s, t) && Known(t) && NoLostWakeup(t) && (t.manager.Peeking? ==> t.queue != [])
    ensures Inv(t)
  {
    hide Count, Starts, Sorted, Live, NoLostWakeup, Spaced;
    forall r | r in t.tasks
      ensures TaskOk(t, r)
    {
      assert TaskOk(s, r);
      TaskStays(s, t, r);
    }
    forall e | e in t.queue
      ensures EntryOk(t.tasks, t.log, e)
    {
      assert EntryOk(s.tasks, s.log, e);
    }
  }

  /** Steps of the clock, of the manager outside a pass, and of the
      destructor. */
  predicate Simple(step: Step) {
    step.Tick? || step.Signal? || step.Check? || step.Look? || step.Peek? || step.Wake? || step.SetDone?
      || step.SignalDone?
  }

  lemma SimpleWakes(s: State, step: Step)
    requires Inv(s) && Enabled(s, step) && Simple(step)
    ensures NoLostWakeup(Apply(s, step)) && (Apply(s, step).manager.Peeking? ==> s.queue != [])
  {
    hide TaskOk, EntryOk, LogOk, Count, Starts, AfterManage, Later, Insert, NewTime, FirstFree, Known, Kind.Valid, Due;
  }

  /** An entry that is due never waits for a manager that sleeps on, unless its
      adder has yet to interrupt the sleep: the sleep can end. */
  lemma DueWakes(s: State, e: Entry)
    requires Inv(s) && s.manager.Asleep? && e in s.queue && e.time <= s.now
    requires s.adder.Free? || s.adder.ref != e.ref
    ensures Enabled(s, Wake) && Apply(s, Wake).manager.Managing?
  {
    hide TaskOk, EntryOk, LogOk, Known, Count, Starts;
  }

  lemma SimpleCalm(s: State, step: Step)
    requires Known(s) && Enabled(s, step) && Simple(step)
    ensures Known(Apply(s, step)) && Calm(s, Apply(s, step))
  {
    hide Count, Starts, AfterManage, Later, Insert, NewTime, FirstFree;
    hide Kind.Valid, Due, TaskOk, EntryOk, LogOk, Spaced, Timed;
  }

  lemma SimpleKeeps(s: State, step: Step)
    requires Inv(s) && Enabled(s, step) && Simple(step)
    ensures Inv(Apply(s, step))
  {
    hide TaskOk, EntryOk, LogOk, Apply, Enabled, Known, Calm, NoLostWakeup, Sorted;
    SimpleCalm(s, step);
    SimpleWakes(s, step);
    assert Apply(s, step).queue == s.queue by { SimpleQueue(s, step); }
    CalmKeeps(s, Apply(s, step));
  }

  lemma SimpleQueue(s: State, step: Step)
    requires Enabled(s, step) && Simple(step)
    ensures Apply(s, step).queue == s.queue
  {
    hide AfterManage, Later, Due;
  }

  lemma RegisterKeeps(s: State)
    requires Inv(s) && Enabled(s, Register)
    ensures Inv(Apply(s, Register))
  {
    hide Count, Starts, Sorted, InternalName, FirstFree, TaskOk, EntryOk, Spaced, Timed;
    hide LogOk, AfterManage, Later, Insert, NewTime, Due;
    var t := Apply(s, Register);
    forall i | i in t.ids
      ensures t.ids[i] in t.tasks && t.tasks[t.ids[i]].id == i
    {
      if i in s.ids {
        assert s.ids[i] in s.ids.Values;
      }
    }
    if s.removing.Some? {
      assert s.ids[s.removing.value] in s.ids.Values;
    }
    CalmKeeps(s, t);
  }

  lemma ClearIntervalKeeps(s: State, id: string)
    requires Inv(s) && Enabled(s, ClearInterval(id))
    ensures Inv(Apply(s, ClearInterval(id)))
  {
    hide Count, Starts, Sorted, TaskOk, EntryOk, LogOk, AfterManage, Later, Insert, NewTime, FirstFree, Due;
    CalmKeeps(s, Apply(s, ClearInterval(id)));
  }

  lemma EraseKeeps(s: State)
    requires Inv(s) && Enabled(s, Erase)
    ensures Inv(Apply(s, Erase))
  {
    hide Count, Starts, Sorted, TaskOk, EntryOk, LogOk, AfterManage, Later, Insert, NewTime, FirstFree, Due;
    var t := Apply(s, Erase);
    forall r | r in t.ids.Values
      ensures r in s.ids.Values
    {
      var i :| i in t.ids && t.ids[i] == r;
      assert i in s.ids && s.ids[i] == r;
    }
    CalmKeeps(s, t);
  }

  // ----- Adding a task, ending a body -----

  lemma {:induction false} NoEntry(q: seq<Entry>, ref: Ref)
    requires forall e | e in q :: e.ref != ref
    ensures Count(q, ref) == 0
  {
    CountPositive(q, ref);
  }

  lemma {:induction false} NoStart(log: seq<Start>, ref: Ref)
    requires forall x | x in log :: x.ref != ref
    ensures Starts(log, ref) == 0
  {
    if log != [] {
      NoStart(log[..|log| - 1], ref);
    }
  }

  /** Tasks after a new one was queued. */
  lemma InsertTaskTasks(s: State, step: Step)
    requires Inv(s) && step.InsertTask? && Enabled(s, step)
    ensures var t := Apply(s, step); forall r | r in t.tasks :: TaskOk(t, r)
  {
    hide Starts, Insert, Count, AfterManage, Later, NewTime, FirstFree, Due, Sorted, EntryOk, LogOk, NoLostWakeup;
    var t := Apply(s, step);
    var e := Entry(step.time, step.ref);
    NoEntry(s.queue, step.ref);
    NoStart(s.log, step.ref);
    forall r | r in t.tasks
      ensures TaskOk(t, r)
    {
      CountInsert(s.queue, e, r);
      if r != step.ref {
        assert TaskOk(s, r);
        TaskStays(s, t, r);
      }
    }
  }

  lemma InsertTaskKeeps(s: State, step: Step)
    requires Inv(s) && step.InsertTask? && Enabled(s, step)
    ensures Inv(Apply(s, step))
  {
    hide Starts, Insert, Count, AfterManage, Later, NewTime, FirstFree, Due, Sorted, TaskOk, Task.Valid, Live, Spaced;
    var t := Apply(s, step);
    var e := Entry(step.time, step.ref);
    InsertKeeps(s.queue, e);
    InsertSorted(s.queue, e);
    NoStart(s.log, step.ref);
    InsertTaskTasks(s, step);
    forall x | x in t.queue
      ensures EntryOk(t.tasks, t.log, x)
    {
      if x != e {
        assert EntryOk(s.tasks, s.log, x);
      }
    }
  }

  lemma FinishTasks(s: State, ref: Ref, clock: int)
    requires Inv(s) && Enabled(s, Finish(ref, clock))
    ensures var t := Apply(s, Finish(ref, clock)); forall r | r in t.tasks :: TaskOk(t, r)
  {
    hide Starts, Insert, Count, AfterManage, Later, NewTime, FirstFree, Due, Sorted, EntryOk, LogOk, NoLostWakeup;
    var t := Apply(s, Finish(ref, clock));
    forall r | r in t.tasks
      ensures TaskOk(t, r)
    {
      CountInsert(s.queue, Entry(NewTime(s.tasks[ref].kind, clock), ref), r);
      assert TaskOk(s, r);
    }
  }

  lemma FinishKeeps(s: State, ref: Ref, clock: int)
    requires Inv(s) && Enabled(s, Finish(ref, clock))
    ensures Inv(Apply(s, Finish(ref, clock)))
  {
    hide Starts, Insert, Count, AfterManage, Later, NewTime, FirstFree, Due, Sorted, TaskOk, Task.Valid, Live, EntryOk;
    var t := Apply(s, Finish(ref, clock));
    var e := Entry(NewTime(s.tasks[ref].kind, clock), ref);
    FinishTasks(s, ref, clock);
    InsertKeeps(s.queue, e);
    InsertSorted(s.queue, e);
    if s.tasks[ref].interval {
      FinishedEntry(s, ref, clock);
    }
  }

  /** When the body of an interval task ends its entry is for a period after
      the clock; without the flag there is none. */
  lemma FinishQueues(s: State, ref: Ref, clock: int)
    requires Inv(s) && Enabled(s, Finish(ref, clock))
    ensures var t := Apply(s, Finish(ref, clock));
      if s.tasks[ref].interval then
        s.tasks[ref].kind.Interval?
        && multiset(t.queue) == multiset(s.queue) + multiset{Entry(clock + s.tasks[ref].kind.period, ref)}
      else t.queue == s.queue
  {
    hide Insert, Count, Starts, Live, Timed, Spaced;
    assert TaskOk(s, ref);
    if s.tasks[ref].interval {
      InsertKeeps(s.queue, Entry(NewTime(s.tasks[ref].kind, clock), ref));
    }
  }

  lemma FinishedEntry(s: State, ref: Ref, clock: int)
    requires Inv(s) && Enabled(s, Finish(ref, clock)) && s.tasks[ref].interval
    ensures EntryOk(s.tasks, s.log, Entry(NewTime(s.tasks[ref].kind, clock), ref))
  {
    assert TaskOk(s, ref);
  }
}
