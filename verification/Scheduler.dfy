/** The scheduler's methods as they are written; each is one or more of the
    atomic steps. */
module Scheduler {
  import opened Wrappers
  import opened TaskNames
  import opened TaskQueue
  import opened SchedulerSteps

  /** `InterruptableSleep`: an interrupt that comes before the sleep is not
      lost, and a sleep that ends takes the interrupt with it. */
  class InterruptableSleep {
    var interrupted: bool

    constructor ()
      ensures !interrupted
    {
      interrupted := false;
    }

    method Interrupt()
      modifies this
      ensures interrupted
    {
      interrupted := true;
    }

    /** `sleep_until`, at a moment the condition variable is looked at: the
        wait is over if it was interrupted or the time has come. */
    method TryWake(until: Option<int>, now: int) returns (awake: bool)
      modifies this
      ensures awake <==> old(interrupted) || (until.Some? && until.value <= now)
      ensures interrupted == (old(interrupted) && !awake)
    {
      awake := interrupted || (until.Some? && until.value <= now);
      if awake {
        interrupted := false;
      }
    }
  }

  class Scheduler {
    /** Task objects; `running` counts the references bodies hold. */
    var pool: map<Ref, Task>
    var tasks: seq<Entry>
    var idToTask: map<string, Ref>
    var autoIncreaseId: nat
    var running: multiset<Ref>
    var manager: Manager
    var closing: Closing
    const sleeper: InterruptableSleep
    ghost var now: int
    ghost var log: seq<Start>
    ghost var adder: Adder

    ghost function Now(): State
      reads this, sleeper
    {
      State(now, pool, tasks, idToTask, autoIncreaseId, running, log, adder, None, sleeper.interrupted, manager,
        closing)
    }

    constructor (ghost now: int)
      ensures Now() == Fresh(now) && fresh(sleeper)
    {
      pool, tasks, idToTask, autoIncreaseId, running := map[], [], map[], 0, multiset{};
      sleeper := new InterruptableSleep();
      this.now, log, adder := now, [], Free;
      manager, closing := CheckDone, Open;
    }

    /** The manager thread from the top of its loop to its sleep. */
    method GoToSleep()
      requires manager.CheckDone?
      modifies this`manager
      ensures var checked := Apply(old(Now()), Check);
        Now() ==
          if checked.manager.Exited? then checked
          else if tasks == [] then Apply(checked, Look) else Apply(Apply(checked, Look), Peek)
    {
      if !closing.Open? {
        manager := Exited;
      } else if tasks == [] {
        manager := Asleep(None);
      } else {
        manager := Asleep(Some(tasks[0].time));
      }
    }

    /** The sleeping manager when its condition is looked at. */
    method TryWake(clock: int) returns (awake: bool)
      requires manager.Asleep? && now == clock
      modifies this`manager, sleeper
      ensures awake <==> Enabled(old(Now()), Wake)
      ensures Now() == if awake then Apply(old(Now()), Wake) else old(Now())
    {
      awake := sleeper.TryWake(manager.until, clock);
      if awake {
        manager := Managing;
      }
    }

    /** The destructor, up to the join. */
    method Close()
      requires closing.Open?
      modifies this`closing, sleeper
      ensures Now() == Apply(Apply(old(Now()), SetDone), SignalDone)
    {
      closing := DoneSet;
      sleeper.Interrupt();
      closing := Signalled;
    }

    /** Counts up to a name that is not taken; the counter wraps. It ends
        because the registry has fewer names than the counter values. */
    method GetRandomId() returns (id: string)
      requires |idToTask.Keys| < SIZE_LIMIT && autoIncreaseId < SIZE_LIMIT
      modifies this`autoIncreaseId
      ensures id !in idToTask
      ensures var k := FirstFree(idToTask.Keys, old(autoIncreaseId));
        id == InternalName(k) && autoIncreaseId == Succ(k)
    {
      hide InternalName, Distance;
      ghost var free := FreeNumber(idToTask.Keys);
      ghost var k: nat := autoIncreaseId;
      id := InternalName(autoIncreaseId);
      autoIncreaseId := Succ(autoIncreaseId);
      while id in idToTask
        invariant k < SIZE_LIMIT && id == InternalName(k) && autoIncreaseId == Succ(k) < SIZE_LIMIT
        invariant FirstFree(idToTask.Keys, k) == FirstFree(idToTask.Keys, old(autoIncreaseId))
        decreases Distance(k, free)
      {
        Closer(k, free);
        k := autoIncreaseId;
        id := InternalName(autoIncreaseId);
        autoIncreaseId := Succ(autoIncreaseId);
      }
    }

    /** The registration in `add_task`: a name if there is none, and an entry
        in the registry if the name is free. */
    method RegisterTask(ref: Ref)
      requires adder == Inserted(ref) && Enabled(Now(), Register)
      modifies this`pool, this`idToTask, this`autoIncreaseId, this`adder
      ensures Now() == Apply(old(Now()), Register)
    {
      hide InternalName, FirstFree, AfterManage, Later;
      var task := pool[ref];
      if task.id == "" {
        var name := GetRandomId();
        task := task.(id := name);
      }
      pool := pool[ref := task];
      if task.id !in idToTask {
        idToTask := idToTask[task.id := ref];
      }
      adder := Registered(ref);
    }

    /** `add_task`, with a newly created task. */
    method AddTask(time: int, ref: Ref, id: string, kind: Kind)
      requires Enabled(Now(), InsertTask(ref, time, id, kind)) && |idToTask.Keys| < SIZE_LIMIT
        && autoIncreaseId < SIZE_LIMIT
      modifies this, sleeper
      ensures var inserted := Apply(old(Now()), InsertTask(ref, time, id, kind));
        Enabled(inserted, Register) && Enabled(Apply(inserted, Register), Signal)
          && Now() == Apply(Apply(inserted, Register), Signal)
    {
      hide InternalName, FirstFree, AfterManage, Later, Insert;
      pool := pool[ref := Task(id, kind, kind.Interval?, time)];
      tasks := Insert(tasks, Entry(time, ref));
      adder := Inserted(ref);
      assert Now() == Apply(old(Now()), InsertTask(ref, time, id, kind));
      RegisterTask(ref);
      sleeper.Interrupt();
      adder := Free;
    }

    /** `add_task_interval`. */
    method AddTaskInterval(time: int, ref: Ref)
      modifies this`tasks, sleeper
      ensures tasks == Insert(old(tasks), Entry(time, ref)) && sleeper.interrupted
    {
      tasks := Insert(tasks, Entry(time, ref));
      sleeper.Interrupt();
    }

    /** The end of a task body. */
    method Finish(ref: Ref, clock: int)
      requires Enabled(Now(), Step.Finish(ref, clock))
      modifies this, sleeper
      ensures Now() == Apply(old(Now()), Step.Finish(ref, clock))
    {
      hide Insert, NewTime, AfterManage, Later;
      now := clock;
      if pool[ref].interval {
        AddTaskInterval(NewTime(pool[ref].kind, clock), ref);
      }
      running := running - multiset{ref};
    }

    /** `remove`. */
    method Remove(id: string) returns (found: bool)
      requires forall i | i in idToTask :: idToTask[i] in pool
      modifies this`pool, this`idToTask
      ensures found <==> id in old(idToTask)
      ensures !found ==> Now() == old(Now())
      ensures found ==>
        && Enabled(old(Now()), ClearInterval(id)) && Enabled(Apply(old(Now()), ClearInterval(id)), Erase)
        && Now() == Apply(Apply(old(Now()), ClearInterval(id)), Erase)
    {
      if id !in idToTask {
        return false;
      }
      pool := pool[idToTask[id] := pool[idToTask[id]].(interval := false)];
      idToTask := idToTask - {id};
      found := true;
    }

    /** One turn of the first loop: a task that is still there is started. */
    method StartOne(e: Entry, at: int, reading: int, recurred: seq<Entry>) returns (more: seq<Entry>)
      requires e.ref in pool && pool[e.ref].kind.Valid() && reading >= 0
      modifies this`running, this`log
      ensures Pass(running, log, more) == ServeOne(Now(), Pass(old(running), old(log), recurred), e, at, reading)
    {
      hide Insert, NewTime;
      more := recurred;
      if e.ref in idToTask.Values || e.ref in running {
        var task := pool[e.ref];
        if !task.interval && task.Recurs() {
          more := Insert(recurred, Entry(NewTime(task.kind, reading), e.ref));
        }
        running := running + multiset{e.ref};
        log := log + [Start(e.ref, e.time, at)];
      }
    }

    /** The first loop of `manage_tasks`: starts what is due and collects
        what recurs. */
    method StartDue(end: nat, readings: seq<int>) returns (recurred: seq<Entry>)
      requires end <= |tasks| && |readings| == end + 1 && Servable(Now(), tasks[..end], readings[1..])
      modifies this`running, this`log
      ensures Now() == old(Now()).(running := running, log := log)
      ensures Pass(running, log, recurred) == Serve(old(Now()), tasks[..end], readings[0], readings[1..])
    {
      hide Insert, NewTime, Serve, Servable, ServeOne;
      ghost var s, due := Now(), tasks[..end];
      recurred := [];
      ServeNone(s, readings[0]);
      for i := 0 to end
        invariant Now() == s.(running := running, log := log)
        invariant Servable(s, due[..i], readings[1..][..i])
        invariant Pass(running, log, recurred) == Serve(s, due[..i], readings[0], readings[1..][..i])
      {
        ServeNext(s, due, readings[0], readings[1..], i);
        recurred := StartOne(tasks[i], readings[0], readings[i + 1], recurred);
        ServeOneSame(s, Now(), Serve(s, due[..i], readings[0], readings[1..][..i]), due[i], readings[0],
          readings[1..][i]);
      }
      assert due[..end] == due && readings[1..][..end] == readings[1..];
    }

    /** The last loop: the recurring tasks are queued anew. */
    method QueueAgain(recurred: seq<Entry>)
      modifies this`tasks
      ensures tasks == InsertAll(old(tasks), recurred)
    {
      hide Insert;
      for i := 0 to |recurred|
        invariant tasks == InsertAll(old(tasks), recurred[..i])
      {
        NextIn(old(tasks), recurred, i);
        tasks := Insert(tasks, recurred[i]);
      }
      assert recurred[..|recurred|] == recurred;
    }

    /** `manage_tasks`, with the readings its clock gives: one for the bound,
        then one for every due entry. */
    method ManageTasks(readings: seq<int>)
      requires Enabled(Now(), Manage(readings))
      modifies this
      ensures Now() == Apply(old(Now()), Manage(readings))
    {
      hide Insert, InsertAll, NewTime, Serve;
      var end := UpperBound(tasks, readings[0]);
      var recurred := StartDue(end, readings);
      tasks := tasks[end..];
      QueueAgain(recurred);
      now := readings[end];
      manager := CheckDone;
    }
  }

  lemma ServeNone(s: State, at: int)
    ensures Servable(s, [], []) && Serve(s, [], at, []) == Pass(s.running, s.log, [])
  {
  }

  lemma ServeNext(s: State, due: seq<Entry>, at: int, readings: seq<int>, i: nat)
    requires Servable(s, due, readings) && i < |due|
    ensures Servable(s, due[..i], readings[..i]) && Servable(s, due[..i + 1], readings[..i + 1])
    ensures due[i].ref in s.tasks && s.tasks[due[i].ref].kind.Valid() && readings[i] >= 0
    ensures Serve(s, due[..i + 1], at, readings[..i + 1])
      == ServeOne(s, Serve(s, due[..i], at, readings[..i]), due[i], at, readings[i])
  {
    hide ServeOne;
    assert due[..i + 1][..i] == due[..i] && readings[..i + 1][..i] == readings[..i];
  }

  /** A pass looks at tasks and registry only. */
  lemma ServeOneSame(s: State, t: State, p: Pass, e: Entry, at: int, reading: int)
    requires e.ref in s.tasks && s.tasks[e.ref].kind.Valid() && reading >= 0 && t.tasks == s.tasks && t.ids == s.ids
    ensures ServeOne(t, p, e, at, reading) == ServeOne(s, p, e, at, reading)
  {
  }

  lemma NextIn(q: seq<Entry>, more: seq<Entry>, i: nat)
    requires i < |more|
    ensures InsertAll(q, more[..i + 1]) == Insert(InsertAll(q, more[..i]), more[i])
  {
    assert more[..i + 1][..i] == more[..i];
  }
}
