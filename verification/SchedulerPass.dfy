/** One pass of the manager keeps the invariant and leaves later times. */
module SchedulerPass {
  import opened TaskQueue
  import opened SchedulerSteps
  import opened SchedulerSafety

  /** The pass starts a task that has a due entry and is still there. */
  predicate Starting(s: State, due: seq<Entry>, ref: Ref) {
    Count(due, ref) == 1 && Live(s, ref)
  }

  lemma StartsAppend(log: seq<Start>, x: Start, ref: Ref)
    ensures Starts(log + [x], ref) == Starts(log, ref) + (if x.ref == ref then 1 else 0)
  {
    assert (log + [x])[..|log|] == log;
  }

  lemma ServableFront(s: State, due: seq<Entry>, readings: seq<int>)
    requires Servable(s, due, readings) && due != []
    ensures Servable(s, due[..|due| - 1], readings[..|due| - 1])
    ensures due[|due| - 1] in due
  {
  }

  /** What the pass does to one task. */
  lemma {:induction false} ServeTask(s: State, due: seq<Entry>, at: int, readings: seq<int>, ref: Ref)
    requires Servable(s, due, readings) && s.adder.Free? && Count(due, ref) <= 1
    ensures var p, one := Serve(s, due, at, readings), if Starting(s, due, ref) then 1 else 0;
      && p.running[ref] == s.running[ref] + one
      && Starts(p.log, ref) == Starts(s.log, ref) + one
      && (ref in s.tasks
          ==> Count(p.recurred, ref) == if s.tasks[ref].Recurs() && !s.tasks[ref].interval then one else 0)
      && (Count(due, ref) == 0 ==> Count(p.recurred, ref) == 0)
    decreases |due|
  {
    hide Insert, NewTime, Starts;
    if due != [] {
      var n := |due|;
      ServableFront(s, due, readings);
      var e, reading := due[n - 1], readings[n - 1];
      ServeTask(s, due[..n - 1], at, readings[..n - 1], ref);
      var p := Serve(s, due[..n - 1], at, readings[..n - 1]);
      StartsAppend(p.log, Start(e.ref, e.time, at), ref);
      CountInsert(p.recurred, Entry(NewTime(s.tasks[e.ref].kind, reading), e.ref), ref);
    }
  }

  /** The starts the pass adds, and the entries it queues anew. */
  lemma {:induction false} ServeAll(s: State, due: seq<Entry>, at: int, readings: seq<int>)
    requires Servable(s, due, readings)
    ensures var p := Serve(s, due, at, readings);
      && s.log <= p.log
      && (forall i | |s.log| <= i < |p.log| :: p.log[i].at == at && Entry(p.log[i].key, p.log[i].ref) in due)
      && (forall x | x in p.recurred :: Renewed(s, due, readings, x))
      && (forall r | r in p.running :: r in s.tasks || r in s.running)
    decreases |due|
  {
    hide Insert, NewTime, Starts;
    if due != [] {
      var n := |due|;
      ServableFront(s, due, readings);
      var e, reading := due[n - 1], readings[n - 1];
      ServeAll(s, due[..n - 1], at, readings[..n - 1]);
      var p := Serve(s, due[..n - 1], at, readings[..n - 1]);
      var again := Entry(NewTime(s.tasks[e.ref].kind, reading), e.ref);
      InsertKeeps(p.recurred, again);
      forall x | x in Serve(s, due, at, readings).recurred
        ensures Renewed(s, due, readings, x)
      {
        if x in p.recurred {
          RenewedMore(s, due, readings, n - 1, x);
        } else {
          assert due[n - 1].ref == x.ref && x.time == NewTime(s.tasks[x.ref].kind, readings[n - 1]);
        }
      }
    }
  }

  /** The starts of a pass are in the order of their keys. */
  lemma {:induction false} ServedInOrder(s: State, due: seq<Entry>, at: int, readings: seq<int>)
    requires Servable(s, due, readings) && Sorted(due)
    ensures var log := Serve(s, due, at, readings).log;
      forall i, j | |s.log| <= i < j < |log| :: log[i].key <= log[j].key
    decreases |due|
  {
    hide Insert, NewTime, Renewed;
    if due != [] {
      var n := |due|;
      ServableFront(s, due, readings);
      ServedInOrder(s, due[..n - 1], at, readings[..n - 1]);
      ServeAll(s, due[..n - 1], at, readings[..n - 1]);
      var front, log := Serve(s, due[..n - 1], at, readings[..n - 1]).log, Serve(s, due, at, readings).log;
      forall i | |s.log| <= i < |front|
        ensures front[i].key <= due[n - 1].time
      {
        var e := Entry(front[i].key, front[i].ref);
        var k :| 0 <= k < n - 1 && due[k] == e;
      }
    }
  }

  /** An entry queued anew for a due one, at the reading of the clock that
      belongs to it. */
  ghost predicate Renewed(s: State, due: seq<Entry>, readings: seq<int>, x: Entry) {
    && x.ref in s.tasks && s.tasks[x.ref].Recurs() && s.tasks[x.ref].kind.Valid()
    && exists i | 0 <= i < |due| && i < |readings| ::
         due[i].ref == x.ref && readings[i] >= 0 && x.time == NewTime(s.tasks[x.ref].kind, readings[i])
  }

  lemma RenewedMore(s: State, due: seq<Entry>, readings: seq<int>, n: nat, x: Entry)
    requires n <= |readings| && n <= |due| && Renewed(s, due[..n], readings[..n], x)
    ensures Renewed(s, due, readings, x)
  {
    hide NewTime;
    var i :| 0 <= i < n && due[..n][i].ref == x.ref && readings[..n][i] >= 0
      && x.time == NewTime(s.tasks[x.ref].kind, readings[..n][i]);
    assert due[i].ref == x.ref && readings[i] == readings[..n][i];
  }

  lemma ReadingsLater(s: State, readings: seq<int>)
    requires Enabled(s, Manage(readings))
    ensures var k := UpperBound(s.queue, readings[0]);
      && |readings| == k + 1 && Servable(s, s.queue[..k], readings[1..]) && s.adder.Free?
      && s.now <= readings[0] <= readings[k] && 0 <= s.now
      && forall r | r in readings :: readings[0] <= r <= readings[k]
  {
    hide Serve, InsertAll, Live, NewTime;
  }

  lemma CutCounts(s: State, k: nat)
    requires k <= |s.queue| && forall r | r in s.tasks :: TaskOk(s, r)
    ensures forall r | r in s.tasks :: Count(s.queue[..k], r) + Count(s.queue[k..], r) == Count(s.queue, r) <= 1
  {
    hide Live, Starts, Count;
    forall r | r in s.tasks
      ensures Count(s.queue[..k], r) + Count(s.queue[k..], r) == Count(s.queue, r) <= 1
    {
      assert TaskOk(s, r);
      CountAppend(s.queue[..k], s.queue[k..], r);
      assert s.queue[..k] + s.queue[k..] == s.queue;
    }
  }

  /** What a pass serves. */
  lemma PassServes(s: State, readings: seq<int>) returns (k: nat)
    requires Inv(s) && Enabled(s, Manage(readings))
    ensures k == UpperBound(s.queue, readings[0]) && |readings| == k + 1
    ensures Servable(s, s.queue[..k], readings[1..]) && s.adder.Free?
    ensures AfterManage(s, readings) == var p := Serve(s, s.queue[..k], readings[0], readings[1..]);
      s.(now := readings[k], running := p.running, log := p.log, queue := InsertAll(s.queue[k..], p.recurred),
        manager := CheckDone)
    ensures 0 <= s.now <= readings[0] <= readings[k]
    ensures forall r | r in readings :: readings[0] <= r <= readings[k]
    ensures forall e | e in s.queue[..k] :: e in s.queue && e.time <= readings[0]
    ensures forall e | e in s.queue[k..] :: e in s.queue && e.time > readings[0]
    ensures forall r | r in s.tasks :: Count(s.queue[..k], r) + Count(s.queue[k..], r) == Count(s.queue, r) <= 1
  {
    hide NoLostWakeup, LogOk, EntryOk, Serve, InsertAll, TaskOk, Known, Enabled, Servable, Count;
    ReadingsLater(s, readings);
    k := UpperBound(s.queue, readings[0]);
    CutCounts(s, k);
  }

  lemma ManageTasksOk(s: State, readings: seq<int>)
    requires Inv(s) && Enabled(s, Manage(readings))
    ensures var t := AfterManage(s, readings); forall r | r in t.tasks :: TaskOk(t, r)
  {
    hide Serve, InsertAll, Starts, Count, Servable, Enabled, AfterManage, NoLostWakeup, LogOk, EntryOk, Sorted, Known;
    var k := PassServes(s, readings);
    var t, due := AfterManage(s, readings), s.queue[..k];
    var p := Serve(s, due, readings[0], readings[1..]);
    forall r | r in t.tasks
      ensures TaskOk(t, r)
    {
      assert TaskOk(s, r);
      ServeTask(s, due, readings[0], readings[1..], r);
      CountInsertAll(s.queue[k..], p.recurred, r);
    }
  }

  /** A pass keeps starts of one task a period apart. */
  lemma ManageLogOk(s: State, readings: seq<int>)
    requires Inv(s) && Enabled(s, Manage(readings))
    ensures var t := AfterManage(s, readings);
      (forall x | x in t.log :: x.ref in t.tasks) && LogOk(t.tasks, t.log, t.now)
  {
    hide Serve, InsertAll, Starts, Count, Servable, Enabled, AfterManage, NoLostWakeup, Sorted, TaskOk, Live;
    var k := PassServes(s, readings);
    var t, due, at := AfterManage(s, readings), s.queue[..k], readings[0];
    ServeAll(s, due, at, readings[1..]);
    forall i, j | 0 <= i < j < |t.log| && t.log[i].ref == t.log[j].ref
      ensures t.tasks[t.log[i].ref].kind.Valid() && Spaced(t.tasks[t.log[i].ref].kind, t.log[i].at, t.log[j].key)
    {
      if j >= |s.log| {
        var e := Entry(t.log[j].key, t.log[j].ref);
        if i < |s.log| {
          assert EntryOk(s.tasks, s.log, e) && s.log[i] == t.log[i];
        } else {
          StartedOnce(s, readings, k, t.log, i, j);
        }
      }
    }
    forall i | 0 <= i < |t.log|
      ensures t.log[i].ref in t.tasks && t.log[i].key <= t.log[i].at <= t.now
      ensures t.tasks[t.log[i].ref].kind.Valid() && Timed(t.tasks[t.log[i].ref], t.log[i].key)
    {
      if i >= |s.log| {
        assert EntryOk(s.tasks, s.log, Entry(t.log[i].key, t.log[i].ref));
      }
    }
  }

  lemma {:induction false} StartsAtLeast(log: seq<Start>, ref: Ref, n: nat, i: nat, j: nat)
    requires n <= i < j < |log| && log[i].ref == log[j].ref == ref
    ensures Starts(log, ref) >= Starts(log[..n], ref) + 2
    decreases |log|
  {
    var front := log[..|log| - 1];
    assert front[..n] == log[..n];
    if j < |log| - 1 {
      StartsAtLeast(front, ref, n, i, j);
    } else {
      StartsAtLeastOne(front, ref, n, i);
    }
  }

  lemma {:induction false} StartsAtLeastOne(log: seq<Start>, ref: Ref, n: nat, i: nat)
    requires n <= i < |log| && log[i].ref == ref
    ensures Starts(log, ref) >= Starts(log[..n], ref) + 1
    decreases |log|
  {
    var front := log[..|log| - 1];
    assert front[..n] == log[..n];
    if i < |log| - 1 {
      StartsAtLeastOne(front, ref, n, i);
    } else {
      StartsGrow(front, ref, n);
    }
  }

  lemma {:induction false} StartsGrow(log: seq<Start>, ref: Ref, n: nat)
    requires n <= |log|
    ensures Starts(log, ref) >= Starts(log[..n], ref)
    decreases |log|
  {
    if n == |log| {
      assert log[..n] == log;
    } else {
      assert log[..|log| - 1][..n] == log[..n];
      StartsGrow(log[..|log| - 1], ref, n);
    }
  }

  /** No task is started twice in one pass. */
  lemma StartedOnce(s: State, readings: seq<int>, k: nat, log: seq<Start>, i: nat, j: nat)
    requires Inv(s) && Enabled(s, Manage(readings)) && log == AfterManage(s, readings).log
    requires |s.log| <= i < j < |log|
    ensures log[i].ref != log[j].ref
  {
    hide Serve, InsertAll, Starts, Count, Servable, Enabled, AfterManage;
    hide NoLostWakeup, Sorted, TaskOk, Live, LogOk, EntryOk;
    var k := PassServes(s, readings);
    var due := s.queue[..k];
    ServeAll(s, due, readings[0], readings[1..]);
    if log[i].ref == log[j].ref {
      var ref := log[i].ref;
      assert Entry(log[i].key, ref) in due;
      ServeTask(s, due, readings[0], readings[1..], ref);
      assert log[..|s.log|] == s.log;
      StartsAtLeast(log, ref, |s.log|, i, j);
    }
  }

  lemma ManageEntriesOk(s: State, readings: seq<int>)
    requires Inv(s) && Enabled(s, Manage(readings))
    ensures var t := AfterManage(s, readings); forall e | e in t.queue :: e.ref in t.tasks && EntryOk(t.tasks, t.log, e)
  {
    hide Serve, InsertAll, Starts, Count, Servable, Enabled, AfterManage, NoLostWakeup, Sorted, TaskOk, Live;
    var k := PassServes(s, readings);
    var t, due, at := AfterManage(s, readings), s.queue[..k], readings[0];
    var p := Serve(s, due, at, readings[1..]);
    ServeAll(s, due, at, readings[1..]);
    InsertAllKeeps(s.queue[k..], p.recurred);
    forall e | e in t.queue
      ensures e.ref in t.tasks && EntryOk(t.tasks, t.log, e)
    {
      if e in p.recurred {
        RenewedOk(s, due, readings, e, t.log);
      } else {
        assert EntryOk(s.tasks, s.log, e);
        forall x | x in t.log && x.ref == e.ref
          ensures x in s.log
        {
          var i :| 0 <= i < |t.log| && t.log[i] == x;
          if i >= |s.log| {
            TwoEntries(s, k, Entry(x.key, x.ref), e);
          }
        }
      }
    }
  }

  lemma TwoEntries(s: State, k: nat, a: Entry, b: Entry)
    requires k <= |s.queue| && a in s.queue[..k] && b in s.queue[k..]
    requires forall r | r in s.tasks :: Count(s.queue[..k], r) + Count(s.queue[k..], r) <= 1
    requires a.ref in s.tasks
    ensures a.ref != b.ref
  {
    CountPositive(s.queue[..k], a.ref);
    CountPositive(s.queue[k..], b.ref);
  }

  lemma RenewedOk(s: State, due: seq<Entry>, readings: seq<int>, e: Entry, log: seq<Start>)
    requires |readings| > 0 && Renewed(s, due, readings[1..], e)
    requires s.now <= readings[0] && forall r | r in readings :: readings[0] <= r
    requires forall x | x in log :: x in s.log || x.at == readings[0]
    requires Known(s) && LogOk(s.tasks, s.log, s.now)
    ensures EntryOk(s.tasks, log, e)
  {
    hide NewTime, Spaced, Timed;
    var i :| 0 <= i < |due| && i < |readings| - 1 && due[i].ref == e.ref && readings[1..][i] >= 0
      && e.time == NewTime(s.tasks[e.ref].kind, readings[1..][i]);
    var reading := readings[1..][i];
    assert reading in readings;
    NewTimeTimed(s.tasks[e.ref], reading);
    forall x | x in log && x.ref == e.ref
      ensures Spaced(s.tasks[e.ref].kind, x.at, e.time)
    {
      if x in s.log {
        var j :| 0 <= j < |s.log| && s.log[j] == x;
      }
      NewTimeSpaced(s.tasks[e.ref].kind, x.at, reading);
    }
  }

  lemma ManageKnown(s: State, readings: seq<int>)
    requires Inv(s) && Enabled(s, Manage(readings))
    ensures var t := AfterManage(s, readings);
      && t.now >= 0 && Sorted(t.queue)
      && (forall e | e in t.queue :: e.ref in t.tasks) && (forall x | x in t.log :: x.ref in t.tasks)
      && Known(t)
  {
    hide Serve, InsertAll, Starts, Count, Servable, Enabled, AfterManage, NoLostWakeup, TaskOk, Live, EntryOk, LogOk;
    var k := PassServes(s, readings);
    var p := Serve(s, s.queue[..k], readings[0], readings[1..]);
    ServeAll(s, s.queue[..k], readings[0], readings[1..]);
    InsertAllKeeps(s.queue[k..], p.recurred);
    ManageLogOk(s, readings);
    ManageEntriesOk(s, readings);
  }

  lemma ManageKeeps(s: State, readings: seq<int>)
    requires Inv(s) && Enabled(s, Manage(readings))
    ensures Inv(Apply(s, Manage(readings)))
  {
    hide *;
    ManageKnown(s, readings);
    ManageTasksOk(s, readings);
    ManageLogOk(s, readings);
    ManageEntriesOk(s, readings);
    ManageAwake(s, readings);
    InvOf(AfterManage(s, readings));
  }

  lemma InvOf(t: State)
    requires t.now >= 0 && Known(t) && Sorted(t.queue) && NoLostWakeup(t) && !t.manager.Peeking?
    requires forall r | r in t.tasks :: TaskOk(t, r)
    requires forall e | e in t.queue :: e.ref in t.tasks && EntryOk(t.tasks, t.log, e)
    requires (forall x | x in t.log :: x.ref in t.tasks) && LogOk(t.tasks, t.log, t.now)
    ensures Inv(t)
  {
    hide TaskOk, EntryOk, LogOk, NoLostWakeup, Sorted;
  }

  /** After its pass the manager does not sleep yet. */
  lemma ManageAwake(s: State, readings: seq<int>)
    requires Enabled(s, Manage(readings))
    ensures var t := AfterManage(s, readings);
      Apply(s, Manage(readings)) == t && NoLostWakeup(t) && !t.manager.Peeking?
  {
    hide Serve, InsertAll, Sorted, UpperBound;
  }

  /** After a pass at clock `c` every entry is later than `c`, if those it
      queues anew advance. */
  lemma PassLeavesLaterTimes(s: State, readings: seq<int>)
    requires Inv(s) && Enabled(s, Manage(readings))
    requires forall e, r | e in Due(s, readings) && r in readings && s.tasks[e.ref].Recurs() ::
      Advances(s.tasks[e.ref].kind, r)
    ensures forall e | e in AfterManage(s, readings).queue :: e.time > readings[0]
  {
    hide Serve, InsertAll, Starts, Count, Servable, Enabled, AfterManage;
    hide NoLostWakeup, TaskOk, Live, EntryOk, LogOk, NewTime, Advances;
    var k := PassServes(s, readings);
    var due := s.queue[..k];
    var p := Serve(s, due, readings[0], readings[1..]);
    ServeAll(s, due, readings[0], readings[1..]);
    InsertAllKeeps(s.queue[k..], p.recurred);
    forall e | e in p.recurred
      ensures e.time > readings[0]
    {
      var i :| 0 <= i < |due| && due[i].ref == e.ref && readings[1..][i] >= 0
        && e.time == NewTime(s.tasks[e.ref].kind, readings[1..][i]);
      assert readings[1..][i] in readings && due[i] in due;
      NewTimeAdvances(s.tasks[e.ref].kind, readings[1..][i]);
    }
  }

  /** An entry queued anew for a due one: for a period after the reading of
      the clock that belongs to it, or for the next match after it. */
  ghost predicate QueuedNext(s: State, due: seq<Entry>, readings: seq<int>, x: Entry) {
    && x.ref in s.tasks && s.tasks[x.ref].Recurs() && s.tasks[x.ref].kind.Valid()
    && exists i | 0 <= i < |due| && i < |readings| ::
         && due[i].ref == x.ref && readings[i] >= 0
         && (HasNextTime(s.tasks[x.ref].kind, readings[i]) ==> IsNextTime(s.tasks[x.ref].kind, readings[i], x.time))
  }

  lemma RenewedIsNext(s: State, due: seq<Entry>, readings: seq<int>, x: Entry)
    requires Renewed(s, due, readings, x)
    ensures QueuedNext(s, due, readings, x)
  {
    hide NewTime, HasNextTime, IsNextTime;
    var i :| 0 <= i < |due| && i < |readings| && due[i].ref == x.ref && readings[i] >= 0
      && x.time == NewTime(s.tasks[x.ref].kind, readings[i]);
    if HasNextTime(s.tasks[x.ref].kind, readings[i]) {
      NewTimeIsNext(s.tasks[x.ref].kind, readings[i]);
    }
  }

  /** Every entry after a pass was not due, or is queued anew in this way. */
  lemma PassQueuesNext(s: State, readings: seq<int>, e: Entry)
    requires Inv(s) && Enabled(s, Manage(readings)) && e in AfterManage(s, readings).queue
    ensures |readings| == 1 + |Due(s, readings)| && forall r | r in readings :: readings[0] <= r
    ensures (e in s.queue && e.time > readings[0]) || QueuedNext(s, Due(s, readings), readings[1..], e)
  {
    hide Serve, InsertAll, Starts, Count, Servable, Enabled, AfterManage, Inv, QueuedNext, Renewed;
    var k := PassServes(s, readings);
    var due := s.queue[..k];
    var p := Serve(s, due, readings[0], readings[1..]);
    ServeAll(s, due, readings[0], readings[1..]);
    InsertAllKeeps(s.queue[k..], p.recurred);
    if e in p.recurred {
      RenewedIsNext(s, due, readings[1..], e);
    }
  }

  /** So it is if the periods of the tasks it served are positive and the cron
      expressions have a match ahead. */
  lemma PassLeavesLaterMatches(s: State, readings: seq<int>)
    requires Inv(s) && Enabled(s, Manage(readings))
    requires forall e, r | e in Due(s, readings) && r in readings && s.tasks[e.ref].Recurs() ::
      GoesOn(s.tasks[e.ref].kind, r)
    ensures forall e | e in AfterManage(s, readings).queue :: e.time > readings[0]
  {
    hide AfterManage, GoesOn, Advances, NoLostWakeup, LogOk, EntryOk, Live;
    forall e, r | e in Due(s, readings) && r in readings && s.tasks[e.ref].Recurs()
      ensures Advances(s.tasks[e.ref].kind, r)
    {
      GoesOnAdvances(s.tasks[e.ref].kind, r);
    }
    PassLeavesLaterTimes(s, readings);
  }
}
