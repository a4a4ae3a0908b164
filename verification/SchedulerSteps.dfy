/** The scheduler as atomic steps of its manager thread, of adders, of a
    remover, of task bodies and of the destructor. */
module SchedulerSteps {
  import opened Wrappers
  import opened TaskNames
  import opened TaskQueue

  /** A task body was started at a clock time, for an entry with this key. */
  datatype Start = Start(ref: Ref, key: int, at: int)

  /** Where the manager thread is. `Asleep` holds the time it waits for, if
      any, from before the wait begins to its end. */
  datatype Manager = CheckDone | Looking | Peeking | Asleep(until: Option<int>) | Managing | Exited

  /** Who holds `lock`, between steps: an adder that has inserted its task in
      the queue, or has also registered it. */
  datatype Adder = Free | Inserted(ref: Ref) | Registered(ref: Ref)

  datatype Closing = Open | DoneSet | Signalled

  datatype State = State(
    now: int,
    tasks: map<Ref, Task>,
    queue: seq<Entry>,
    ids: map<string, Ref>,
    nextId: nat,
    running: multiset<Ref>,
    log: seq<Start>,
    adder: Adder,
    removing: Option<string>,
    interrupted: bool,
    manager: Manager,
    closing: Closing)

  /** Everything a scheduler starts with. */
  function Fresh(now: int): State {
    State(now, map[], [], map[], 0, multiset{}, [], Free, None, false, CheckDone, Open)
  }

  /** A strong reference is held: by the registry, a body or an adder. */
  predicate Live(s: State, ref: Ref) {
    ref in s.ids.Values || ref in s.running || (!s.adder.Free? && s.adder.ref == ref)
  }

  datatype Step =
    | Tick(now: int)
    // add_task
    | InsertTask(ref: Ref, time: int, id: string, kind: Kind)
    | Register
    | Signal
    // a body ends
    | Finish(ref: Ref, clock: int)
    // remove
    | ClearInterval(id: string)
    | Erase
    // the manager thread
    | Check
    | Look
    | Peek
    | Wake
    | Manage(readings: seq<int>)
    // the destructor
    | SetDone
    | SignalDone

  /** The clock does not run backwards. */
  ghost predicate Later(readings: seq<int>, now: int) {
    (forall i | 0 <= i < |readings| :: now <= readings[i])
      && forall i, j | 0 <= i < j < |readings| :: readings[i] <= readings[j]
  }

  ghost predicate Enabled(s: State, step: Step) {
    match step
    case Tick(now) => s.now <= now
    case InsertTask(ref, time, id, kind) => s.adder.Free? && ref !in s.tasks && kind.Valid()
    case Register => s.adder.Inserted? && |s.ids.Keys| < SIZE_LIMIT && s.nextId < SIZE_LIMIT && s.adder.ref in s.tasks
    case Signal => s.adder.Registered?
    case Finish(ref, clock) =>
      && ref in s.running && ref in s.tasks && 0 <= s.now <= clock && s.tasks[ref].kind.Valid()
      && (s.tasks[ref].interval ==> s.adder.Free?)
    case ClearInterval(id) => s.removing.None? && id in s.ids && s.ids[id] in s.tasks
    case Erase => s.removing.Some?
    case Check => s.manager.CheckDone?
    case Look => s.manager.Looking?
    case Peek => s.manager.Peeking? && s.queue != []
    case Wake => s.manager.Asleep? && (s.interrupted || (s.manager.until.Some? && s.manager.until.value <= s.now))
    case Manage(readings) =>
      && s.manager.Managing? && s.adder.Free? && 0 <= s.now && Later(readings, s.now)
      && |readings| == 1 + |Due(s, readings)|
      && (forall e | e in s.queue :: e.ref in s.tasks && s.tasks[e.ref].kind.Valid())
    case SetDone => s.closing.Open?
    case SignalDone => s.closing.DoneSet?
  }

  /** The entries that are due at the first reading of the clock. */
  function Due(s: State, readings: seq<int>): seq<Entry> {
    if readings == [] then [] else s.queue[..UpperBound(s.queue, readings[0])]
  }

  // ----- One pass over the due entries -----

  datatype Pass = Pass(running: multiset<Ref>, log: seq<Start>, recurred: seq<Entry>)

  /** One due entry: nothing if its task is gone, else the body is started,
      and a recurring task without the interval flag is queued anew. */
  function ServeOne(s: State, p: Pass, e: Entry, at: int, reading: int): Pass
    requires e.ref in s.tasks && s.tasks[e.ref].kind.Valid() && reading >= 0
  {
    if !(e.ref in s.ids.Values || e.ref in p.running) then p
    else
      var task := s.tasks[e.ref];
      Pass(
        p.running + multiset{e.ref},
        p.log + [Start(e.ref, e.time, at)],
        if !task.interval && task.Recurs() then Insert(p.recurred, Entry(NewTime(task.kind, reading), e.ref))
          else p.recurred)
  }

  /** Every due entry refers to a task and has a reading of the clock. */
  ghost predicate Servable(s: State, due: seq<Entry>, readings: seq<int>) {
    && |readings| == |due| && (forall i | 0 <= i < |readings| :: readings[i] >= 0)
    && (forall e | e in due :: e.ref in s.tasks && s.tasks[e.ref].kind.Valid())
  }

  function Serve(s: State, due: seq<Entry>, at: int, readings: seq<int>): Pass
    requires Servable(s, due, readings)
  {
    var n := |due|;
    if n == 0 then Pass(s.running, s.log, [])
    else ServeOne(s, Serve(s, due[..n - 1], at, readings[..n - 1]), due[n - 1], at, readings[n - 1])
  }

  /** `manage_tasks`. */
  function AfterManage(s: State, readings: seq<int>): State
    requires Enabled(s, Manage(readings))
  {
    var k := UpperBound(s.queue, readings[0]);
    var p := Serve(s, s.queue[..k], readings[0], readings[1..]);
    s.(now := readings[k], running := p.running, log := p.log, queue := InsertAll(s.queue[k..], p.recurred),
      manager := CheckDone)
  }

  function Apply(s: State, step: Step): State
    requires Enabled(s, step)
  {
    match step
    case Tick(now) => s.(now := now)
    case InsertTask(ref, time, id, kind) =>
      s.(tasks := s.tasks[ref := Task(id, kind, kind.Interval?, time)], queue := Insert(s.queue, Entry(time, ref)),
        adder := Inserted(ref))
    case Register =>
      var ref := s.adder.ref;
      var task := s.tasks[ref];
      var k := if task.id == "" then FirstFree(s.ids.Keys, s.nextId) else 0;
      var id := if task.id == "" then InternalName(k) else task.id;
      s.(tasks := s.tasks[ref := task.(id := id)],
         nextId := if task.id == "" then Succ(k) else s.nextId,
         ids := if id in s.ids then s.ids else s.ids[id := ref],
         adder := Registered(ref))
    case Signal => s.(interrupted := true, adder := Free)
    case Finish(ref, clock) =>
      var rest := s.(now := clock, running := s.running - multiset{ref});
      if s.tasks[ref].interval then
        rest.(queue := Insert(s.queue, Entry(NewTime(s.tasks[ref].kind, clock), ref)), interrupted := true)
      else rest
    case ClearInterval(id) =>
      s.(tasks := s.tasks[s.ids[id] := s.tasks[s.ids[id]].(interval := false)], removing := Some(id))
    case Erase => s.(ids := s.ids - {s.removing.value}, removing := None)
    case Check => s.(manager := if s.closing.Open? then Looking else Exited)
    case Look => s.(manager := if s.queue == [] then Asleep(None) else Peeking)
    case Peek => s.(manager := Asleep(Some(s.queue[0].time)))
    case Wake => s.(interrupted := false, manager := Managing)
    case Manage(readings) => AfterManage(s, readings)
    case SetDone => s.(closing := DoneSet)
    case SignalDone => s.(closing := Signalled, interrupted := true)
  }

  /** A run: every step is enabled where it is taken. */
  ghost predicate IsRun(s: State, steps: seq<Step>)
    decreases |steps|
  {
    steps != [] ==> Enabled(s, steps[0]) && IsRun(Apply(s, steps[0]), steps[1..])
  }

  ghost function After(s: State, steps: seq<Step>): State
    requires IsRun(s, steps)
    decreases |steps|
  {
    if steps == [] then s else After(Apply(s, steps[0]), steps[1..])
  }

  /** How often the body was started. */
  function Starts(log: seq<Start>, ref: Ref): nat {
    if log == [] then 0 else Starts(log[..|log| - 1], ref) + (if log[|log| - 1].ref == ref then 1 else 0)
  }
}
