/** Tasks, and the queue of the times they run at. */
module TaskQueue {
  import opened Calendar
  import opened CronExpression
  import opened CronFind
  import opened CronSearch
  import opened CronMatches
  import opened CronEarliest
  import opened CronAnswers

  /** Identity of a task object. */
  type Ref = nat

  /** `InTask`, `EveryTask` with and without the interval flag, `CronTask`. */
  datatype Kind = Once | Every(period: int) | Interval(period: int) | Cron(cex: CronExpr)
  {
    ghost predicate Valid() {
      Cron? ==> cex.Valid()
    }
  }

  /** A task; its name and its flag are assigned after creation. `time` is the
      time it was added for. */
  datatype Task = Task(id: string, kind: Kind, interval: bool, time: int)
  {
    ghost predicate Valid() {
      kind.Valid() && (interval ==> kind.Interval?)
    }

    predicate Recurs() {
      !kind.Once?
    }
  }

  /** The clock counts nanoseconds from 1970-01-01. */
  const TICKS := 1_000_000_000

  /** `get_new_time`. */
  function NewTime(kind: Kind, now: int): int
    requires kind.Valid() && now >= 0
  {
    match kind
    case Once => 0
    case Every(period) => now + period
    case Interval(period) => now + period
    case Cron(cex) =>
      CronNextIsLater(cex, now / TICKS);
      CronNext(cex, now / TICKS).value * TICKS
  }

  /** A positive period, or a cron expression that gets an answer. */
  predicate Advances(kind: Kind, now: int)
    requires kind.Valid() && now >= 0
  {
    match kind
    case Once => false
    case Every(period) => period > 0
    case Interval(period) => period > 0
    case Cron(cex) =>
      CronNextIsLater(cex, now / TICKS);
      CronNext(cex, now / TICKS).value != INVALID_TIME
  }

  lemma NewTimeAdvances(kind: Kind, now: int)
    requires kind.Valid() && now >= 0
    ensures NewTime(kind, now) > now <==> Advances(kind, now)
  {
    hide CronNext, Find, Settled, Start;
    if kind.Cron? {
      CronNextIsLater(kind.cex, now / TICKS);
    }
  }

  /** A cron task with one day field unrestricted and months that fit advances
      if a match lies ahead in the years looked at; and if it advances, it does
      so to a match. */
  lemma CronAdvances(cex: CronExpr, now: int)
    requires cex.Valid() && OneDayField(cex) && now >= 0
    ensures MonthsFit(cex) && MatchAhead(cex, now / TICKS) ==> Advances(Cron(cex), now)
    ensures Advances(Cron(cex), now) ==>
      var u := NewTime(Cron(cex), now) / TICKS; now / TICKS < u && Matches(cex, StampOf(u))
  {
    hide CronNext, Find, Matches, Search, Start, TmYear, StampOf, MonthsFit, OneDayField, Settled, MatchAhead;
    var t := now / TICKS;
    CronNextIsLaterMatch(cex, t);
    if MonthsFit(cex) && MatchAhead(cex, t) {
      AnswersIfAhead(cex, t);
    }
  }

  /** A task that is going to recur: a positive period, or a cron expression
      with one day field unrestricted, months that fit and a match ahead. */
  ghost predicate GoesOn(kind: Kind, now: int)
    requires kind.Valid() && now >= 0
  {
    match kind
    case Cron(cex) => OneDayField(cex) && MonthsFit(cex) && MatchAhead(cex, now / TICKS)
    case _ => Advances(kind, now)
  }

  lemma GoesOnAdvances(kind: Kind, now: int)
    requires kind.Valid() && now >= 0 && GoesOn(kind, now)
    ensures Advances(kind, now)
  {
    hide Advances, MonthsFit, OneDayField, MatchAhead;
    if kind.Cron? {
      CronAdvances(kind.cex, now);
    }
  }

  // ----- The next match -----

  /** `time` is the beginning of a second that matches, after the second the
      clock is in, and no second between them matches. */
  ghost predicate IsNextMatch(cex: CronExpr, now: int, time: int)
    requires cex.Valid()
  {
    && time % 1_000_000_000 == 0 && now < time
    && Matches(cex, StampOf(time / 1_000_000_000))
    && forall x | now / 1_000_000_000 < x < time / 1_000_000_000 :: !Matches(cex, StampOf(x))
  }

  /** There is one such time at most. */
  lemma NextMatchIsOne(cex: CronExpr, now: int, a: int, b: int)
    requires cex.Valid() && IsNextMatch(cex, now, a) && IsNextMatch(cex, now, b)
    ensures a == b
  {
    hide Matches, StampOf;
    var x, y := a / 1_000_000_000, b / 1_000_000_000;
    assert !(now / 1_000_000_000 < x < y) && !(now / 1_000_000_000 < y < x);
  }

  /** A cron task goes on at the next match; if it stops, no match lies within
      the four years after the clock's. */
  ghost predicate TakesNext(cex: CronExpr, now: int)
    requires cex.Valid() && now >= 0
  {
    if Advances(Cron(cex), now) then IsNextMatch(cex, now, NewTime(Cron(cex), now))
    else NewTime(Cron(cex), now) == -1_000_000_000 && !MatchAhead(cex, now / 1_000_000_000)
  }

  lemma AnswerIsNext(cex: CronExpr, now: int)
    requires cex.Valid() && OneDayField(cex) && now >= 0 && Advances(Cron(cex), now)
    ensures var time := NewTime(Cron(cex), now);
      IsNextMatch(cex, now, time) <==> NoneMatches(cex, now / TICKS + 1, time / TICKS)
  {
    hide CronNext, Find, Matches, Search, Start, StampOf, OneDayField;
    CronNextIsLaterMatch(cex, now / TICKS);
    var u := CronNext(cex, now / TICKS).value;
    assert u * TICKS / TICKS == u && u * TICKS % TICKS == 0;
  }

  /** With one day field unrestricted a cron task goes on at the next match at
      every clock time, exactly if the expression is one for which `cron_next`
      finds the earliest match. */
  lemma TakesNextExactly(cex: CronExpr)
    requires cex.Valid() && OneDayField(cex)
    ensures (forall now | now >= 0 :: TakesNext(cex, now)) <==> AlwaysEarliest(cex)
  {
    hide NextIsEarliest, AlwaysEarliest, MonthsFit, OneDayField, TakesNext, MatchAhead, FindsEarliest, Matches;
    if AlwaysEarliest(cex) {
      forall now | now >= 0
        ensures TakesNext(cex, now)
      {
        NextIsTaken(cex, now);
      }
    } else {
      var at := NotEarliestFrom(cex);
      StartsThere(cex, at);
      NextAsSearched(cex, Time(at));
      NotTaken(cex, at);
    }
  }

  lemma NextIsTaken(cex: CronExpr, now: int)
    requires cex.Valid() && OneDayField(cex) && AlwaysEarliest(cex) && now >= 0
    ensures TakesNext(cex, now)
  {
    hide CronNext, Find, Matches, Search, Start, StampOf;
    hide OneDayField, MonthsFit, MatchAhead, IsNextMatch, FindsEarliest;
    var t := now / TICKS;
    NextEarliestExactly(cex);
    assert NextIsEarliest(cex, t);
    CronNextIsLater(cex, t);
    if Advances(Cron(cex), now) {
      AnswerIsNext(cex, now);
    } else if MatchAhead(cex, t) {
      AnswersIfAhead(cex, t);
    }
  }

  lemma NotTaken(cex: CronExpr, at: Stamp)
    requires cex.Valid() && at.Valid() && OneDayField(cex) && at.day >= 0
    requires Start(cex, Time(at)) == at == StampOf(Time(at)) && !Matches(cex, at) && !NextIsEarliest(cex, Time(at))
    ensures Time(at) >= 0 && !TakesNext(cex, Time(at) * TICKS)
  {
    hide CronNext, Find, Matches, Search, StampOf, OneDayField, IsNextMatch, Time, MonthStart, MonthOf;
    var t := Time(at);
    var now := t * TICKS;
    assert t >= 0 && now >= 0 && now / TICKS == t by { NotNegative(at); }
    CronNextIsLater(cex, t);
    if Advances(Cron(cex), now) {
      AnswerIsNext(cex, now);
    } else {
      var end := Time(Stamp(MonthStart(EndMonth(TmYear(at.day))), 0, 0, 0));
      var x :| t + 1 <= x < end && Matches(cex, StampOf(x));
      YearBefore(StampOf(x), TmYear(at.day));
      assert MatchAhead(cex, t);
    }
  }

  lemma NotNegative(at: Stamp)
    requires at.Valid() && at.day >= 0
    ensures Time(at) >= 0
  {
  }

  lemma YearBefore(x: Stamp, dot: int)
    requires x.Valid() && Time(x) < Time(Stamp(MonthStart(EndMonth(dot)), 0, 0, 0))
    ensures TmYear(x.day) <= dot + 4
  {
    hide MonthStart, MonthOf;
    assert x.day < MonthStart(EndMonth(dot));
    if EndMonth(dot) < MonthOf(x.day) {
      MonthStartsIncrease(EndMonth(dot), MonthOf(x.day));
    }
    assert MonthOf(x.day) < EndMonth(dot) by { assert MonthStart(MonthOf(x.day)) <= x.day; }
  }

  /** A cron task of the form the bot uses goes on at the next match at any
      time. */
  lemma FiveFieldAdvances(cex: CronExpr, now: int)
    requires cex.Valid() && OneDayField(cex) && FiveFields(cex) && Full(cex.months) && now >= 0
    ensures NewTime(Cron(cex), now) > now && IsNextMatch(cex, now, NewTime(Cron(cex), now))
  {
    hide CronNext, Find, Matches, StampOf;
    FiveFieldCronNext(cex, now / TICKS);
    NewTimeAdvances(Cron(cex), now);
    AnswerIsNext(cex, now);
  }

  /** And one that runs once a day, at the next instant at its time of day. */
  lemma DailyAdvances(cex: CronExpr, hour: nat, minute: nat, now: int)
    requires cex.Valid() && Daily(cex, hour, minute) && hour < 24 && minute < 60 && now >= 0
    ensures var time := NewTime(Cron(cex), now);
      && time % 1_000_000_000 == 0 && now < time <= now + 86400 * 1_000_000_000
      && time / 1_000_000_000 % 86400 == hour * 3600 + minute * 60
  {
    hide CronNext, Find, Daily;
    DailyNext(cex, hour, minute, now / TICKS);
    var u := CronNext(cex, now / TICKS).value;
    assert u * TICKS / TICKS == u && u * TICKS % TICKS == 0;
  }

  /** The time a task is queued for again at a reading of the clock: a period
      later, or at the next match. */
  ghost predicate IsNextTime(kind: Kind, now: int, time: int)
    requires kind.Valid()
  {
    match kind
    case Once => true
    case Every(period) => time == now + period
    case Interval(period) => time == now + period
    case Cron(cex) => IsNextMatch(cex, now, time)
  }

  /** A cron expression with one day field unrestricted, for which `cron_next`
      finds the earliest match, and with a match ahead; or a period. */
  ghost predicate HasNextTime(kind: Kind, now: int)
    requires kind.Valid() && now >= 0
  {
    kind.Cron? ==> OneDayField(kind.cex) && AlwaysEarliest(kind.cex) && MatchAhead(kind.cex, now / TICKS)
  }

  lemma NewTimeIsNext(kind: Kind, now: int)
    requires kind.Valid() && now >= 0 && HasNextTime(kind, now)
    ensures IsNextTime(kind, now, NewTime(kind, now))
  {
    hide AlwaysEarliest, MatchAhead, OneDayField, IsNextMatch;
    if kind.Cron? {
      NextIsTaken(kind.cex, now);
    }
  }

  // ----- Keys over time -----

  predicate HasPeriod(kind: Kind) {
    kind.Every? || kind.Interval?
  }

  /** The expression gets an answer at every clock time. */
  ghost predicate AlwaysAdvances(cex: CronExpr)
    requires cex.Valid()
  {
    forall now | now >= 0 :: Advances(Cron(cex), now)
  }

  /** With one day field unrestricted, months that fit and a date that every
      year has, it does. */
  lemma AdvancesEveryYear(cex: CronExpr)
    requires cex.Valid() && OneDayField(cex) && MonthsFit(cex) && MatchesEveryYear(cex)
    ensures AlwaysAdvances(cex)
  {
    hide MonthsFit, OneDayField, CronNext, IsLeap, StampOf, AllowedDayUpTo;
    var m :| 0 <= m < 12 && cex.months[m] && AllowedDayUpTo(cex, CommonLength(m));
    assert HasLength(m, CommonLength(m));
    forall now | now >= 0
      ensures Advances(Cron(cex), now)
    {
      NeverGivesUp(cex, now / TICKS);
    }
  }

  /** How far a key is from an earlier start of its task: a period, or, for a
      cron task that always advances, beyond it. */
  ghost predicate Spaced(kind: Kind, at: int, key: int)
    requires kind.Valid()
  {
    && (HasPeriod(kind) ==> at + kind.period <= key)
    && (kind.Cron? && AlwaysAdvances(kind.cex) ==> at < key)
  }

  lemma NewTimeSpaced(kind: Kind, at: int, now: int)
    requires kind.Valid() && now >= 0 && at <= now
    ensures Spaced(kind, at, NewTime(kind, now))
  {
    hide Advances;
    NewTimeAdvances(kind, now);
    if HasPeriod(kind) {
      PeriodTime(kind, now);
    }
  }

  lemma PeriodTime(kind: Kind, now: int)
    requires kind.Valid() && now >= 0
    ensures HasPeriod(kind) ==> NewTime(kind, now) == now + kind.period
  {
  }

  /** A key is the time its task was added for, or a new time the task got at
      some reading of the clock. */
  ghost predicate Timed(task: Task, key: int)
    requires task.kind.Valid()
  {
    key == task.time || (task.Recurs() && exists now | now >= 0 :: key == NewTime(task.kind, now))
  }

  lemma NewTimeTimed(task: Task, now: int)
    requires task.kind.Valid() && task.Recurs() && now >= 0
    ensures Timed(task, NewTime(task.kind, now))
  {
    hide NewTime;
  }

  /** A cron task that always advances, with one day field unrestricted. */
  ghost predicate Steady(kind: Kind) {
    kind.Cron? && kind.Valid() && OneDayField(kind.cex) && AlwaysAdvances(kind.cex)
  }

  /** The beginning of a second that matches. */
  ghost predicate AtMatch(kind: Kind, key: int)
    requires kind.Cron? && kind.Valid()
  {
    key % 1_000_000_000 == 0 && Matches(kind.cex, StampOf(key / 1_000_000_000))
  }

  /** So a steady task is queued for seconds that match, or for the time it
      was added for. */
  lemma TimedMatches(task: Task, key: int)
    requires Steady(task.kind) && Timed(task, key)
    ensures key == task.time || AtMatch(task.kind, key)
  {
    hide CronNext, Find, Matches, StampOf, OneDayField;
    if key != task.time {
      var now :| now >= 0 && key == NewTime(task.kind, now);
      assert Advances(task.kind, now);
      CronNextIsLaterMatch(task.kind.cex, now / TICKS);
      var u := CronNext(task.kind.cex, now / TICKS).value;
      assert u * TICKS / TICKS == u && u * TICKS % TICKS == 0;
    }
  }

  /** An entry of the multimap: a time and a weak reference. */
  datatype Entry = Entry(time: int, ref: Ref)

  ghost predicate Sorted(q: seq<Entry>) {
    forall i, j | 0 <= i < j < |q| :: q[i].time <= q[j].time
  }

  /** `upper_bound`: how many entries are due at `clock`. */
  function UpperBound(q: seq<Entry>, clock: int): (k: nat)
    ensures k <= |q|
    ensures Sorted(q)
      ==> (forall i | 0 <= i < k :: q[i].time <= clock) && (forall i | k <= i < |q| :: q[i].time > clock)
    decreases |q|
  {
    if q == [] then 0
    else if q[|q| - 1].time <= clock then |q|
    else UpperBound(q[..|q| - 1], clock)
  }

  /** Behind the entries with the same time. */
  function Insert(q: seq<Entry>, e: Entry): seq<Entry> {
    var k := UpperBound(q, e.time);
    q[..k] + [e] + q[k..]
  }

  lemma InsertIsBehind(q: seq<Entry>, e: Entry) returns (a: seq<Entry>, b: seq<Entry>)
    requires Sorted(q)
    ensures q == a + b && Insert(q, e) == a + [e] + b
    ensures (forall x | x in a :: x.time <= e.time) && (forall x | x in b :: x.time > e.time)
  {
    var k := UpperBound(q, e.time);
    a, b := q[..k], q[k..];
  }

  lemma InsertKeeps(q: seq<Entry>, e: Entry)
    ensures multiset(Insert(q, e)) == multiset(q) + multiset{e}
    ensures forall x :: x in Insert(q, e) <==> x in q || x == e
  {
    var k := UpperBound(q, e.time);
    assert q == q[..k] + q[k..];
    assert multiset(Insert(q, e)) == multiset(q) + multiset{e};
    forall x
      ensures x in Insert(q, e) <==> x in q || x == e
    {
      assert x in Insert(q, e) <==> x in multiset(Insert(q, e));
      assert x in q <==> x in multiset(q);
    }
  }

  lemma InsertSorted(q: seq<Entry>, e: Entry)
    requires Sorted(q)
    ensures Sorted(Insert(q, e))
  {
    var k, r := UpperBound(q, e.time), Insert(q, e);
    forall i, j | 0 <= i < j < |r|
      ensures r[i].time <= r[j].time
    {
      assert r[i] == if i < k then q[i] else if i == k then e else q[i - 1];
      assert r[j] == if j < k then q[j] else if j == k then e else q[j - 1];
    }
  }

  /** How many entries refer to a task. */
  function Count(q: seq<Entry>, ref: Ref): nat {
    if q == [] then 0 else Count(q[..|q| - 1], ref) + (if q[|q| - 1].ref == ref then 1 else 0)
  }

  lemma {:induction false} CountAppend(a: seq<Entry>, b: seq<Entry>, ref: Ref)
    ensures Count(a + b, ref) == Count(a, ref) + Count(b, ref)
  {
    if b == [] {
      assert a + b == a;
    } else {
      assert (a + b)[..|a + b| - 1] == a + b[..|b| - 1];
      CountAppend(a, b[..|b| - 1], ref);
    }
  }

  lemma CountInsert(q: seq<Entry>, e: Entry, ref: Ref)
    ensures Count(Insert(q, e), ref) == Count(q, ref) + (if e.ref == ref then 1 else 0)
  {
    var k := UpperBound(q, e.time);
    CountAppend(q[..k] + [e], q[k..], ref);
    CountAppend(q[..k], [e], ref);
    CountAppend(q[..k], q[k..], ref);
    assert q[..k] + q[k..] == q && [e][..0] == [];
  }

  lemma {:induction false} CountPositive(q: seq<Entry>, ref: Ref)
    ensures Count(q, ref) > 0 <==> exists e :: e in q && e.ref == ref
  {
    if q != [] {
      var front, last := q[..|q| - 1], q[|q| - 1];
      CountPositive(front, ref);
      assert q == front + [last];
    }
  }

  /** All entries of `more`, in order, into the queue. */
  function InsertAll(q: seq<Entry>, more: seq<Entry>): seq<Entry> {
    if more == [] then q else Insert(InsertAll(q, more[..|more| - 1]), more[|more| - 1])
  }

  lemma {:induction false} InsertAllKeeps(q: seq<Entry>, more: seq<Entry>)
    ensures Sorted(q) ==> Sorted(InsertAll(q, more))
    ensures forall x :: x in InsertAll(q, more) <==> x in q || x in more
  {
    hide Insert;
    if more != [] {
      var front, last := more[..|more| - 1], more[|more| - 1];
      InsertAllKeeps(q, front);
      InsertKeeps(InsertAll(q, front), last);
      if Sorted(q) {
        InsertSorted(InsertAll(q, front), last);
      }
      assert more == front + [last];
    }
  }

  lemma {:induction false} CountInsertAll(q: seq<Entry>, more: seq<Entry>, ref: Ref)
    ensures Count(InsertAll(q, more), ref) == Count(q, ref) + Count(more, ref)
    decreases |more|
  {
    if more != [] {
      CountInsertAll(q, more[..|more| - 1], ref);
      CountInsert(InsertAll(q, more[..|more| - 1]), more[|more| - 1], ref);
    }
  }
}
