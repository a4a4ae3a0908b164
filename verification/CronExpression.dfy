/** Normalised times, cron expressions, and one pass of the cron search. */
module CronExpression {
  import opened Wrappers
  import opened Calendar
  import CalendarPeriod

  // ----- Times -----

  datatype Field = Second | Minute | HourOfDay | DayOfWeek | DayOfMonth | Month | Year

  /** A broken-down time in normal form; `day` is counted from 1970-01-01. */
  datatype Stamp = Stamp(day: int, hour: int, min: int, sec: int) {
    ghost predicate Valid() {
      0 <= hour < 24 && 0 <= min < 60 && 0 <= sec < 60
    }
  }

  function Minutes(at: Stamp): int {
    (at.day * 24 + at.hour) * 60 + at.min
  }

  /** Seconds since 1970-01-01 00:00:00. */
  function Time(at: Stamp): int {
    Minutes(at) * 60 + at.sec
  }

  /** The time value of any date is that of "Seconds Since the Epoch" in
      section 4.16 of POSIX.1-2017, where `k` is `tm_mon` and `d` is
      `tm_mday`. */
  lemma TimeIsPosix(at: Stamp, y: int, k: nat, d: int)
    requires k < 12 && at.day == MonthStart(12 * y + k) + d - 1
    ensures var year := y - 1900;
      var yday := [0, 31, 59, 90, 120, 151, 181, 212, 243, 273, 304, 334][k]
        + (if k > 1 && y % 4 == 0 && (y % 100 != 0 || y % 400 == 0) then 1 else 0) + d - 1;
      Time(at) == at.sec + at.min * 60 + at.hour * 3600 + yday * 86400 + (year - 70) * 31536000
        + (year - 69) / 4 * 86400 - (year - 1) / 100 * 86400 + (year + 299) / 400 * 86400
  {
    hide MonthStart;
    CalendarPeriod.DayIsPosix(y, k, d);
  }

  /** `tm_year`: years since 1900. */
  function TmYear(day: int): int {
    MonthOf(day) / 12 - 1900
  }

  /** `mktime` on a day number and unnormalised clock fields. */
  function Normal(day: int, hour: int, min: int, sec: int): (at: Stamp)
    ensures at.Valid()
    ensures Time(at) == ((day * 24 + hour) * 60 + min) * 60 + sec
  {
    var m := min + sec / 60;
    var h := hour + m / 60;
    Stamp(day + h / 24, h % 24, m % 60, sec % 60)
  }

  /** The time value `mktime` also returns for a failure. */
  const INVALID_STAMP := Stamp(-1, 23, 59, 59)

  function Checked(at: Stamp): Option<Stamp> {
    if at == INVALID_STAMP then None else Some(at)
  }

  /** Assigning one field of a normalised time and normalising again. The
      weekday is an output of `mktime` only. */
  function Put(at: Stamp, field: Field, v: int): (r: Stamp)
    requires at.Valid()
    ensures r.Valid()
  {
    match field
    case Second => Normal(at.day, at.hour, at.min, v)
    case Minute => Normal(at.day, at.hour, v, at.sec)
    case HourOfDay => Normal(at.day, v, at.min, at.sec)
    case DayOfWeek => at
    case DayOfMonth => at.(day := MonthStart(MonthOf(at.day)) + v - 1)
    case Month => at.(day := MonthStart(12 * (MonthOf(at.day) / 12) + v) + MonthDay(at.day) - 1)
    case Year => at.(day := MonthStart(12 * (v + 1900) + MonthOf(at.day) % 12) + MonthDay(at.day) - 1)
  }

  function Get(at: Stamp, field: Field): int {
    match field
    case Second => at.sec
    case Minute => at.min
    case HourOfDay => at.hour
    case DayOfWeek => WeekDay(at.day)
    case DayOfMonth => MonthDay(at.day)
    case Month => MonthOf(at.day) % 12
    case Year => TmYear(at.day)
  }

  /** Adding to the weekday means adding to the month day. */
  function Add(at: Stamp, field: Field, v: int): (r: Stamp)
    requires at.Valid()
    ensures r.Valid()
  {
    var target := if field == DayOfWeek then DayOfMonth else field;
    Put(at, target, Get(at, target) + v)
  }

  function Reset(at: Stamp, field: Field): (r: Stamp)
    requires at.Valid()
    ensures r.Valid()
  {
    Put(at, field, if field == DayOfMonth then 1 else 0)
  }

  function ResetIf(at: Stamp, field: Field, marked: set<Field>): (r: Option<Stamp>)
    requires at.Valid()
    ensures r.Some? ==> r.value.Valid()
  {
    if field in marked then Checked(Reset(at, field)) else Some(at)
  }

  /** Resets the marked fields, lowest first; `None` is the exception. */
  function ResetAll(at: Stamp, marked: set<Field>): (r: Option<Stamp>)
    requires at.Valid()
    ensures r.Some? ==> r.value.Valid()
  {
    var a :- ResetIf(at, Second, marked);
    var b :- ResetIf(a, Minute, marked);
    var c :- ResetIf(b, HourOfDay, marked);
    var d :- ResetIf(c, DayOfWeek, marked);
    var e :- ResetIf(d, DayOfMonth, marked);
    var f :- ResetIf(e, Month, marked);
    ResetIf(f, Year, marked)
  }

  // ----- Expressions -----

  /** The six bitsets of a parsed expression. */
  datatype CronExpr = CronExpr(
    seconds: seq<bool>,
    minutes: seq<bool>,
    hours: seq<bool>,
    daysOfWeek: seq<bool>,
    daysOfMonth: seq<bool>,
    months: seq<bool>)
  {
    /** What parsing guarantees: bitsets of the right width, none empty. */
    ghost predicate Valid() {
      && |seconds| == 60 && true in seconds
      && |minutes| == 60 && true in minutes
      && |hours| == 24 && true in hours
      && |daysOfWeek| == 7 && true in daysOfWeek
      && |daysOfMonth| == 31 && true in daysOfMonth
      && |months| == 12 && true in months
    }
  }

  predicate Full(bits: seq<bool>) {
    forall i | 0 <= i < |bits| :: bits[i]
  }

  /** At least one of the two day fields is unrestricted. */
  predicate OneDayField(cex: CronExpr) {
    Full(cex.daysOfWeek) || Full(cex.daysOfMonth)
  }

  predicate DayMatches(cex: CronExpr, day: int)
    requires |cex.daysOfWeek| == 7 && |cex.daysOfMonth| == 31
  {
    cex.daysOfMonth[MonthDay(day) - 1] && cex.daysOfWeek[WeekDay(day)]
  }

  predicate MonthMatches(cex: CronExpr, day: int)
    requires |cex.months| == 12
  {
    cex.months[MonthOf(day) % 12]
  }

  /** The date satisfies all six fields. */
  ghost predicate Matches(cex: CronExpr, at: Stamp)
    requires cex.Valid() && at.Valid()
  {
    && cex.seconds[at.sec] && cex.minutes[at.min] && cex.hours[at.hour]
    && DayMatches(cex, at.day) && MonthMatches(cex, at.day)
  }

  /** The first set bit at or above `from`. */
  function NextSetBit(bits: seq<bool>, from: nat): (r: Option<nat>)
    requires from <= |bits|
    ensures r.Some? ==> from <= r.value < |bits| && bits[r.value]
    ensures forall i | from <= i < (if r.Some? then r.value else |bits|) :: !bits[i]
    decreases |bits| - from
  {
    if from == |bits| then None
    else if bits[from] then Some(from)
    else NextSetBit(bits, from + 1)
  }

  /** The value a field step moves to: the next set bit, or the first one. */
  function Target(bits: seq<bool>, value: nat): (v: nat)
    requires value < |bits| && true in bits
    ensures v < |bits| && bits[v]
    ensures NextSetBit(bits, value).None? ==> v < value
    ensures NextSetBit(bits, value).Some? ==> value <= v
  {
    assert NextSetBit(bits, 0).Some?;
    match NextSetBit(bits, value)
    case Some(v) => v
    case None => NextSetBit(bits, 0).value
  }

  // ----- One pass of the search -----

  /** A field step: the time after it, and whether the field changed. */
  datatype Step = Step(at: Stamp, moved: bool)

  /** Moves one field to its next allowed value. Without one, `next` is
      carried into and the field starts again from its first value. A moved
      field resets the marked lower fields. */
  function FieldStep(bits: seq<bool>, at: Stamp, field: Field, next: Field, marked: set<Field>): (r: Option<Step>)
    requires at.Valid() && true in bits && 0 <= Get(at, field) < |bits|
    ensures r.Some? ==> r.value.at.Valid()
  {
    var value := Get(at, field);
    var target := Target(bits, value);
    var low :- if NextSetBit(bits, value).Some? then Some(at) else Carry(at, field, next);
    if target == value then Some(Step(low, false))
    else
      var placed :- Checked(Put(low, field, target));
      var done :- ResetAll(placed, marked);
      Some(Step(done, true))
  }

  function Carry(at: Stamp, field: Field, next: Field): (r: Option<Stamp>)
    requires at.Valid()
    ensures r.Some? ==> r.value.Valid()
  {
    var up :- Checked(Add(at, next, 1));
    Checked(Reset(up, field))
  }

  const MAX_DAY_STEPS := 366

  /** Walks forward to a matching day, resetting the marked fields on every
      step, and gives up after `MAX_DAY_STEPS`. */
  function DayWalk(cex: CronExpr, at: Stamp, marked: set<Field>, count: nat): (r: Option<Stamp>)
    requires cex.Valid() && at.Valid() && count <= MAX_DAY_STEPS
    ensures r.Some? ==> r.value.Valid()
    decreases MAX_DAY_STEPS - count
  {
    if DayMatches(cex, at.day) || count == MAX_DAY_STEPS then Some(at)
    else
      var up :- Checked(Add(at, DayOfMonth, 1));
      var next :- ResetAll(up, marked);
      DayWalk(cex, next, marked, count + 1)
  }

  const MAX_YEARS_DIFF := 4

  /** A difference of two 64-bit unsigned values. */
  function AsSize(x: int): int {
    if x < 0 then x + 0x1_0000_0000_0000_0000 else x
  }

  /** The search has left the years it looks at; `dot` is the `tm_year` it
      began in. */
  predicate TooFar(day: int, dot: int) {
    AsSize(TmYear(day) - dot) > MAX_YEARS_DIFF
  }

  /** How one pass over the fields ends: with an exception, out of years, in
      a restart from a later time, or with every field in place. */
  datatype PassResult = Threw | GaveUp | Restart(at: Stamp) | Done(at: Stamp)

  /** The fields in order, up to the first one of minute, hour, day and month
      that moves. */
  function Pass(cex: CronExpr, at: Stamp, dot: int): (r: PassResult)
    requires cex.Valid() && at.Valid()
    ensures r.Restart? || r.Done? ==> r.at.Valid()
  {
    match FieldStep(cex.seconds, at, Second, Minute, {})
    case None => Threw
    case Some(s) =>
      var marked := if s.moved then {} else {Second};
      match FieldStep(cex.minutes, s.at, Minute, HourOfDay, marked)
      case None => Threw
      case Some(m) =>
        if m.moved then Restart(m.at) else HourPass(cex, m.at, marked + {Minute}, dot)
  }

  function HourPass(cex: CronExpr, at: Stamp, marked: set<Field>, dot: int): (r: PassResult)
    requires cex.Valid() && at.Valid()
    ensures r.Restart? || r.Done? ==> r.at.Valid()
  {
    match FieldStep(cex.hours, at, HourOfDay, DayOfWeek, marked)
    case None => Threw
    case Some(h) =>
      if h.moved then Restart(h.at) else DayPass(cex, h.at, marked + {HourOfDay}, dot)
  }

  /** Whether the day moved is judged by its number in the month alone. */
  function DayPass(cex: CronExpr, at: Stamp, marked: set<Field>, dot: int): (r: PassResult)
    requires cex.Valid() && at.Valid()
    ensures r.Restart? || r.Done? ==> r.at.Valid()
  {
    match DayWalk(cex, at, marked, 0)
    case None => Threw
    case Some(d) =>
      if MonthDay(d.day) != MonthDay(at.day) then Restart(d) else MonthPass(cex, d, marked + {DayOfMonth}, dot)
  }

  function MonthPass(cex: CronExpr, at: Stamp, marked: set<Field>, dot: int): (r: PassResult)
    requires cex.Valid() && at.Valid()
    ensures r.Restart? || r.Done? ==> r.at.Valid()
  {
    match FieldStep(cex.months, at, Month, Year, marked)
    case None => Threw
    case Some(m) =>
      if !m.moved then Done(m.at)
      else if TooFar(m.at.day, dot) then GaveUp
      else Restart(m.at)
  }
}
