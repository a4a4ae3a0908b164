/** `find_next` and `cron_next` as they are written: a broken-down time is
    changed in place, field by field, by a search that calls itself whenever a
    field has moved. An exception is an `ok` or `Ending` value. */
module Cron {
  import opened Wrappers
  import opened Calendar
  import opened CronExpression
  import opened CronSteps
  import opened CronFind
  import opened CronSearch

  /** Normalising a time after one raw field was assigned is `Put`. */
  lemma PutNormalises(at: Stamp, field: Field, v: int, sec: int, min: int, hour: int, mday: int, mon: int, year: int)
    requires at.Valid()
    requires sec == (if field == Second then v else at.sec)
    requires min == (if field == Minute then v else at.min)
    requires hour == (if field == HourOfDay then v else at.hour)
    requires mday == (if field == DayOfMonth then v else MonthDay(at.day))
    requires mon == (if field == Month then v else MonthOf(at.day) % 12)
    requires year == (if field == Year then v else TmYear(at.day))
    ensures Put(at, field, v) == Normal(MonthStart(12 * (year + 1900) + mon) + mday - 1, hour, min, sec)
  {
    hide MonthStart, MonthOf, Normal;
    var m := MonthOf(at.day);
    YearAndMonth(m);
    var day := MonthStart(12 * (year + 1900) + mon) + mday - 1;
    if field in {Second, Minute, HourOfDay} {
      assert day == at.day;
    } else {
      assert Put(at, field, v) == at.(day := day);
      InRange(at.(day := day));
    }
  }

  lemma AddNormalises(at: Stamp, field: Field, v: int, sec: int, min: int, hour: int, mday: int, mon: int, year: int)
    requires at.Valid()
    requires sec == at.sec + (if field == Second then v else 0)
    requires min == at.min + (if field == Minute then v else 0)
    requires hour == at.hour + (if field == HourOfDay then v else 0)
    requires mday == MonthDay(at.day) + (if field in {DayOfWeek, DayOfMonth} then v else 0)
    requires mon == MonthOf(at.day) % 12 + (if field == Month then v else 0)
    requires year == TmYear(at.day) + (if field == Year then v else 0)
    ensures Add(at, field, v) == Normal(MonthStart(12 * (year + 1900) + mon) + mday - 1, hour, min, sec)
  {
    hide MonthStart, MonthOf, Normal, Put, TmYear;
    var target := if field == DayOfWeek then DayOfMonth else field;
    PutNormalises(at, target, Get(at, target) + v, sec, min, hour, mday, mon, year);
  }

  lemma YearAndMonth(m: int)
    ensures 12 * (m / 12 - 1900 + 1900) + m % 12 == m
  {
  }

  lemma OnlyInvalidFails(at: Stamp)
    requires at.Valid()
    ensures Time(at) == INVALID_TIME <==> Checked(at).None?
  {
    if Time(at) == INVALID_TIME {
      SameTimeSameStamp(at, INVALID_STAMP);
    }
  }

  /** `std::tm`. */
  class Tm {
    var sec: int
    var min: int
    var hour: int
    var mday: int
    var mon: int
    var year: int
    var wday: int

    ghost function At(): Stamp
      reads this
    {
      Stamp(MonthStart(12 * (year + 1900) + mon) + mday - 1, hour, min, sec)
    }

    /** All fields are in normal form. */
    ghost predicate Valid()
      reads this
    {
      var day := At().day;
      && At().Valid()
      && mday == MonthDay(day) && wday == WeekDay(day)
      && mon == MonthOf(day) % 12 && year == TmYear(day)
    }

    /** Holds a normal time in its fields. */
    method Store(at: Stamp)
      requires at.Valid()
      modifies this
      ensures Valid() && At() == at
    {
      sec, min, hour := at.sec, at.min, at.hour;
      mday, wday := MonthDay(at.day), WeekDay(at.day);
      mon, year := MonthOf(at.day) % 12, TmYear(at.day);
      assert 12 * (year + 1900) + mon == MonthOf(at.day);
    }

    method Mktime() returns (t: int)
      modifies this
      ensures Valid() && t == Time(At())
      ensures At() == Normal(old(At().day), old(hour), old(min), old(sec))
    {
      var at := Normal(MonthStart(12 * (year + 1900) + mon) + mday - 1, hour, min, sec);
      Store(at);
      t := Time(at);
    }

    method AddToField(field: Field, val: int) returns (ok: bool)
      requires Valid()
      modifies this
      ensures Valid() && At() == Add(old(At()), field, val)
      ensures ok == Checked(At()).Some?
    {
      hide Add, Put, Normal, MonthStart, MonthOf, MonthDay, WeekDay, TmYear, Time;
      ghost var before := At();
      match field {
        case Second => sec := sec + val;
        case Minute => min := min + val;
        case HourOfDay => hour := hour + val;
        case DayOfWeek | DayOfMonth => mday := mday + val;
        case Month => mon := mon + val;
        case Year => year := year + val;
      }
      AddNormalises(before, field, val, sec, min, hour, mday, mon, year);
      var t := Mktime();
      ok := t != INVALID_TIME;
      OnlyInvalidFails(At());
    }

    method SetField(field: Field, val: int) returns (ok: bool)
      requires Valid()
      modifies this
      ensures Valid() && At() == Put(old(At()), field, val)
      ensures ok == Checked(At()).Some?
    {
      hide Add, Put, Normal, MonthStart, MonthOf, MonthDay, WeekDay, TmYear, Time;
      ghost var before := At();
      match field {
        case Second => sec := val;
        case Minute => min := val;
        case HourOfDay => hour := val;
        case DayOfWeek => wday := val;
        case DayOfMonth => mday := val;
        case Month => mon := val;
        case Year => year := val;
      }
      PutNormalises(before, field, val, sec, min, hour, mday, mon, year);
      var t := Mktime();
      ok := t != INVALID_TIME;
      OnlyInvalidFails(At());
    }

    method ResetField(field: Field) returns (ok: bool)
      requires Valid()
      modifies this
      ensures Valid() && At() == Reset(old(At()), field)
      ensures ok == Checked(At()).Some?
    {
      hide Put, MonthStart, MonthOf;
      ok := SetField(field, if field == DayOfMonth then 1 else 0);
    }

    method ResetAllFields(marked: set<Field>) returns (ok: bool)
      requires Valid()
      modifies this
      ensures Valid()
      ensures ok == ResetAll(old(At()), marked).Some?
      ensures ok ==> At() == ResetAll(old(At()), marked).value
    {
      hide MonthStart, MonthOf, ResetAll, Reset;
      ghost var before := At();
      AllFields(before, marked);
      ok := true;
      var i := 0;
      while i < |FIELDS|
        invariant 0 <= i <= |FIELDS| && Valid() && ok
        invariant ResetFirst(before, marked, i) == Some(At())
      {
        if FIELDS[i] in marked {
          ok := ResetField(FIELDS[i]);
          if !ok {
            NoneStays(before, marked, i + 1);
            return;
          }
        }
        i := i + 1;
      }
    }
  }

  const FIELDS := [Second, Minute, HourOfDay, DayOfWeek, DayOfMonth, Month, Year]

  /** The first `n` fields of a reset. */
  ghost function ResetFirst(at: Stamp, marked: set<Field>, n: nat): (r: Option<Stamp>)
    requires at.Valid() && n <= |FIELDS|
    ensures r.Some? ==> r.value.Valid()
  {
    if n == 0 then Some(at)
    else
      var low :- ResetFirst(at, marked, n - 1);
      ResetIf(low, FIELDS[n - 1], marked)
  }

  lemma {:induction false} NoneStays(at: Stamp, marked: set<Field>, n: nat)
    requires at.Valid() && n <= |FIELDS| && ResetFirst(at, marked, n).None?
    ensures ResetFirst(at, marked, |FIELDS|).None?
    decreases |FIELDS| - n
  {
    if n < |FIELDS| {
      NoneStays(at, marked, n + 1);
    }
  }

  lemma AllFields(at: Stamp, marked: set<Field>)
    requires at.Valid()
    ensures ResetFirst(at, marked, |FIELDS|) == ResetAll(at, marked)
  {
    hide ResetIf;
    assert ResetFirst(at, marked, 1) == ResetIf(at, Second, marked);
    assert ResetFirst(at, marked, 3)
      == var a :- ResetFirst(at, marked, 1); var b :- ResetIf(a, Minute, marked); ResetIf(b, HourOfDay, marked);
    assert ResetFirst(at, marked, 5)
      == var a :- ResetFirst(at, marked, 3); var b :- ResetIf(a, DayOfWeek, marked); ResetIf(b, DayOfMonth, marked);
  }

  const INVALID_INDEX := -1

  method FindSetBit(bits: seq<bool>, offset: nat) returns (i: int)
    requires offset <= |bits|
    ensures i == match NextSetBit(bits, offset) case Some(v) => v case None => INVALID_INDEX
  {
    i := offset;
    while i < |bits|
      invariant offset <= i <= |bits|
      invariant NextSetBit(bits, offset) == NextSetBit(bits, i)
    {
      if bits[i] {
        return;
      }
      i := i + 1;
    }
    i := INVALID_INDEX;
  }

  /** The inner `find_next`: moves one field on. */
  method FindNextField(bits: seq<bool>, date: Tm, value: nat, field: Field, next: Field, marked: set<Field>)
    returns (ok: bool, nextValue: int)
    requires date.Valid() && true in bits && value == Get(date.At(), field) && value < |bits|
    modifies date
    ensures date.Valid()
    ensures ok == FieldStep(bits, old(date.At()), field, next, marked).Some?
    ensures ok ==>
      var s := FieldStep(bits, old(date.At()), field, next, marked).value;
      date.At() == s.at && (nextValue != value <==> s.moved)
  {
    hide MonthStart, MonthOf, MonthDay, WeekDay, TmYear, ResetAll, Put, Add, Reset, NextSetBit;
    ok := true;
    nextValue := FindSetBit(bits, value);
    if nextValue == INVALID_INDEX {
      ok := date.AddToField(next, 1);
      if !ok {
        return;
      }
      ok := date.ResetField(field);
      if !ok {
        return;
      }
      nextValue := FindSetBit(bits, 0);
    }
    if nextValue == INVALID_INDEX || nextValue != value {
      ok := date.SetField(field, nextValue);
      if !ok {
        return;
      }
      ok := date.ResetAllFields(marked);
    }
  }

  /** Returns the day number it stopped at. */
  method FindNextDay(cex: CronExpr, date: Tm, marked: set<Field>) returns (ok: bool, dayOfMonth: int)
    requires cex.Valid() && date.Valid() && marked <= {Second, Minute, HourOfDay}
    modifies date
    ensures date.Valid()
    ensures ok == DayWalk(cex, old(date.At()), marked, 0).Some?
    ensures ok ==> date.At() == DayWalk(cex, old(date.At()), marked, 0).value && dayOfMonth == date.mday
  {
    hide MonthStart, MonthOf, ResetAll, Add;
    ghost var before := date.At();
    ok := true;
    dayOfMonth := date.mday;
    var dayOfWeek := date.wday;
    var count := 0;
    while (!cex.daysOfMonth[dayOfMonth - 1] || !cex.daysOfWeek[dayOfWeek]) && count < MAX_DAY_STEPS
      invariant date.Valid() && ok && 0 <= count <= MAX_DAY_STEPS
      invariant dayOfMonth == date.mday && dayOfWeek == date.wday
      invariant DayWalk(cex, date.At(), marked, count) == DayWalk(cex, before, marked, 0)
    {
      count := count + 1;
      ok := date.AddToField(DayOfMonth, 1);
      if !ok {
        return;
      }
      dayOfMonth := date.mday;
      dayOfWeek := date.wday;
      ResetsZero(date.At(), marked);
      ok := date.ResetAllFields(marked);
      if !ok {
        return;
      }
    }
  }

  /** How `find_next` ends: by the exception, or with its boolean. */
  datatype Ending = Thrown | No | Yes

  ghost function EndingOf(r: SearchResult): Ending {
    match r
    case Threw => Thrown
    case NotFound => No
    case Found(_) => Yes
  }

  /** The ending, and the time it leaves in a broken-down time. */
  ghost predicate Leaves(r: SearchResult, ending: Ending, after: Stamp) {
    ending == EndingOf(r) && (r.Found? ==> after == r.at)
  }

  /** The search. After a field has moved it starts over from the new time,
      and then goes on with the fields above the one that moved. It is cut
      into three between fields. */
  method FindNext(cex: CronExpr, date: Tm, dot: int) returns (r: Ending)
    requires cex.Valid() && date.Valid() && dot <= date.year
    modifies date
    ensures date.Valid() && Leaves(Find(cex, old(date.At()), dot), r, date.At())
    decreases MonthsFrom(AfterSecond(cex, date.At()) / 1440, dot), MinutesFrom(cex, AfterSecond(cex, date.At())), 5
  {
    hide Find, FindMinute, FindHour, FindDay, FindMonth, FieldStep, DayWalk, MonthStart;
    hide MonthOf, MonthDay, WeekDay, TmYear, Time, MonthsFrom, MinutesFrom,
      AfterSecond, Minutes, AtMinute, AtHour, AtDay, AtMonth, Forward, NotAbove, Settled, Promises;
    ghost var start, mu := date.At(), AfterSecond(cex, date.At());
    FirstUnrolls(cex, start, dot);
    var marked: set<Field> := {};

    var second := date.sec;
    var ok, updated := FindNextField(cex.seconds, date, second, Second, Minute, {});
    if !ok {
      return Thrown;
    }
    if second == updated {
      marked := marked + {Second};
    }
    assert marked == if second == updated then {Second} else {};

    ghost var at := date.At();
    MinuteUnrolls(cex, at, marked, dot);
    var minute := date.min;
    ok, updated := FindNextField(cex.minutes, date, minute, Minute, HourOfDay, marked);
    if !ok {
      return Thrown;
    }
    if minute == updated {
      marked := marked + {Minute};
    } else {
      CallDescends(cex, mu, at, date.At(), dot);
      CallReturns(cex, mu, at, date.At(), dot);
      r := FindNext(cex, date, dot);
      if r != Yes {
        return;
      }
    }
    BelowMeans(cex, mu, date.At(), dot);
    r := FindNextHour(cex, date, marked, dot);
  }

  /** The search from the hour on. */
  method FindNextHour(cex: CronExpr, date: Tm, marks: set<Field>, dot: int) returns (r: Ending)
    requires cex.Valid() && date.Valid() && dot <= date.year && AtHour(cex, date.At(), marks)
    modifies date
    ensures date.Valid() && Leaves(FindHour(cex, old(date.At()), marks, dot), r, date.At())
    decreases MonthsFrom(date.At().day, dot), MinutesFrom(cex, Minutes(date.At())), 3
  {
    hide Find, FindMinute, FindHour, FindDay, FindMonth, FieldStep, DayWalk, MonthStart;
    hide MonthOf, MonthDay, WeekDay, TmYear, Time, MonthsFrom, MinutesFrom,
      AfterSecond, Minutes, AtMinute, AtHour, AtDay, AtMonth, Forward, NotAbove, Settled, Promises;
    ghost var at, mu := date.At(), Minutes(date.At());
    HereIsNotAbove(cex, at, dot);
    HourUnrolls(cex, at, marks, dot);
    var marked := marks;
    var hour := date.hour;
    var ok, updated := FindNextField(cex.hours, date, hour, HourOfDay, DayOfWeek, marked);
    if !ok {
      return Thrown;
    }
    if hour == updated {
      marked := marked + {HourOfDay};
    } else {
      CallDescends(cex, mu, at, date.At(), dot);
      CallReturns(cex, mu, at, date.At(), dot);
      r := FindNext(cex, date, dot);
      if r != Yes {
        return;
      }
    }
    BelowMeans(cex, mu, date.At(), dot);
    r := FindNextDate(cex, date, marked, dot);
  }

  /** The search from the day on. */
  method FindNextDate(cex: CronExpr, date: Tm, marks: set<Field>, dot: int) returns (r: Ending)
    requires cex.Valid() && date.Valid() && dot <= date.year && AtDay(cex, date.At(), marks)
    modifies date
    ensures date.Valid() && Leaves(FindDay(cex, old(date.At()), marks, dot), r, date.At())
    decreases MonthsFrom(date.At().day, dot), MinutesFrom(cex, Minutes(date.At())), 2
  {
    hide Find, FindMinute, FindHour, FindDay, FindMonth, FieldStep, DayWalk, MonthStart;
    hide MonthOf, MonthDay, WeekDay, TmYear, Time, MonthsFrom, MinutesFrom,
      AfterSecond, Minutes, AtMinute, AtHour, AtDay, AtMonth, Forward, NotAbove, Settled, Promises;
    ghost var at, mu := date.At(), Minutes(date.At());
    HereIsNotAbove(cex, at, dot);
    DayUnrolls(cex, mu, at, marks, dot);
    assert marks <= {Second, Minute, HourOfDay} by { DayMarks(cex, at, marks); }
    var marked := marks;
    var dayOfMonth := date.mday;
    var ok, updated := FindNextDay(cex, date, marked);
    if !ok {
      return Thrown;
    }
    if dayOfMonth == updated {
      marked := marked + {DayOfMonth};
    } else {
      CallDescends(cex, mu, at, date.At(), dot);
      CallReturns(cex, mu, at, date.At(), dot);
      r := FindNext(cex, date, dot);
      if r != Yes {
        return;
      }
    }

    ghost var settled := date.At();
    MonthUnrolls(cex, settled, marked, dot);
    var month := date.mon;
    ok, updated := FindNextField(cex.months, date, month, Month, Year, marked);
    if !ok {
      return Thrown;
    }
    if month != updated {
      if AsSize(date.year - dot) > MAX_YEARS_DIFF {
        return No;
      }
      CallDescends(cex, mu, settled, date.At(), dot);
      r := FindNext(cex, date, dot);
      return;
    }
    r := Yes;
  }

  lemma DayMarks(cex: CronExpr, at: Stamp, marked: set<Field>)
    requires cex.Valid() && at.Valid() && AtDay(cex, at, marked)
    ensures marked <= {Second, Minute, HourOfDay}
  {
  }

  lemma HereIsNotAbove(cex: CronExpr, at: Stamp, dot: int)
    requires cex.Valid() && at.Valid()
    ensures NotAbove(cex, Minutes(at), at, dot) && Minutes(at) / 1440 == at.day
  {
    hide MonthsFrom, MinutesFrom;
    MinuteParts(at);
  }

  lemma BelowMeans(cex: CronExpr, mu: int, at: Stamp, dot: int)
    requires cex.Valid() && at.Valid() && NotAbove(cex, mu, at, dot)
    ensures MonthsFrom(at.day, dot) < MonthsFrom(mu / 1440, dot)
      || (MonthsFrom(at.day, dot) == MonthsFrom(mu / 1440, dot)
          && MinutesFrom(cex, Minutes(at)) <= MinutesFrom(cex, mu))
  {
  }

  /** `cron_next` on a time value. `None` is the exception. */
  method CronNextTime(cex: CronExpr, t: int) returns (r: Option<int>)
    requires cex.Valid()
    ensures r == CronNext(cex, t)
  {
    hide Find, MonthStart, MonthOf, MonthDay, WeekDay, TmYear, Time, Add, Put, Matches;
    if t == INVALID_TIME {
      return Some(INVALID_TIME);
    }
    var date := new Tm;
    date.Store(StampOf(t));
    var ending := FindNext(cex, date, date.year);
    if ending == Thrown {
      return None;
    } else if ending == No {
      return Some(INVALID_TIME);
    }
    ghost var found := date.At();
    var calculated := date.Mktime();
    InRange(found);
    if calculated == INVALID_TIME || calculated != t {
      return Some(calculated);
    }
    var ok := date.AddToField(Second, 1);
    if !ok {
      return None;
    }
    ending := FindNext(cex, date, date.year);
    if ending == Thrown {
      return None;
    } else if ending == No {
      return Some(INVALID_TIME);
    }
    found := date.At();
    calculated := date.Mktime();
    InRange(found);
    r := Some(calculated);
  }
}
