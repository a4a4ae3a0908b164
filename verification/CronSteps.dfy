/** What each step of a pass does to the time: where it lands, that it goes
    forward, and that it passes no minute it should have stopped at. */
module CronSteps {
  import opened Wrappers
  import opened Calendar
  import opened CronExpression

  /** Minute `mu` (counted from 1970-01-01) satisfies the minute, hour and
      day fields. */
  ghost predicate MinuteMatches(cex: CronExpr, mu: int)
    requires cex.Valid()
  {
    cex.minutes[mu % 60] && cex.hours[mu / 60 % 24] && DayMatches(cex, mu / 1440)
  }

  /** No minute from `a` up to but not including `b` matches. */
  ghost predicate NoneBetween(cex: CronExpr, a: int, b: int)
    requires cex.Valid()
  {
    forall mu | a <= mu < b :: !MinuteMatches(cex, mu)
  }

  lemma MinuteParts(at: Stamp)
    requires at.Valid()
    ensures Minutes(at) % 60 == at.min
    ensures Minutes(at) / 60 % 24 == at.hour
    ensures Minutes(at) / 1440 == at.day
  {
    assert Minutes(at) / 60 == at.day * 24 + at.hour;
  }

  ghost predicate Lower(marked: set<Field>) {
    marked <= {Second, Minute, HourOfDay, DayOfMonth}
  }

  ghost function Zeroed(at: Stamp, marked: set<Field>): Stamp {
    Stamp(
      if DayOfMonth in marked then MonthStart(MonthOf(at.day)) else at.day,
      if HourOfDay in marked then 0 else at.hour,
      if Minute in marked then 0 else at.min,
      if Second in marked then 0 else at.sec)
  }

  lemma EpochMonth(day: int)
    ensures day >= 0 <==> MonthOf(day) >= EPOCH_MONTH
    ensures day >= 0 ==> MonthStart(MonthOf(day)) >= 0
  {
    hide MonthLength;
    var m := MonthOf(day);
    if m < EPOCH_MONTH {
      if m + 1 < EPOCH_MONTH {
        MonthStartsIncrease(m + 1, EPOCH_MONTH);
      }
    }
  }

  lemma ResetOneIs(at: Stamp, field: Field)
    requires at.Valid() && field in {Second, Minute, HourOfDay, DayOfMonth}
    ensures Reset(at, field) == Zeroed(at, {field})
  {
    hide MonthStart, MonthOf;
    match field {
      case Second => InRange(at.(sec := 0));
      case Minute => InRange(at.(min := 0));
      case HourOfDay => InRange(at.(hour := 0));
      case _ =>
    }
  }

  lemma InRange(at: Stamp)
    requires at.Valid()
    ensures Normal(at.day, at.hour, at.min, at.sec) == at
  {
  }

  lemma ResetOne(at: Stamp, field: Field, marked: set<Field>)
    requires at.Valid() && Lower(marked)
    ensures var r := ResetIf(at, field, marked);
      && (r.Some? ==> r.value == Zeroed(at, marked * {field}))
      && (at.day >= 0 ==> r.Some? && r.value.day >= 0)
  {
    hide MonthStart, MonthOf, Reset;
    EpochMonth(at.day);
    if field in marked {
      ResetOneIs(at, field);
      assert marked * {field} == {field};
    }
  }

  /** Resetting marked fields sets each of them to its least value, and does
      not throw from 1970 on. */
  lemma ResetsZero(at: Stamp, marked: set<Field>)
    requires at.Valid() && Lower(marked)
    ensures ResetAll(at, marked).Some? ==> ResetAll(at, marked).value == Zeroed(at, marked)
    ensures at.day >= 0 ==> ResetAll(at, marked).Some? && ResetAll(at, marked).value.day >= 0
  {
    hide ResetIf, MonthStart;
    ResetOne(at, Second, marked);
    var a := ResetIf(at, Second, marked);
    if a.Some? {
      ResetOne(a.value, Minute, marked);
      var b := ResetIf(a.value, Minute, marked);
      if b.Some? {
        ResetOne(b.value, HourOfDay, marked);
        var c := ResetIf(b.value, HourOfDay, marked);
        if c.Some? {
          ResetOne(c.value, DayOfWeek, marked);
          var d := ResetIf(c.value, DayOfWeek, marked);
          if d.Some? {
            ResetOne(d.value, DayOfMonth, marked);
            var e := ResetIf(d.value, DayOfMonth, marked);
            if e.Some? {
              ResetOne(e.value, Month, marked);
              var f := ResetIf(e.value, Month, marked);
              if f.Some? {
                ResetOne(f.value, Year, marked);
              }
            }
          }
        }
      }
    }
  }

  // ----- Seconds, minutes and hours -----

  lemma PutClock(at: Stamp, v: nat)
    requires at.Valid()
    ensures v < 60 ==> Put(at, Second, v) == at.(sec := v)
    ensures v < 60 ==> Put(at, Minute, v) == at.(min := v)
    ensures v < 24 ==> Put(at, HourOfDay, v) == at.(hour := v)
  {
    hide Normal;
    if v < 60 {
      InRange(at.(sec := v));
      InRange(at.(min := v));
    }
    if v < 24 {
      InRange(at.(hour := v));
    }
  }

  lemma TimeParts(at: Stamp)
    requires at.Valid()
    ensures at.sec == Time(at) % 60 && Minutes(at) == Time(at) / 60
    ensures at.min == Minutes(at) % 60 && at.day * 24 + at.hour == Minutes(at) / 60
  {
  }

  lemma SameTimeSameStamp(a: Stamp, b: Stamp)
    requires a.Valid() && b.Valid() && Time(a) == Time(b)
    ensures a == b
  {
    hide Time, Minutes;
    TimeParts(a);
    TimeParts(b);
  }

  lemma NormalCarry(day: int, hour: int, min: int, sec: int)
    requires 0 <= sec < 60 && 0 <= min <= 60 && 0 <= hour <= 23
    ensures min < 60 ==> Normal(day, hour, min, sec) == Stamp(day, hour, min, sec)
    ensures min == 60 && hour < 23 ==> Normal(day, hour, min, sec) == Stamp(day, hour + 1, 0, sec)
    ensures min == 60 && hour == 23 ==> Normal(day, hour, min, sec) == Stamp(day + 1, 0, 0, sec)
  {
  }

  lemma NormalHour(day: int, min: int, sec: int)
    requires 0 <= sec < 60 && 0 <= min < 60
    ensures Normal(day, 24, min, sec) == Stamp(day + 1, 0, min, sec)
  {
  }

  lemma CarrySecond(at: Stamp)
    requires at.Valid()
    ensures var r := Carry(at, Second, Minute);
      && (at.day >= 0 ==> r.Some? && r.value.day >= 0)
      && (r.Some? ==> Minutes(r.value) == Minutes(at) + 1 && r.value.sec == 0)
  {
    hide Normal, MonthStart, MonthOf;
    NormalCarry(at.day, at.hour, at.min + 1, at.sec);
    InRange(Add(at, Minute, 1).(sec := 0));
  }

  lemma CarryMinute(at: Stamp)
    requires at.Valid()
    ensures var r := Carry(at, Minute, HourOfDay);
      && (at.day >= 0 ==> r.Some? && r.value.day >= 0)
      && (r.Some? ==> Minutes(r.value) == Minutes(at) - at.min + 60 && r.value.min == 0 && r.value.sec == at.sec)
  {
    hide Normal, MonthStart, MonthOf;
    if at.hour < 23 {
      InRange(at.(hour := at.hour + 1));
    } else {
      NormalHour(at.day, at.min, at.sec);
    }
    InRange(Add(at, HourOfDay, 1).(min := 0));
  }

  lemma CarryHour(at: Stamp)
    requires at.Valid()
    ensures var r := Carry(at, HourOfDay, DayOfWeek);
      && (at.day >= 0 ==> r.Some? && r.value.day >= 0)
      && (r.Some? ==> r.value == Stamp(at.day + 1, 0, at.min, at.sec))
  {
    hide Normal, MonthStart, MonthOf;
    InRange(Stamp(at.day + 1, 0, at.min, at.sec));
  }

  /** The minute the second step leaves the search in. */
  ghost function AfterSecond(cex: CronExpr, at: Stamp): int
    requires cex.Valid() && at.Valid()
  {
    Minutes(at) + if NextSetBit(cex.seconds, at.sec).Some? then 0 else 1
  }

  /** The second step takes the next allowed second, in the next minute if
      this one has none left. */
  lemma SecondStep(cex: CronExpr, at: Stamp)
    requires cex.Valid() && at.Valid()
    ensures var r := FieldStep(cex.seconds, at, Second, Minute, {});
      && (at.day >= 0 ==> r.Some? && r.value.at.day >= 0)
      && (r.Some? ==>
        && r.value.at.sec == Target(cex.seconds, at.sec)
        && Minutes(r.value.at) == AfterSecond(cex, at)
        && r.value.moved == !cex.seconds[at.sec]
        && (!r.value.moved ==> r.value.at == at))
  {
    hide ResetAll, Put, Carry;
    var low := if NextSetBit(cex.seconds, at.sec).Some? then Some(at) else Carry(at, Second, Minute);
    var target := Target(cex.seconds, at.sec);
    CarrySecond(at);
    if low.Some? && target != at.sec {
      PutClock(low.value, target);
      ResetsZero(Put(low.value, Second, target), {});
    }
  }

  /** Where minute `mu` moves to: the next allowed minute. */
  function MinuteLands(cex: CronExpr, mu: int): int
    requires cex.Valid()
  {
    var m := mu % 60;
    var t := Target(cex.minutes, m);
    mu - m + if t < m then 60 + t else t
  }

  /** The start of the next allowed hour. */
  function HourLands(cex: CronExpr, mu: int): int
    requires cex.Valid()
  {
    var h := mu / 60 % 24;
    var t := Target(cex.hours, h);
    (mu / 1440 * 24 + if t < h then 24 + t else t) * 60
  }

  lemma MinuteStep(cex: CronExpr, at: Stamp, marked: set<Field>)
    requires cex.Valid() && at.Valid() && marked <= {Second}
    ensures var r := FieldStep(cex.minutes, at, Minute, HourOfDay, marked);
      && (at.day >= 0 ==> r.Some? && r.value.at.day >= 0)
      && (r.Some? && !r.value.moved ==> r.value.at == at && cex.minutes[at.min])
      && (r.Some? && r.value.moved ==>
        && Minutes(at) < Minutes(r.value.at) && !cex.minutes[at.min]
        && Minutes(r.value.at) == MinuteLands(cex, Minutes(at))
        && cex.minutes[r.value.at.min]
        && r.value.at.sec == (if Second in marked then 0 else at.sec)
        && NoneBetween(cex, Minutes(at), Minutes(r.value.at)))
  {
    hide ResetAll, Put, Carry;
    var low := if NextSetBit(cex.minutes, at.min).Some? then Some(at) else Carry(at, Minute, HourOfDay);
    var target := Target(cex.minutes, at.min);
    CarryMinute(at);
    MinuteParts(at);
    if low.Some? && target != at.min {
      PutClock(low.value, target);
      ResetsZero(Put(low.value, Minute, target), marked);
      MinuteGap(cex, at);
    }
  }

  lemma MinuteGap(cex: CronExpr, at: Stamp)
    requires cex.Valid() && at.Valid()
    ensures var t := Target(cex.minutes, at.min);
      NoneBetween(cex, Minutes(at), Minutes(at) - at.min + if t < at.min then 60 + t else t)
  {
    hide DayMatches;
    var t := Target(cex.minutes, at.min);
    forall mu | Minutes(at) <= mu < Minutes(at) - at.min + (if t < at.min then 60 + t else t)
      ensures !MinuteMatches(cex, mu)
    {
      var k := mu - Minutes(at) + at.min;
      assert mu == 60 * (at.day * 24 + at.hour) + k;
      assert mu % 60 == if k < 60 then k else k - 60;
    }
  }

  lemma HourStep(cex: CronExpr, at: Stamp, marked: set<Field>)
    requires cex.Valid() && at.Valid() && marked <= {Second, Minute}
    ensures var r := FieldStep(cex.hours, at, HourOfDay, DayOfWeek, marked);
      && (at.day >= 0 ==> r.Some? && r.value.at.day >= 0)
      && (r.Some? && !r.value.moved ==> r.value.at == at && cex.hours[at.hour])
      && (r.Some? && r.value.moved ==> !cex.hours[at.hour])
      && (r.Some? && r.value.moved ==>
        && Minutes(at) < Minutes(r.value.at)
        && cex.hours[r.value.at.hour]
        && r.value.at.sec == (if Second in marked then 0 else at.sec)
        && (Minute in marked || at.min == 0
            ==> r.value.at.min == 0 && Minutes(r.value.at) == HourLands(cex, Minutes(at)))
        && (Minute in marked || at.min == 0 ==> NoneBetween(cex, Minutes(at), Minutes(r.value.at))))
  {
    hide ResetAll, Put, Carry;
    var low := if NextSetBit(cex.hours, at.hour).Some? then Some(at) else Carry(at, HourOfDay, DayOfWeek);
    var target := Target(cex.hours, at.hour);
    CarryHour(at);
    MinuteParts(at);
    if low.Some? && target != at.hour {
      PutClock(low.value, target);
      ResetsZero(Put(low.value, HourOfDay, target), marked);
      HourGap(cex, at);
    }
  }

  lemma HourGap(cex: CronExpr, at: Stamp)
    requires cex.Valid() && at.Valid()
    ensures var t := Target(cex.hours, at.hour);
      NoneBetween(cex, Minutes(at), (at.day * 24 + if t < at.hour then 24 + t else t) * 60)
  {
    hide DayMatches;
    var t := Target(cex.hours, at.hour);
    forall mu | Minutes(at) <= mu < (at.day * 24 + if t < at.hour then 24 + t else t) * 60
      ensures !MinuteMatches(cex, mu)
    {
      var k := mu / 60 - at.day * 24;
      assert at.hour <= k < if t < at.hour then 24 + t else t;
      assert mu / 60 % 24 == if k < 24 then k else k - 24;
    }
  }

  // ----- Days -----

  /** No day from `a` up to but not including `b` matches. */
  ghost predicate NoDayBetween(cex: CronExpr, a: int, b: int)
    requires cex.Valid()
  {
    forall d | a <= d < b :: !DayMatches(cex, d)
  }

  /** The day a walk ends on: the first matching one, or the last it looks
      at. */
  function WalkFrom(cex: CronExpr, day: int, count: nat): (d: int)
    requires cex.Valid() && count <= MAX_DAY_STEPS
    ensures day <= d <= day + MAX_DAY_STEPS - count
    decreases MAX_DAY_STEPS - count
  {
    if DayMatches(cex, day) || count == MAX_DAY_STEPS then day else WalkFrom(cex, day + 1, count + 1)
  }

  function WalkEnd(cex: CronExpr, day: int): (d: int)
    requires cex.Valid()
    ensures day <= d <= day + MAX_DAY_STEPS
  {
    WalkFrom(cex, day, 0)
  }

  /** The walk stops at the first matching day, or gives up. */
  lemma {:induction false} DayWalkStops(cex: CronExpr, at: Stamp, marked: set<Field>, count: nat)
    requires cex.Valid() && at.Valid() && marked <= {Second, Minute, HourOfDay} && count <= MAX_DAY_STEPS
    ensures var r := DayWalk(cex, at, marked, count);
      && (at.day >= 0 ==> r.Some? && r.value.day >= 0)
      && (r.Some? ==>
        && at.day <= r.value.day <= at.day + MAX_DAY_STEPS - count
        && NoDayBetween(cex, at.day, r.value.day)
        && (DayMatches(cex, r.value.day) || r.value.day == at.day + MAX_DAY_STEPS - count)
        && r.value == (if r.value.day == at.day then at else Zeroed(at, marked).(day := r.value.day)))
    decreases MAX_DAY_STEPS - count
  {
    hide ResetAll, DayMatches, MonthStart;
    if !DayMatches(cex, at.day) && count < MAX_DAY_STEPS {
      var up := Checked(Add(at, DayOfMonth, 1));
      assert up.Some? ==> up.value == at.(day := at.day + 1);
      if up.Some? {
        ResetsZero(up.value, marked);
        var next := ResetAll(up.value, marked);
        if next.Some? {
          DayWalkStops(cex, next.value, marked, count + 1);
        }
      }
    }
  }

  /** So a walk looks at the day it is on and the 366 after it, and ends on
      the first that matches or on the last of them. */
  lemma WalkLooksAhead(cex: CronExpr, at: Stamp, marked: set<Field>)
    requires cex.Valid() && at.Valid() && marked <= {Second, Minute, HourOfDay} && at.day >= 0
    ensures var r := DayWalk(cex, at, marked, 0);
      && r.Some? && at.day <= r.value.day <= at.day + 366 && NoDayBetween(cex, at.day, r.value.day)
      && (DayMatches(cex, r.value.day) <==> exists d | at.day <= d <= at.day + 366 :: DayMatches(cex, d))
      && (!DayMatches(cex, r.value.day) ==> r.value.day == at.day + 366)
  {
    hide DayWalk, DayMatches;
    DayWalkStops(cex, at, marked, 0);
  }

  lemma {:induction false} DayWalkEnds(cex: CronExpr, at: Stamp, marked: set<Field>, count: nat)
    requires cex.Valid() && at.Valid() && marked <= {Second, Minute, HourOfDay} && count <= MAX_DAY_STEPS
    ensures var r := DayWalk(cex, at, marked, count); r.Some? ==> r.value.day == WalkFrom(cex, at.day, count)
    decreases MAX_DAY_STEPS - count
  {
    hide ResetAll, DayMatches, MonthStart, MonthOf;
    if !DayMatches(cex, at.day) && count < MAX_DAY_STEPS {
      var up := Checked(Add(at, DayOfMonth, 1));
      assert up.Some? ==> up.value == at.(day := at.day + 1);
      if up.Some? {
        ResetsZero(up.value, marked);
        var next := ResetAll(up.value, marked);
        if next.Some? {
          DayWalkEnds(cex, next.value, marked, count + 1);
        }
      }
    }
  }

  /** Days without a match hold no matching minute. */
  lemma DayGap(cex: CronExpr, a: Stamp, b: Stamp)
    requires cex.Valid() && a.Valid() && b.Valid()
    requires NoDayBetween(cex, a.day, b.day) && b.hour == 0 && b.min == 0
    ensures NoneBetween(cex, Minutes(a), Minutes(b))
  {
    hide DayMatches;
    forall mu | Minutes(a) <= mu < Minutes(b)
      ensures !MinuteMatches(cex, mu)
    {
      assert a.day <= mu / 1440 < b.day;
    }
  }

  /** The most days the walk can need when one day field is unrestricted. */
  const MAX_GAP := 93

  /** With one day field unrestricted a matching day is near. */
  lemma MatchingDayNear(cex: CronExpr, day: int) returns (d: int)
    requires cex.Valid() && OneDayField(cex)
    ensures day <= d < day + MAX_GAP && DayMatches(cex, d)
    ensures Full(cex.daysOfMonth) ==> d < day + 7
  {
    hide MonthStart, MonthOf;
    if Full(cex.daysOfMonth) {
      var w :| 0 <= w < 7 && cex.daysOfWeek[w];
      d := day + (w - WeekDay(day)) % 7;
      WeekDayShift(day, w);
    } else {
      var i :| 0 <= i < 31 && cex.daysOfMonth[i];
      var m := MonthOf(day);
      var n := LongMonthNear(m + 1);
      MonthStep(m);
      MonthStep(m + 1);
      MonthStep(m + 2);
      d := MonthStart(n) + i;
      DateRoundTrip(n, i + 1);
    }
  }

  lemma WeekDayShift(day: int, w: int)
    requires 0 <= w < 7
    ensures WeekDay(day + (w - WeekDay(day)) % 7) == w
  {
  }

  /** Whatever the day fields, a matching day comes. */
  lemma MatchingDayLater(cex: CronExpr, day: int) returns (d: int)
    requires cex.Valid()
    ensures day <= d && DayMatches(cex, d)
  {
    hide MonthStart, MonthOf, WeekDay;
    var i :| 0 <= i < 31 && cex.daysOfMonth[i];
    var w :| 0 <= w < 7 && cex.daysOfWeek[w];
    var m := MonthOf(day);
    var n := PairOccurs(m / 12 + 1, i + 1, w);
    if m + 1 < n {
      MonthStartsIncrease(m + 1, n);
    }
    d := MonthStart(n) + i;
    DateRoundTrip(n, i + 1);
  }

  /** With one day field unrestricted, the walk finds a matching day, and it
      moved exactly if the day number changed. */
  lemma DayWalkFinds(cex: CronExpr, at: Stamp, marked: set<Field>)
    requires cex.Valid() && at.Valid() && marked <= {Second, Minute, HourOfDay} && OneDayField(cex)
    ensures var r := DayWalk(cex, at, marked, 0);
      r.Some? ==> DayMatches(cex, r.value.day) && (MonthDay(r.value.day) == MonthDay(at.day) <==> r.value.day == at.day)
  {
    hide DayWalk, MonthStart, MonthOf;
    DayWalkStops(cex, at, marked, 0);
    var r := DayWalk(cex, at, marked, 0);
    if r.Some? {
      var d := MatchingDayNear(cex, at.day);
      assert r.value.day <= d;
      if r.value.day != at.day {
        if Full(cex.daysOfMonth) {
          NearDaysDiffer(at.day, r.value.day - at.day);
        } else {
          assert Full(cex.daysOfWeek);
          assert !DayMatches(cex, at.day);
        }
      }
    }
  }

  // ----- Months -----

  /** The first month after `m` that the month field allows. */
  ghost function NextMonth(cex: CronExpr, m: int): int
    requires cex.Valid()
  {
    var t := Target(cex.months, m % 12);
    12 * (m / 12) + if t <= m % 12 then 12 + t else t
  }

  lemma NextMonthIsNext(cex: CronExpr, m: int)
    requires cex.Valid() && !cex.months[m % 12]
    ensures m < NextMonth(cex, m) && cex.months[NextMonth(cex, m) % 12]
    ensures forall k | m <= k < NextMonth(cex, m) :: !cex.months[k % 12]
  {
    hide NextSetBit;
    var n := NextMonth(cex, m);
    var t := Target(cex.months, m % 12);
    MonthIndex(m / 12, n - 12 * (m / 12));
    forall k | m <= k < n
      ensures !cex.months[k % 12]
    {
      MonthIndex(m / 12, k - 12 * (m / 12));
    }
  }

  lemma MonthIndex(q: int, j: int)
    requires 0 <= j < 24
    ensures (12 * q + j) % 12 == if j < 12 then j else j - 12
  {
  }

  /** A day number kept while the month changes to `k` overflows into the
      month after `k` if `k` is too short. */
  lemma DayOverflow(k: int, d: int)
    requires 1 <= d <= 31
    ensures MonthOf(MonthStart(k) + d - 1) == if d <= MonthLength(k) then k else k + 1
    ensures d > MonthLength(k) ==> MonthDay(MonthStart(k) + d - 1) == d - MonthLength(k)
  {
    hide MonthStart, MonthLength;
    MonthStep(k);
    MonthStep(k + 1);
    MonthIsUnique(MonthStart(k) + d - 1, if d <= MonthLength(k) then k else k + 1);
  }

  lemma LengthAYearLater(m: int)
    ensures MonthLength(m + 12) < MonthLength(m) ==> m % 12 == 1 && MonthLength(m) == 29 && MonthLength(m + 12) == 28
  {
  }

  /** Carrying into the year goes to January of the next year. A 29 February
      becomes the first on the way. */
  lemma CarryMonth(at: Stamp)
    requires at.Valid()
    ensures var r := Carry(at, Month, Year);
      && (at.day >= 0 ==> r.Some? && r.value.day >= 0)
      && (r.Some? ==>
        && r.value == at.(day := r.value.day)
        && MonthOf(r.value.day) == 12 * (MonthOf(at.day) / 12) + 12
        && (MonthDay(r.value.day) == MonthDay(at.day)
            || (MonthDay(r.value.day) == 1 && MonthDay(at.day) == 29 && MonthOf(at.day) % 12 == 1)))
  {
    hide MonthStart, MonthLength, MonthOf, MonthDay, Put, Add;
    YearUp(at);
    var up := Add(at, Year, 1);
    JanuaryOf(up);
    EpochMonth(at.day);
    EpochMonth(up.day);
    EpochMonth(Reset(up, Month).day);
  }

  /** A year later, in the same month or, from a 29 February, on 1 March. */
  lemma YearUp(at: Stamp)
    requires at.Valid()
    ensures var up := Add(at, Year, 1);
      && up == at.(day := up.day) && 12 * (MonthOf(up.day) / 12) == 12 * (MonthOf(at.day) / 12) + 12
      && (MonthDay(up.day) == MonthDay(at.day)
          || (MonthDay(up.day) == 1 && MonthDay(at.day) == 29 && MonthOf(at.day) % 12 == 1))
  {
    hide MonthStart, MonthLength;
    var m, d := MonthOf(at.day), MonthDay(at.day);
    assert Add(at, Year, 1) == at.(day := MonthStart(m + 12) + d - 1) by {
      assert 12 * (m / 12 - 1900 + 1 + 1900) + m % 12 == m + 12;
    }
    hide *;
    DayOverflow(m + 12, d);
    LengthAYearLater(m);
    YearOfNext(m);
    if d <= MonthLength(m + 12) {
      DateRoundTrip(m + 12, d);
    }
  }

  lemma YearOfNext(m: int)
    ensures 12 * ((m + 12) / 12) == 12 * (m / 12) + 12
    ensures m % 12 == 1 ==> 12 * ((m + 13) / 12) == 12 * (m / 12) + 12
  {
  }

  lemma JanuaryOf(up: Stamp)
    requires up.Valid()
    ensures var low := Reset(up, Month);
      low == up.(day := low.day) && MonthOf(low.day) == 12 * (MonthOf(up.day) / 12)
        && MonthDay(low.day) == MonthDay(up.day)
  {
    hide MonthStart, MonthLength;
    var january := 12 * (MonthOf(up.day) / 12);
    assert MonthLength(january) == 31 by { JanuaryLength(MonthOf(up.day) / 12); }
    DateRoundTrip(january, MonthDay(up.day));
  }

  lemma JanuaryLength(y: int)
    ensures MonthLength(12 * y) == 31
  {
  }

  /** Where a month step from a day lands: at the start of the next allowed
      month, or, if the day number does not fit there, at the start of the
      month after. */
  ghost function MonthLands(cex: CronExpr, day: int): int
    requires cex.Valid()
  {
    var n := NextMonth(cex, MonthOf(day));
    MonthStart(if MonthDay(day) <= MonthLength(n) then n else n + 1)
  }

  lemma OnlyFebruaryIsShort(n: int)
    requires n % 12 != 1
    ensures MonthLength(n) >= 30
  {
  }

  lemma MonthStepGoes(cex: CronExpr, at: Stamp, marked: set<Field>)
    requires cex.Valid() && at.Valid() && Lower(marked) && DayOfMonth in marked
    requires (Minute in marked || at.min == 0) && (HourOfDay in marked || at.hour == 0)
    ensures var r := FieldStep(cex.months, at, Month, Year, marked);
      && (at.day >= 0 ==> r.Some? && r.value.at.day >= 0)
      && (r.Some? && !r.value.moved ==> r.value.at == at && MonthMatches(cex, at.day))
      && (r.Some? && r.value.moved ==>
        && !MonthMatches(cex, at.day)
        && r.value.at.hour == r.value.at.min == 0
        && r.value.at.sec == (if Second in marked then 0 else at.sec)
        && r.value.at.day == MonthLands(cex, at.day))
  {
    hide MonthStart, ResetAll, Carry, MonthOf, MonthLands, NextSetBit, Put;
    var m := MonthOf(at.day);
    var low := if NextSetBit(cex.months, m % 12).Some? then Some(at) else Carry(at, Month, Year);
    var t := Target(cex.months, m % 12);
    CarryMonth(at);
    if low.Some? && t != m % 12 {
      MonthPlaced(cex, at, low.value);
      ResetsZero(Put(low.value, Month, t), marked);
    }
  }

  /** The month field is assigned in this year, or, after a carry, in the next. */
  lemma MonthPlaced(cex: CronExpr, at: Stamp, low: Stamp)
    requires cex.Valid() && at.Valid() && low == at.(day := low.day) && !MonthMatches(cex, at.day)
    requires var m := MonthOf(at.day);
      if NextSetBit(cex.months, m % 12).Some? then low == at
      else
        && MonthOf(low.day) == 12 * (m / 12) + 12 && (at.day >= 0 ==> low.day >= 0)
        && (MonthDay(low.day) == MonthDay(at.day) || (MonthDay(low.day) == 1 && MonthDay(at.day) == 29 && m % 12 == 1))
    ensures var placed := Put(low, Month, Target(cex.months, MonthOf(at.day) % 12));
      && placed == at.(day := placed.day) && MonthStart(MonthOf(placed.day)) == MonthLands(cex, at.day)
      && (at.day >= 0 ==> placed.day >= 0)
  {
    hide MonthStart, MonthLength, MonthOf, MonthDay, NextSetBit, Put, NextMonth, MonthLands, Target;
    var m, t, n := MonthOf(at.day), Target(cex.months, MonthOf(at.day) % 12), NextMonth(cex, MonthOf(at.day));
    var placed := Put(low, Month, t);
    AllowedMonthNumber(cex, at.day);
    PutMonth(low, t);
    NextMonthNumber(cex, m);
    assert 12 * (MonthOf(low.day) / 12) + t == n;
    DayOverflow(n, MonthDay(low.day));
    if m % 12 == 1 {
      NextMonthIsNext(cex, m);
      OnlyFebruaryIsShort(n);
    }
    LandsAt(cex, at.day);
    EpochMonth(low.day);
    EpochMonth(placed.day);
    EpochMonth(at.day);
  }

  lemma AllowedMonthNumber(cex: CronExpr, day: int)
    requires cex.Valid()
    ensures MonthMatches(cex, day) == cex.months[MonthOf(day) % 12] && |cex.months| == 12 && true in cex.months
  {
  }

  lemma PutMonth(low: Stamp, t: int)
    requires low.Valid()
    ensures Put(low, Month, t) == low.(day := MonthStart(12 * (MonthOf(low.day) / 12) + t) + MonthDay(low.day) - 1)
  {
  }

  lemma NextMonthNumber(cex: CronExpr, m: int)
    requires cex.Valid() && !cex.months[m % 12]
    ensures NextMonth(cex, m)
      == 12 * (m / 12) + Target(cex.months, m % 12) + if NextSetBit(cex.months, m % 12).Some? then 0 else 12
  {
    hide NextSetBit;
  }

  lemma LandsAt(cex: CronExpr, day: int)
    requires cex.Valid()
    ensures var n := NextMonth(cex, MonthOf(day));
      MonthLands(cex, day) == MonthStart(if MonthDay(day) <= MonthLength(n) then n else n + 1)
  {
  }
}
