/** When `cron_next` has an answer, and what it is once a day. */
module CronAnswers {
  import opened Wrappers
  import opened Calendar
  import opened CronExpression
  import opened CronSteps
  import opened CronFind
  import opened CronSearch
  import opened CronEarliest

  /** The length of a month that is not a leap February. */
  function CommonLength(m: nat): int {
    if m == 1 then 28 else if m in {3, 5, 8, 10} then 30 else 31
  }

  /** A date is allowed that common years have. */
  predicate MatchesEveryYear(cex: CronExpr)
    requires cex.Valid()
  {
    exists m | 0 <= m < 12 && cex.months[m] :: AllowedDayUpTo(cex, CommonLength(m))
  }

  /** The first instant of a matching day at which the clock fields match. */
  lemma MatchOnDay(cex: CronExpr, day: int) returns (x: Stamp)
    requires cex.Valid() && DayMatches(cex, day) && MonthMatches(cex, day)
    ensures x.Valid() && x.day == day && Matches(cex, x)
  {
    hide DayMatches, MonthMatches;
    var h :| 0 <= h < 24 && cex.hours[h];
    var m :| 0 <= m < 60 && cex.minutes[m];
    var s :| 0 <= s < 60 && cex.seconds[s];
    x := Stamp(day, h, m, s);
  }

  /** An allowed month with an allowed day, in a later year, holds a match. */
  lemma MatchInYear(cex: CronExpr, t: int, y: int, m: nat)
    requires cex.Valid() && OneDayField(cex) && m < 12 && cex.months[m]
    requires AllowedDayUpTo(cex, MonthLength(12 * y + m))
    requires TmYear(StampOf(t).day) + 1900 < y <= TmYear(StampOf(t).day) + 1904
    ensures MatchAhead(cex, t)
  {
    hide MonthLength, AllowedDayUpTo, OneDayField, StampOf, DayMatches, MonthOf, Matches;
    var k := 12 * y + m;
    var day := MatchInMonth(cex, k);
    assert MonthOf(day) == k;
    MonthNumber(y, m);
    var x := MatchOnDay(cex, day);
    if day <= StampOf(t).day {
      MonthsAreMonotone(day, StampOf(t).day);
    }
    SameTimeSameStamp(x, StampOf(Time(x)));
    assert t < Time(x);
  }

  /** With one day field unrestricted, months that fit and a date that can be
      met, `cron_next` has an answer if a leap year is among the next four, or
      if the date does not need one. */
  lemma NeverGivesUp(cex: CronExpr, t: int)
    requires cex.Valid() && OneDayField(cex) && MonthsFit(cex) && CanMatch(cex) && t >= 0
    requires var y := TmYear(StampOf(t).day) + 1900;
      MatchesEveryYear(cex) || IsLeap(y + 1) || IsLeap(y + 2) || IsLeap(y + 3) || IsLeap(y + 4)
    ensures CronNext(cex, t).Some? && CronNext(cex, t).value != INVALID_TIME
  {
    hide MonthsFit, OneDayField, AllowedDayUpTo, StampOf, CronNext, MatchAhead, IsLeap, TmYear;
    var y := TmYear(StampOf(t).day) + 1900;
    if MatchesEveryYear(cex) {
      var m :| 0 <= m < 12 && cex.months[m] && AllowedDayUpTo(cex, CommonLength(m));
      LengthAtLeast(y + 1, m);
      MoreDays(cex, CommonLength(m), MonthLength(12 * (y + 1) + m));
      MatchInYear(cex, t, y + 1, m);
    } else {
      var m, n :| 0 <= m < 12 && 28 <= n <= 31 && HasLength(m, n) && cex.months[m] && AllowedDayUpTo(cex, n);
      var leap :=
        if IsLeap(y + 1) then y + 1 else if IsLeap(y + 2) then y + 2 else if IsLeap(y + 3) then y + 3 else y + 4;
      LengthInLeap(leap, m, n);
      MoreDays(cex, n, MonthLength(12 * leap + m));
      MatchInYear(cex, t, leap, m);
    }
    AnswersIfAhead(cex, t);
  }

  lemma LengthAtLeast(y: int, m: nat)
    requires m < 12
    ensures CommonLength(m) <= MonthLength(12 * y + m)
  {
    MonthNumber(y, m);
  }

  lemma LengthInLeap(y: int, m: nat, n: int)
    requires m < 12 && IsLeap(y) && HasLength(m, n)
    ensures n <= MonthLength(12 * y + m)
  {
    hide IsLeap;
    MonthNumber(y, m);
    assert (12 * y + m) / 12 == y;
  }

  lemma MoreDays(cex: CronExpr, a: int, b: int)
    requires cex.Valid() && a <= b && AllowedDayUpTo(cex, a)
    ensures AllowedDayUpTo(cex, b)
  {
  }

  // ----- Once a day -----

  /** Every day at one minute. */
  ghost predicate Daily(cex: CronExpr, hour: nat, minute: nat)
    requires cex.Valid()
  {
    && FiveFields(cex) && Full(cex.daysOfMonth) && Full(cex.months) && Full(cex.daysOfWeek)
    && (forall i | 0 <= i < 60 :: cex.minutes[i] <==> i == minute)
    && (forall i | 0 <= i < 24 :: cex.hours[i] <==> i == hour)
  }

  lemma TimeInDay(at: Stamp)
    requires at.Valid()
    ensures Time(at) % 86400 == at.hour * 3600 + at.min * 60 + at.sec
  {
    assert Time(at) == at.day * 86400 + (at.hour * 3600 + at.min * 60 + at.sec);
    hide Time;
    RestOfDays(at.day, at.hour * 3600 + at.min * 60 + at.sec);
  }

  lemma RestOfDays(d: int, r: int)
    requires 0 <= r < 86400
    ensures (d * 86400 + r) % 86400 == r
  {
  }

  lemma OneTimeOfDay(at: Stamp, hour: nat, minute: nat)
    requires at.Valid() && hour < 24 && minute < 60
    ensures at.hour * 3600 + at.min * 60 + at.sec == hour * 3600 + minute * 60
       <==> at.hour == hour && at.min == minute && at.sec == 0
  {
  }

  lemma DailyMatch(cex: CronExpr, hour: nat, minute: nat, x: int)
    requires cex.Valid() && Daily(cex, hour, minute) && hour < 24 && minute < 60
    ensures Matches(cex, StampOf(x)) <==> x % 86400 == hour * 3600 + minute * 60
  {
    hide MonthOf, MonthDay, WeekDay, StampOf, Time;
    var at := StampOf(x);
    TimeInDay(at);
    OneTimeOfDay(at, hour, minute);
  }

  lemma DailyIsFive(cex: CronExpr, hour: nat, minute: nat)
    requires cex.Valid() && Daily(cex, hour, minute)
    ensures FiveFields(cex) && OneDayField(cex) && Full(cex.months)
  {
  }

  /** Then the answer is the next instant at that time of day. */
  lemma DailyNext(cex: CronExpr, hour: nat, minute: nat, t: int)
    requires cex.Valid() && Daily(cex, hour, minute) && hour < 24 && minute < 60 && t >= 0
    ensures CronNext(cex, t).Some?
    ensures var u := CronNext(cex, t).value; t < u <= t + 86400 && u % 86400 == hour * 3600 + minute * 60
  {
    hide CronNext, Find, Matches, StampOf, FiveFields, Full;
    DailyIsFive(cex, hour, minute);
    FiveFieldCronNext(cex, t);
    var u := CronNext(cex, t).value;
    DailyMatch(cex, hour, minute, u);
    DayBefore(u);
    if u > t + 86400 {
      DailyMatch(cex, hour, minute, u - 86400);
    }
  }

  lemma DayBefore(u: int)
    ensures (u - 86400) % 86400 == u % 86400
  {
  }
}
