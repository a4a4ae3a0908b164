/** Why each side condition of the cron theorems is there: inputs the search
    gets wrong. */
module CronLimits {
  import opened Wrappers
  import opened Calendar
  import opened CronExpression
  import opened CronSteps
  import opened CronPass
  import opened CronFind
  import opened CronSearch
  import opened CronMatches
  import opened CronMonths

  function All(n: nat): (bits: seq<bool>)
    ensures |bits| == n && forall i | 0 <= i < n :: bits[i]
  {
    seq(n, i => true)
  }

  function Only(n: nat, v: nat): (bits: seq<bool>)
    requires v < n
    ensures |bits| == n && bits[v] && true in bits && forall i | 0 <= i < n :: bits[i] <==> i == v
  {
    assert seq(n, i => i == v)[v];
    seq(n, i => i == v)
  }

  lemma EarlyDays(day: int)
    ensures 0 <= day < 31 ==> MonthOf(day) == EPOCH_MONTH && MonthDay(day) == day + 1
    ensures 31 <= day < 59 ==> MonthOf(day) == EPOCH_MONTH + 1 && MonthDay(day) == day - 30
    ensures MonthStart(EPOCH_MONTH + 2) == 59
  {
    MonthStep(EPOCH_MONTH);
    MonthStep(EPOCH_MONTH + 1);
    if 0 <= day < 31 {
      MonthIsUnique(day, EPOCH_MONTH);
    } else if 31 <= day < 59 {
      MonthIsUnique(day, EPOCH_MONTH + 1);
    }
  }

  /** Noon of a 15th that is a Sunday. */
  function SundayFifteenth(): (cex: CronExpr)
    ensures cex.Valid()
  {
    assert forall n: nat | n > 0 :: All(n)[0];
    CronExpr(Only(60, 0), Only(60, 0), Only(24, 12), Only(7, 0), Only(31, 14), All(12))
  }

  /** From noon of Thursday 15 January 1970 the search walks to Sunday 15
      February, resets the clock, takes the day for unmoved, and is done at
      midnight, which does not match. */
  lemma UnnoticedDay()
    ensures 70 <= TmYear(14) && Find(SundayFifteenth(), Stamp(14, 12, 0, 0), 70) == Found(Stamp(45, 0, 0, 0))
    ensures !Matches(SundayFifteenth(), Stamp(45, 0, 0, 0))
    ensures UnnoticedOn(SundayFifteenth(), 14)
  {
    hide Find, Pass, Matches, MonthOf, WalkEnd, DayMatches, MonthMatches;
    WalkToFebruary();
    EarlyDays(14);
    EarlyDays(45);
    PassAgrees(SundayFifteenth(), Stamp(14, 12, 0, 0), 70);
    DoneIsMatch(SundayFifteenth(), Stamp(14, 12, 0, 0), 70);
    assert SundayFifteenth().seconds[0] && Minutes(Stamp(14, 12, 0, 0)) / 1440 == 14;
  }

  lemma WalkToFebruary()
    ensures Pass(SundayFifteenth(), Stamp(14, 12, 0, 0), 70) == Done(Stamp(45, 0, 0, 0))
    ensures !Matches(SundayFifteenth(), Stamp(45, 0, 0, 0))
  {
    hide MonthStart, MonthLength, MonthOf, DayWalk;
    var cex, at := SundayFifteenth(), Stamp(14, 12, 0, 0);
    EarlyDays(14);
    EarlyDays(45);
    Stays(cex.seconds, at, Second, Minute, {});
    Stays(cex.minutes, at, Minute, HourOfDay, {Second});
    Stays(cex.hours, at, HourOfDay, DayOfWeek, {Second} + {Minute});
    var marked := {Second} + {Minute} + {HourOfDay};
    DayWalkStops(cex, at, marked, 0);
    var d := DayWalk(cex, at, marked, 0).value;
    if d.day < 45 {
      EarlyDays(d.day);
      assert false;
    }
    assert DayMatches(cex, 45);
    Stays(cex.months, d, Month, Year, marked + {DayOfMonth});
  }

  /** A minute before, the minute moves first; the call for noon comes back
      with that midnight, and the search goes on from there with the hour: it
      ends at noon of 15 February, which matches. */
  lemma GoesOnAfterCall()
    ensures 70 <= TmYear(14) && Find(SundayFifteenth(), Stamp(14, 11, 59, 0), 70) == Found(Stamp(45, 12, 0, 0))
    ensures Matches(SundayFifteenth(), Stamp(45, 12, 0, 0))
  {
    hide Find, FindMinute, FindHour, FieldStep, MonthOf, TmYear;
    hide AtMinute, AtHour, Matches, Forward, NotAbove, AfterSecond;
    var cex, at := SundayFifteenth(), Stamp(14, 11, 59, 0);
    UnnoticedDay();
    FirstUnrolls(cex, at, 70);
    Stays(cex.seconds, at, Second, Minute, {});
    ToNoon(at);
    MinuteUnrolls(cex, at, {Second}, 70);
    HourAfterMidnight();
  }

  lemma ToNoon(at: Stamp)
    requires at == Stamp(14, 11, 59, 0)
    ensures FieldStep(SundayFifteenth().minutes, at, Minute, HourOfDay, {Second})
      == Some(Step(Stamp(14, 12, 0, 0), true))
  {
    hide FieldStep, MonthOf, MinuteLands;
    var cex := SundayFifteenth();
    MinuteStep(cex, at, {Second});
    NoonIsNext();
    SameTimeSameStamp(FieldStep(cex.minutes, at, Minute, HourOfDay, {Second}).value.at, Stamp(14, 12, 0, 0));
  }

  lemma NoonIsNext()
    ensures MinuteLands(SundayFifteenth(), Minutes(Stamp(14, 11, 59, 0))) == Minutes(Stamp(14, 12, 0, 0))
    ensures HourLands(SundayFifteenth(), Minutes(Stamp(45, 0, 0, 0))) == Minutes(Stamp(45, 12, 0, 0))
  {
    hide NextSetBit;
    assert Target(SundayFifteenth().minutes, 59) == 0;
    assert Target(SundayFifteenth().hours, 0) == 12;
  }

  /** From midnight of 15 February the hour moves to noon, which matches. */
  lemma HourAfterMidnight()
    ensures var cex, at, noon := SundayFifteenth(), Stamp(45, 0, 0, 0), Stamp(45, 12, 0, 0);
      && Matches(cex, noon)
      && (70 <= TmYear(45) && AtHour(cex, at, {Second}) ==> FindHour(cex, at, {Second}, 70) == Found(noon))
  {
    hide Find, FindHour, FindDay, FieldStep, MonthOf, TmYear, AtHour, AtDay, Forward;
    var cex, at, noon := SundayFifteenth(), Stamp(45, 0, 0, 0), Stamp(45, 12, 0, 0);
    NoonMatches();
    if 70 <= TmYear(45) && AtHour(cex, at, {Second}) {
      ToNextNoon(at);
      HourUnrolls(cex, at, {Second}, 70);
      MatchIsDone(cex, noon, 70);
      PassAgrees(cex, noon, 70);
      Returned(cex, at, noon, {Second}, 70);
    }
  }

  lemma NoonMatches()
    ensures Matches(SundayFifteenth(), Stamp(45, 12, 0, 0))
  {
    hide MonthOf, MonthStart;
    EarlyDays(45);
  }

  lemma ToNextNoon(at: Stamp)
    requires at == Stamp(45, 0, 0, 0)
    ensures FieldStep(SundayFifteenth().hours, at, HourOfDay, DayOfWeek, {Second})
      == Some(Step(Stamp(45, 12, 0, 0), true))
  {
    hide FieldStep, MonthOf, HourLands;
    var cex := SundayFifteenth();
    HourStep(cex, at, {Second});
    NoonIsNext();
    SameTimeSameStamp(FieldStep(cex.hours, at, HourOfDay, DayOfWeek, {Second}).value.at, Stamp(45, 12, 0, 0));
  }

  /** Midnight of every day of February. */
  function February(): (cex: CronExpr)
    ensures cex.Valid()
  {
    assert forall n: nat | n > 0 :: All(n)[0];
    CronExpr(Only(60, 0), Only(60, 0), Only(24, 0), All(7), All(31), Only(12, 1))
  }

  lemma FebruaryOverflows(marked: set<Field>)
    requires marked == {Second, Minute, HourOfDay, DayOfMonth}
    ensures FieldStep(February().months, Stamp(30, 0, 0, 0), Month, Year, marked)
      == Some(Step(Stamp(59, 0, 0, 0), true))
  {
    hide ResetAll, MonthStart, MonthOf, MonthLength;
    var at := Stamp(30, 0, 0, 0);
    var bits := February().months;
    EarlyDays(30);
    assert NextSetBit(bits, 0) == Some(1);
    var placed := at.(day := MonthStart(EPOCH_MONTH + 1) + 30);
    assert Put(at, Month, 1) == placed;
    assert MonthLength(EPOCH_MONTH + 1) == 28 by { ShortFebruary(); }
    DayOverflow(EPOCH_MONTH + 1, 31);
    ResetsZero(placed, marked);
    MonthStep(EPOCH_MONTH);
  }

  lemma ShortFebruary()
    ensures MonthLength(EPOCH_MONTH + 1) == 28
  {
  }

  /** From 31 January 1970 the search jumps over the whole of February and
      finds 1 February 1971, although 1 February 1970 matches. */
  lemma SkippedMonth()
    ensures 70 <= TmYear(30) && Find(February(), Stamp(30, 0, 0, 0), 70) == Found(Stamp(396, 0, 0, 0))
    ensures Matches(February(), Stamp(31, 0, 0, 0)) && Matches(February(), Stamp(396, 0, 0, 0))
    ensures !MonthsFit(February())
  {
    hide Find, Pass, Matches, MonthOf, MonthsFit, Search, February, OneDayField;
    var cex, at := February(), Stamp(30, 0, 0, 0);
    SkippingPass();
    SecondPass();
    EarlyDays(30);
    AnyDay();
    MatchIsDone(cex, Stamp(396, 0, 0, 0), 70);
    FindIsSearch(cex, at, 70);
    SearchOnce(cex, at, 70);
    SearchOnce(cex, Stamp(59, 0, 0, 0), 70);
    SearchOnce(cex, Stamp(396, 0, 0, 0), 70);
  }

  /** 1 March 1970 and 1 February 1971. */
  lemma NextFebruary()
    ensures MonthStart(EPOCH_MONTH + 13) == 396 && MonthOf(396) == EPOCH_MONTH + 13 && MonthDay(396) == 1
    ensures MonthOf(59) == EPOCH_MONTH + 2 && MonthDay(59) == 1
  {
    hide MonthStart;
    EarlyDays(30);
    YearBegins(1);
    MonthInYear(1971, 1);
    DateRoundTrip(EPOCH_MONTH + 2, 1);
    DateRoundTrip(EPOCH_MONTH + 13, 1);
  }

  /** From 1 March the search goes on to the next year. */
  lemma SecondPass()
    ensures Pass(February(), Stamp(59, 0, 0, 0), 70) == Restart(Stamp(396, 0, 0, 0))
    ensures Matches(February(), Stamp(396, 0, 0, 0))
  {
    hide MonthStart, MonthOf, FieldStep, MonthLength, MonthDay, NextMonth;
    var cex, at := February(), Stamp(59, 0, 0, 0);
    NextFebruary();
    Stays(cex.seconds, at, Second, Minute, {});
    Stays(cex.minutes, at, Minute, HourOfDay, {Second});
    Stays(cex.hours, at, HourOfDay, DayOfWeek, {Second} + {Minute});
    var marked := {Second} + {Minute} + {HourOfDay} + {DayOfMonth};
    MonthStepGoes(cex, at, marked);
    FebruaryAfterMarch();
    var m := FieldStep(cex.months, at, Month, Year, marked);
    assert m.Some? && m.value.moved;
    assert m.value.at == Stamp(396, 0, 0, 0);
  }

  lemma FebruaryAfterMarch()
    ensures NextMonth(February(), EPOCH_MONTH + 2) == EPOCH_MONTH + 13
  {
    assert NextSetBit(February().months, 0) == Some(1);
    NoBitAfter(February().months, 2);
  }

  lemma NoBitAfter(bits: seq<bool>, from: nat)
    requires from <= |bits| && forall i | from <= i < |bits| :: !bits[i]
    ensures NextSetBit(bits, from).None?
  {
  }

  lemma SkippingPass()
    ensures Pass(February(), Stamp(30, 0, 0, 0), 70) == Restart(Stamp(59, 0, 0, 0))
    ensures Matches(February(), Stamp(31, 0, 0, 0))
    ensures !MonthsFit(February())
  {
    hide MonthStart, MonthOf, FieldStep;
    var cex, at := February(), Stamp(30, 0, 0, 0);
    EarlyDays(30);
    EarlyDays(31);
    Stays(cex.seconds, at, Second, Minute, {});
    Stays(cex.minutes, at, Minute, HourOfDay, {Second});
    Stays(cex.hours, at, HourOfDay, DayOfWeek, {Second} + {Minute});
    var marked := {Second} + {Minute} + {HourOfDay} + {DayOfMonth};
    FebruaryOverflows(marked);
    StartsItsMonth(EPOCH_MONTH + 2);
    FebruaryIsShort();
  }

  lemma FebruaryIsShort()
    ensures !MonthsFit(February())
  {
    var cex := February();
    assert HasLength(1, 28) && cex.months[1] && !cex.months[(1 + 11) % 12];
    assert cex.daysOfMonth[0] && AllowedDayUpTo(cex, 28);
    assert cex.daysOfMonth[30] && AllowedDayBeyond(cex, 28);
  }

  /** Every second. */
  function EverySecond(): (cex: CronExpr)
    ensures cex.Valid()
  {
    assert forall n: nat | n > 0 :: All(n)[0];
    CronExpr(All(60), All(60), All(24), All(7), All(31), All(12))
  }

  /** Two seconds before 1970 the second search would begin at the time value
      -1, which is taken for a failure: `cron_next` throws. */
  lemma ThrowsBefore1970()
    ensures CronNext(EverySecond(), -2) == None
  {
    hide *;
    EveryTimeMatches(StampOf(-2));
    ThrowsAtMatch(EverySecond());
  }

  lemma ThrowsAtMatch(cex: CronExpr)
    requires cex.Valid() && Matches(cex, StampOf(-2))
    ensures CronNext(cex, -2) == None
  {
    hide Find, MonthOf, MonthDay, TmYear, Matches, Promises, StampOf, Add;
    var at := StampOf(-2);
    FindsItsStart(cex, at, TmYear(at.day));
    var r := Find(cex, at, TmYear(at.day));
    FoundIsValid(cex, at, TmYear(at.day));
    OneSecondOn(r.at);
    SameTimeSameStamp(StampOf(-1), INVALID_STAMP);
  }

  lemma EveryTimeMatches(at: Stamp)
    requires at.Valid()
    ensures Matches(EverySecond(), at)
  {
    hide MonthOf, MonthStart;
  }

  /** Seconds 10 and 50 of minute 30. */
  function TwoSeconds(): (cex: CronExpr)
    ensures cex.Valid()
  {
    assert forall n: nat | n > 0 :: All(n)[0];
    assert Only(60, 10)[50 := true][10];
    CronExpr(Only(60, 10)[50 := true], Only(60, 30), All(24), All(7), All(31), All(12))
  }

  lemma TwoSecondBits()
    ensures var cex := TwoSeconds();
      && NextSetBit(cex.seconds, 0) == Some(10) && NextSetBit(cex.seconds, 20) == Some(50)
      && NextSetBit(cex.minutes, 0) == Some(30)
  {
    hide NextSetBit;
    var cex := TwoSeconds();
    assert cex.seconds[10] && cex.seconds[50] && cex.minutes[30];
  }

  lemma SecondThenMinute(cex: CronExpr)
    requires cex.Valid() && NextSetBit(cex.seconds, 20) == Some(50) && NextSetBit(cex.minutes, 0) == Some(30)
    ensures Pass(cex, Stamp(0, 0, 0, 20), 70) == Restart(Stamp(0, 0, 30, 50))
  {
    hide ResetAll, MonthStart, MonthOf, NextSetBit, HourPass, Carry, Put;
    PutClock(Stamp(0, 0, 0, 20), 50);
    ResetsZero(Stamp(0, 0, 0, 50), {});
    assert FieldStep(cex.seconds, Stamp(0, 0, 0, 20), Second, Minute, {}) == Some(Step(Stamp(0, 0, 0, 50), true));
    PutClock(Stamp(0, 0, 0, 50), 30);
    ResetsZero(Stamp(0, 0, 30, 50), {});
  }

  /** From 00:00:20 the search goes to 00:30:50, although 00:30:10 matches. */
  lemma LateSecondExample()
    ensures 70 <= TmYear(0) && Find(TwoSeconds(), Stamp(0, 0, 0, 20), 70) == Found(Stamp(0, 0, 30, 50))
    ensures LateSecond(TwoSeconds(), Stamp(0, 0, 0, 20))
    ensures Matches(TwoSeconds(), Stamp(0, 0, 30, 10))
  {
    hide Find, Pass, Matches, MonthOf, LateSecond, Search, TwoSeconds, OneDayField;
    var cex, at := TwoSeconds(), Stamp(0, 0, 0, 20);
    LatePass();
    EarlyDays(0);
    AnyDay();
    FindIsSearch(cex, at, 70);
    SearchOnce(cex, at, 70);
    SearchOnce(cex, Stamp(0, 0, 30, 50), 70);
  }

  lemma AnyDay()
    ensures OneDayField(TwoSeconds()) && OneDayField(February())
  {
  }

  lemma LatePass()
    ensures LateSecond(TwoSeconds(), Stamp(0, 0, 0, 20))
    ensures Pass(TwoSeconds(), Stamp(0, 0, 0, 20), 70) == Restart(Stamp(0, 0, 30, 50))
    ensures Pass(TwoSeconds(), Stamp(0, 0, 30, 50), 70) == Done(Stamp(0, 0, 30, 50))
    ensures Matches(TwoSeconds(), Stamp(0, 0, 30, 10))
  {
    hide Pass, NextSetBit, MonthStart, MonthOf;
    var cex := TwoSeconds();
    TwoSecondBits();
    SecondThenMinute(cex);
    assert cex.seconds[10] && cex.seconds[50] && cex.minutes[30];
    MatchIsDone(cex, Stamp(0, 0, 30, 50), 70);
  }
}
