/** Which expressions the search can jump over a whole month for. */
module CronMonths {
  import opened Wrappers
  import opened Calendar
  import opened CronExpression
  import opened CronSteps
  import opened CronPass
  import opened CronFind
  import opened CronSearch
  import opened CronMatches

  /** Between a start and where the search ends no minute matches every field
      but the second; giving up, none does in the years it looks at. */
  ghost predicate SkipsNothing(cex: CronExpr, at: Stamp)
    requires cex.Valid() && at.Valid() && OneDayField(cex)
  {
    var dot := TmYear(at.day);
    var r := Search(cex, at, dot);
    && (r.Found? ==> NoneFullBetween(cex, AfterSecond(cex, at), Minutes(r.at)))
    && (r.NotFound? ==> NoneFullBetween(cex, AfterSecond(cex, at), MonthStart(EndMonth(dot)) * 1440))
  }

  /** Day `day` of the month before month `m` goes beyond the end of month `m`,
      and day `inside` of month `m` matches. */
  ghost predicate JumpsOver(cex: CronExpr, m: int, day: int, inside: int)
    requires cex.Valid()
  {
    && cex.months[m % 12] && !cex.months[(m - 1) % 12]
    && MonthOf(day) == m - 1 && MonthDay(day) > MonthLength(m) && DayMatches(cex, day)
    && MonthOf(inside) == m && DayMatches(cex, inside)
  }

  // ----- A day beyond the end -----

  /** The first day of a year near 1970. */
  lemma {:induction false} YearBegins(i: nat)
    requires i <= 10
    ensures MonthStart(12 * (1970 + i)) == 365 * i + (i + 1) / 4
    ensures IsLeap(1970 + i) <==> i % 4 == 2
  {
    hide MonthStart, IsLeap;
    LeapsNear(i);
    if i > 0 {
      YearBegins(i - 1);
      MonthInYear(1970 + i - 1, 12);
    } else {
      EpochStart();
    }
  }

  lemma LeapsNear(i: nat)
    requires i <= 10
    ensures IsLeap(1970 + i) <==> i % 4 == 2
  {
  }

  lemma EpochStart()
    ensures MonthStart(12 * 1970) == 0
  {
  }

  /** The 31st of the month before a short one falls on every weekday. */
  lemma LongDayOccurs(m: int, w: int) returns (y: int)
    requires m in {1, 3, 5, 8, 10} && 0 <= w < 7
    ensures 1970 <= y && WeekDay(MonthStart(12 * y + m - 1) + 30) == w
  {
    hide MonthStart, IsLeap;
    var c := DaysBefore(m - 1) + 34;
    var need := (w - c) % 7;
    var i := YearShift(m == 1, need);
    y := 1970 + i;
    YearBegins(i);
    MonthInYear(y, m - 1);
    SameWeekDay(MonthStart(12 * y + m - 1) - DaysBefore(m - 1), c, w);
  }

  /** A year near 1970 that shifts the weekdays by so many days. */
  function YearShift(january: bool, need: int): (i: nat)
    requires 0 <= need < 7
    ensures i <= 8
    ensures (365 * i + (i + 1) / 4 + if !january && i % 4 == 2 then 1 else 0) % 7 == need
  {
    if january then
      (match need case 0 => 0 case 1 => 1 case 2 => 2 case 3 => 8 case 4 => 3 case 5 => 4 case _ => 5)
    else
      (match need case 0 => 0 case 1 => 1 case 2 => 7 case 3 => 2 case 4 => 3 case 5 => 4 case _ => 5)
  }

  lemma WeekDayWithin(cex: CronExpr, m: int, w: int) returns (inside: int)
    requires cex.Valid() && Full(cex.daysOfMonth) && 0 <= w < 7 && cex.daysOfWeek[w]
    ensures MonthOf(inside) == m && DayMatches(cex, inside)
  {
    hide MonthStart, MonthOf;
    var first := MonthStart(m);
    inside := first + (w - WeekDay(first)) % 7;
    WeekDayShift(first, w);
    DateRoundTrip(m, inside - first + 1);
  }

  /** A year in which a month has one of its lengths. */
  lemma YearOfLength(m: int, n: int) returns (y: int)
    requires 0 <= m < 12 && HasLength(m, n)
    ensures 1972 <= y && MonthLength(12 * y + m) == n
  {
    y := if m == 1 && n == 29 then 1972 else 1973;
    assert (12 * y + m) % 12 == m && (12 * y + m) / 12 == y;
  }

  lemma BeforeIsLong(y: int, m: int)
    requires m in {1, 3, 5, 8, 10}
    ensures MonthLength(12 * y + m - 1) == 31 && MonthLength(12 * y + m) <= 30
    ensures (12 * y + m) % 12 == m && (12 * y + m - 1) % 12 == m - 1
  {
  }

  lemma ShortMonths(m: int, n: int)
    requires 0 <= m < 12 && HasLength(m, n) && n <= 30
    ensures m in {1, 3, 5, 8, 10} && (m + 11) % 12 == m - 1
  {
  }

  /** An expression that does not fit has such days. */
  lemma Misfit(cex: CronExpr) returns (m: int, day: int, inside: int)
    requires cex.Valid() && OneDayField(cex) && !MonthsFit(cex)
    ensures m >= EPOCH_MONTH + 1 && JumpsOver(cex, m, day, inside) && m / 12 == (m - 1) / 12 == (m + 1) / 12
  {
    hide MonthStart, MonthLength, MonthOf, WeekDay, MonthDay, HasLength;
    var k, n :| 0 <= k < 12 && 28 <= n <= 31 && HasLength(k, n) && cex.months[k] && !cex.months[(k + 11) % 12]
      && AllowedDayUpTo(cex, n) && AllowedDayBeyond(cex, n);
    var d0 :| 0 <= d0 < 31 && d0 < n && cex.daysOfMonth[d0];
    var d1 :| 0 <= d1 < 31 && n <= d1 && cex.daysOfMonth[d1];
    ShortMonths(k, n);
    var y;
    if Full(cex.daysOfMonth) {
      var w :| 0 <= w < 7 && cex.daysOfWeek[w];
      y := LongDayOccurs(k, w);
      m := 12 * y + k;
      BeforeIsLong(y, k);
      day := MonthStart(m - 1) + 30;
      DateRoundTrip(m - 1, 31);
      inside := WeekDayWithin(cex, m, w);
    } else {
      y := YearOfLength(k, n);
      m := 12 * y + k;
      BeforeIsLong(y, k);
      day, inside := MonthStart(m - 1) + d1, MonthStart(m) + d0;
      DateRoundTrip(m - 1, d1 + 1);
      DateRoundTrip(m, d0 + 1);
    }
    SameYear(y, k);
  }

  lemma SameYear(y: int, k: int)
    requires 1 <= k <= 10
    ensures var m := 12 * y + k; m / 12 == (m - 1) / 12 == (m + 1) / 12 == y
  {
  }

  // ----- The jump -----

  lemma NextIsThisMonth(cex: CronExpr, m: int)
    requires cex.Valid() && cex.months[m % 12] && !cex.months[(m - 1) % 12]
    ensures NextMonth(cex, m - 1) == m
  {
    hide NextMonth;
    NextMonthIsNext(cex, m - 1);
  }

  lemma JumpLands(cex: CronExpr, m: int, day: int, inside: int)
    requires cex.Valid() && JumpsOver(cex, m, day, inside)
    ensures MonthLands(cex, day) == MonthStart(m + 1) && !MonthMatches(cex, day) && MonthMatches(cex, inside)
    ensures day < inside < MonthStart(m + 1)
  {
    hide MonthStart, MonthLength, NextMonth, DayMatches, MonthDay;
    NextIsThisMonth(cex, m);
    if inside <= day {
      MonthsAreMonotone(inside, day);
    }
    MonthsAreMonotone(inside, inside);
  }

  /** The pass from the first allowed time of that day jumps over the month. */
  lemma JumpingPass(cex: CronExpr, m: int, day: int, inside: int)
    requires cex.Valid() && OneDayField(cex) && JumpsOver(cex, m, day, inside) && day >= 0
      && (m + 1) / 12 == (m - 1) / 12
    ensures var p := Pass(cex, FirstOf(cex, day), TmYear(day));
      p.Restart? && Minutes(p.at) == MonthStart(m + 1) * 1440
  {
    hide Pass, MonthStart, MonthLength, DayMatches, MonthMatches, MonthLands;
    hide FirstOf, MonthDay, OneDayField, JumpsOver, NextSetBit;
    var at, dot := FirstOf(cex, day), TmYear(day);
    JumpLands(cex, m, day, inside);
    MinuteParts(at);
    PassGoes(cex, at, dot);
    OneDayPass(cex, at, dot);
    PassLands(cex, at, dot);
    JumpMonth(cex, m, day, inside);
    StartsItsMonth(m + 1);
    if Pass(cex, at, dot).Done? {
      DoneIsFull(cex, at, dot);
    }
  }

  lemma JumpMonth(cex: CronExpr, m: int, day: int, inside: int)
    requires cex.Valid() && JumpsOver(cex, m, day, inside)
    ensures MonthOf(day) == m - 1 && DayMatches(cex, day) && MonthOf(inside) == m && DayMatches(cex, inside)
  {
  }

  /** So a match is skipped. */
  lemma JumpSkips(cex: CronExpr, m: int, day: int, inside: int)
    requires cex.Valid() && OneDayField(cex) && JumpsOver(cex, m, day, inside) && day >= 0
      && (m + 1) / 12 == (m - 1) / 12
    ensures !SkipsNothing(cex, FirstOf(cex, day))
  {
    hide Pass, Search, MonthStart, MonthLength, DayMatches, MonthMatches;
    hide MonthLands, FirstOf, MonthDay, OneDayField, JumpsOver, NextSetBit;
    var at, dot := FirstOf(cex, day), TmYear(day);
    var x := FirstOf(cex, inside);
    JumpMonth(cex, m, day, inside);
    JumpLands(cex, m, day, inside);
    JumpingPass(cex, m, day, inside);
    RestartAdvances(cex, at, dot);
    SearchDoesNotThrow(cex, at, dot);
    SearchOnce(cex, at, dot);
    assert FullMatches(cex, Minutes(x)) by { MinuteParts(x); }
    assert AfterSecond(cex, at) == Minutes(at) <= Minutes(x);
    if m + 1 < EndMonth(dot) {
      MonthStartsIncrease(m + 1, EndMonth(dot));
    }
  }

  lemma SearchOnce(cex: CronExpr, at: Stamp, dot: int)
    requires cex.Valid() && at.Valid() && OneDayField(cex) && dot <= TmYear(at.day)
    ensures var p := Pass(cex, at, dot);
      && (p.Restart? ==> dot <= TmYear(p.at.day) && Search(cex, at, dot) == Search(cex, p.at, dot)
                         && (Search(cex, at, dot).Found? ==> Minutes(p.at) <= Minutes(Search(cex, at, dot).at)))
      && (p.Done? ==> Search(cex, at, dot) == Found(p.at))
  {
    hide Pass, Matches, MonthOf;
    RestartAdvances(cex, at, dot);
  }

  /** From 1970 on the search skips no match from any start, if and only if the
      months fit. */
  lemma SkipsNothingExactly(cex: CronExpr)
    requires cex.Valid() && OneDayField(cex)
    ensures MonthsFit(cex) <==> forall at: Stamp | at.Valid() && at.day >= 0 :: SkipsNothing(cex, at)
  {
    hide SkipsNothing, MonthsFit, JumpsOver, FirstOf, MonthOf, OneDayField;
    if MonthsFit(cex) {
      forall at: Stamp | at.Valid() && at.day >= 0
        ensures SkipsNothing(cex, at)
      {
        FitSkipsNothing(cex, at);
      }
    } else {
      var m, day, inside := Misfit(cex);
      JumpMonth(cex, m, day, inside);
      EpochMonth(day);
      JumpSkips(cex, m, day, inside);
      assert FirstOf(cex, day).day >= 0;
    }
  }

  lemma FitSkipsNothing(cex: CronExpr, at: Stamp)
    requires cex.Valid() && OneDayField(cex) && at.Valid() && MonthsFit(cex)
    ensures SkipsNothing(cex, at)
  {
    hide Search, NoneFullBetween, MonthsFit, OneDayField, TmYear;
    SearchSkipsNothing(cex, at, TmYear(at.day));
  }
}
