/** Which expressions the search, and `cron_next`, find the earliest match for
    from every start. */
module CronEarliest {
  import opened Wrappers
  import opened Calendar
  import opened CronExpression
  import opened CronSteps
  import opened CronPass
  import opened CronFind
  import opened CronSearch
  import opened CronMatches
  import opened CronMonths

  // ----- The earliest match -----

  /** What the search finds is the earliest match; giving up, there is none in
      the years it looks at. */
  ghost predicate FindsEarliest(cex: CronExpr, at: Stamp)
    requires cex.Valid() && at.Valid() && OneDayField(cex)
  {
    var dot := TmYear(at.day);
    var r := Search(cex, at, dot);
    && (r.Found? ==> EarliestFrom(cex, at, Time(r.at)))
    && (r.NotFound? ==> EarliestFrom(cex, at, Time(Stamp(MonthStart(EndMonth(dot)), 0, 0, 0))))
  }

  lemma FitFindsEarliest(cex: CronExpr, at: Stamp)
    requires cex.Valid() && at.Valid() && OneDayField(cex) && MonthsFit(cex) && !LateSecond(cex, at)
    ensures FindsEarliest(cex, at)
  {
    hide Search, Matches, MonthsFit, OneDayField, TmYear, LateSecond, MonthStart, FullMatches, AfterSecond;
    var dot := TmYear(at.day);
    SearchEarliest(cex, at, dot);
    SearchSkipsNothing(cex, at, dot);
    if Search(cex, at, dot).NotFound? {
      forall x: Stamp | x.Valid() && Time(at) <= Time(x) < Time(Stamp(MonthStart(EndMonth(dot)), 0, 0, 0))
        ensures !Matches(cex, x)
      {
        MatchIsFullMinute(cex, x);
        if Minutes(x) < AfterSecond(cex, at) {
          NothingBeforeSecondStep(cex, at, x);
        }
      }
    }
  }

  lemma JumpIsNotEarliest(cex: CronExpr, m: int, day: int, inside: int)
    requires cex.Valid() && OneDayField(cex) && JumpsOver(cex, m, day, inside) && day >= 0
      && (m + 1) / 12 == (m - 1) / 12
    ensures !FindsEarliest(cex, FirstOf(cex, day))
  {
    hide Pass, Search, MonthStart, MonthLength, DayMatches, MonthMatches, MonthLands;
    hide FirstOf, MonthDay, OneDayField, JumpsOver, NextSetBit, Matches;
    var at, dot := FirstOf(cex, day), TmYear(day);
    var x := FirstOf(cex, inside);
    JumpMonth(cex, m, day, inside);
    JumpLands(cex, m, day, inside);
    JumpingPass(cex, m, day, inside);
    SearchDoesNotThrow(cex, at, dot);
    SearchOnce(cex, at, dot);
    assert Matches(cex, x) by { MinuteParts(x); MatchIsFullMinute(cex, x); }
    assert Time(at) <= Time(x);
    if m + 1 < EndMonth(dot) {
      MonthStartsIncrease(m + 1, EndMonth(dot));
    }
  }

  /** A month step does not go further than two years. */
  lemma LandsSoon(cex: CronExpr, day: int)
    requires cex.Valid() && !MonthMatches(cex, day)
    ensures TmYear(MonthLands(cex, day)) <= TmYear(day) + 2
  {
    hide MonthStart, MonthLength;
    var n := NextMonth(cex, MonthOf(day));
    StartsItsMonth(n);
    StartsItsMonth(n + 1);
  }

  /** From a start that leaves the second late, the search does find a match. */
  lemma LateIsFound(cex: CronExpr, at: Stamp)
    requires cex.Valid() && at.Valid() && OneDayField(cex) && at.day >= 0 && LateSecond(cex, at)
    ensures Search(cex, at, TmYear(at.day)).Found?
  {
    hide Pass, Search, MonthOf, DayMatches, MonthMatches, FullMatches;
    hide FirstLanding, OneDayField, MonthLands, Matches, TmYear, NextSetBit;
    var dot := TmYear(at.day);
    var p := Pass(cex, at, dot);
    MinuteParts(at);
    PassGoes(cex, at, dot);
    OneDayPass(cex, at, dot);
    PassLands(cex, at, dot);
    SearchOnce(cex, at, dot);
    if p.Done? {
      DoneIsFull(cex, at, dot);
    } else if p.GaveUp? {
      NotTooFar(cex, at.day);
    } else {
      MatchIsFullMinute(cex, p.at);
      MatchIsDone(cex, p.at, dot);
      SearchOnce(cex, p.at, dot);
    }
  }

  lemma NotTooFar(cex: CronExpr, day: int)
    requires cex.Valid()
    ensures !LeavesYears(cex, day, TmYear(day))
  {
    hide MonthLands, MonthMatches;
    if !MonthMatches(cex, day) {
      LandsSoon(cex, day);
      LandsLater(cex, day);
      MonthsAreMonotone(day, MonthLands(cex, day));
    }
  }

  // ----- When a second is left late -----

  /** A second that is not allowed lies between two that are. */
  predicate SecondsGap(cex: CronExpr)
    requires cex.Valid()
  {
    exists a, b, c | 0 <= a < b < c < 60 :: cex.seconds[a] && !cex.seconds[b] && cex.seconds[c]
  }

  /** An allowed month has, in some year, an allowed day. */
  predicate CanMatch(cex: CronExpr)
    requires cex.Valid()
  {
    exists m, n | 0 <= m < 12 && 28 <= n <= 31 && HasLength(m, n) && cex.months[m] :: AllowedDayUpTo(cex, n)
  }

  predicate EveryMinute(cex: CronExpr)
    requires cex.Valid()
  {
    Full(cex.minutes) && Full(cex.hours) && Full(cex.daysOfWeek) && Full(cex.daysOfMonth) && Full(cex.months)
  }

  /** The months fit; and there is no second to be left late, no minute where it
      could be left, or no minute it could be left from. */
  predicate AlwaysEarliest(cex: CronExpr)
    requires cex.Valid()
  {
    MonthsFit(cex) && !(SecondsGap(cex) && CanMatch(cex) && !EveryMinute(cex))
  }

  lemma EveryMinuteMatches(cex: CronExpr, mu: int)
    requires cex.Valid() && EveryMinute(cex)
    ensures FullMatches(cex, mu)
  {
    hide MonthOf, MonthDay, WeekDay;
  }

  lemma MatchIsPossible(cex: CronExpr, mu: int)
    requires cex.Valid() && FullMatches(cex, mu)
    ensures CanMatch(cex)
  {
    hide MonthOf, HasLength, AllowedDayUpTo, DayMatches;
    var day := mu / 1440;
    var m := MonthOf(day);
    LengthOfMonth(m);
    MatchIsUpTo(cex, day);
    assert cex.months[m % 12] && HasLength(m % 12, MonthLength(m));
  }

  lemma LateNeedsGap(cex: CronExpr, at: Stamp)
    requires cex.Valid() && at.Valid() && LateSecond(cex, at)
    ensures SecondsGap(cex)
  {
    hide FullMatches, FirstLanding;
    var a, b, c := FirstSecond(cex), at.sec, Target(cex.seconds, at.sec);
    FirstIsFirst(cex, c);
    FirstIsFirst(cex, a);
    assert a < b < c && cex.seconds[a] && !cex.seconds[b] && cex.seconds[c];
  }

  lemma FirstIsFirst(cex: CronExpr, v: nat)
    requires cex.Valid() && v < 60 && cex.seconds[v]
    ensures FirstSecond(cex) <= v && cex.seconds[FirstSecond(cex)]
  {
  }

  lemma LateNeeds(cex: CronExpr, at: Stamp)
    requires cex.Valid() && at.Valid() && LateSecond(cex, at)
    ensures SecondsGap(cex) && CanMatch(cex) && !EveryMinute(cex)
  {
    hide SecondsGap, CanMatch, EveryMinute, FullMatches, FirstLanding, NextSetBit;
    LateNeedsGap(cex, at);
    MatchIsPossible(cex, FirstLanding(cex, Minutes(at)));
    if EveryMinute(cex) {
      EveryMinuteMatches(cex, Minutes(at));
    }
  }

  /** Where a minute that is no match lands, nothing has been passed. */
  lemma LandingSkipsNothing(cex: CronExpr, mu: int)
    requires cex.Valid() && OneDayField(cex) && MonthsFit(cex) && mu >= 0 && !FullMatches(cex, mu)
    ensures mu < FirstLanding(cex, mu) && NoneFullBetween(cex, mu, FirstLanding(cex, mu))
  {
    hide MonthsFit, OneDayField, DayMatches, MonthMatches, MinuteMatches, MonthLands, WalkEnd;
    var at := StampAt(mu);
    if !cex.minutes[mu % 60] {
      MinuteLandsLater(cex, at);
    } else if !cex.hours[mu / 60 % 24] {
      HourLandsLater(cex, at);
    } else if !DayMatches(cex, mu / 1440) {
      DayLandsLater(cex, at);
    } else {
      MonthIsMissing(cex, mu);
      LandsLater(cex, mu / 1440);
      MonthGap(cex, mu, MonthLands(cex, mu / 1440) * 1440);
    }
  }

  /** The beginning of a minute. */
  function StampAt(mu: int): (at: Stamp)
    requires mu >= 0
    ensures at.Valid() && Minutes(at) == mu && at.sec == 0
    ensures at.day == mu / 1440
  {
    var day, minute := mu / 1440, mu % 1440;
    Stamp(day, minute / 60, minute % 60, 0)
  }

  lemma NoneIsNoneFull(cex: CronExpr, a: int, b: int)
    requires cex.Valid() && NoneBetween(cex, a, b)
    ensures NoneFullBetween(cex, a, b)
  {
    hide MinuteMatches, MonthMatches;
  }

  lemma MinuteLandsLater(cex: CronExpr, at: Stamp)
    requires cex.Valid() && at.Valid() && !cex.minutes[at.min]
    ensures Minutes(at) < MinuteLands(cex, Minutes(at))
      && NoneFullBetween(cex, Minutes(at), MinuteLands(cex, Minutes(at)))
  {
    hide NextSetBit, NoneFullBetween, NoneBetween;
    MinuteParts(at);
    MinuteGap(cex, at);
    NoneIsNoneFull(cex, Minutes(at), MinuteLands(cex, Minutes(at)));
  }

  lemma HourLandsLater(cex: CronExpr, at: Stamp)
    requires cex.Valid() && at.Valid() && !cex.hours[at.hour]
    ensures Minutes(at) < HourLands(cex, Minutes(at)) && NoneFullBetween(cex, Minutes(at), HourLands(cex, Minutes(at)))
  {
    hide NextSetBit, NoneFullBetween, NoneBetween;
    MinuteParts(at);
    HourGap(cex, at);
    NoneIsNoneFull(cex, Minutes(at), HourLands(cex, Minutes(at)));
  }

  lemma DayLandsLater(cex: CronExpr, at: Stamp)
    requires cex.Valid() && at.Valid() && !DayMatches(cex, at.day)
    ensures Minutes(at) < WalkEnd(cex, at.day) * 1440
    ensures NoneFullBetween(cex, Minutes(at), WalkEnd(cex, at.day) * 1440)
  {
    hide DayMatches, NoneFullBetween, NoneBetween;
    WalkPassesNone(cex, at.day, 0);
    var b := Stamp(WalkEnd(cex, at.day), 0, 0, 0);
    DayGap(cex, at, b);
    NoneIsNoneFull(cex, Minutes(at), Minutes(b));
  }

  lemma {:induction false} WalkPassesNone(cex: CronExpr, day: int, count: nat)
    requires cex.Valid() && count <= MAX_DAY_STEPS
    ensures NoDayBetween(cex, day, WalkFrom(cex, day, count))
    ensures !DayMatches(cex, day) && count < MAX_DAY_STEPS ==> day < WalkFrom(cex, day, count)
    decreases MAX_DAY_STEPS - count
  {
    hide DayMatches;
    if !DayMatches(cex, day) && count < MAX_DAY_STEPS {
      WalkPassesNone(cex, day + 1, count + 1);
    }
  }

  lemma MonthIsMissing(cex: CronExpr, mu: int)
    requires cex.Valid() && !FullMatches(cex, mu)
    requires cex.minutes[mu % 60] && cex.hours[mu / 60 % 24] && DayMatches(cex, mu / 1440)
    ensures !MonthMatches(cex, mu / 1440)
  {
    hide DayMatches, MonthMatches;
  }

  /** Between a minute that is no match and one that is, some minute that is
      none lands on one that is. */
  lemma {:induction false} LandsOnMatch(cex: CronExpr, from: int, last: int) returns (mu: int)
    requires cex.Valid() && OneDayField(cex) && MonthsFit(cex)
    requires 0 <= from < last && !FullMatches(cex, from) && FullMatches(cex, last)
    ensures from <= mu && !FullMatches(cex, mu) && FullMatches(cex, FirstLanding(cex, mu))
    decreases last - from
  {
    hide MonthsFit, OneDayField, FullMatches, FirstLanding;
    var next := FirstLanding(cex, from);
    LandingSkipsNothing(cex, from);
    if FullMatches(cex, next) {
      mu := from;
    } else {
      assert next <= last by { assert FullMatches(cex, last); }
      mu := LandsOnMatch(cex, next, last);
    }
  }

  /** In the year 1970 some minute is no match, unless all are. */
  lemma SomeMissing(cex: CronExpr) returns (mu: int)
    requires cex.Valid() && !EveryMinute(cex)
    ensures 0 <= mu < MonthStart(12 * 1971) * 1440 && !FullMatches(cex, mu)
  {
    hide MonthStart, FullMatches, DayMatches, MonthMatches;
    YearBegins(1);
    if !Full(cex.minutes) || !Full(cex.hours) {
      mu := SomeMissingTime(cex);
    } else {
      var day := SomeMissingDay(cex);
      mu := 1440 * day;
      MissingDate(cex, mu);
    }
  }

  lemma SomeMissingTime(cex: CronExpr) returns (mu: int)
    requires cex.Valid() && !(Full(cex.minutes) && Full(cex.hours))
    ensures 0 <= mu < 1440 && !FullMatches(cex, mu)
  {
    hide FullMatches;
    if m :| 0 <= m < 60 && !cex.minutes[m] {
      mu := Minutes(Stamp(0, 0, m, 0));
      MissingClock(cex, Stamp(0, 0, m, 0));
    } else {
      var h :| 0 <= h < 24 && !cex.hours[h];
      mu := Minutes(Stamp(0, h, 0, 0));
      MissingClock(cex, Stamp(0, h, 0, 0));
    }
  }

  lemma MissingClock(cex: CronExpr, at: Stamp)
    requires cex.Valid() && at.Valid() && !(cex.minutes[at.min] && cex.hours[at.hour])
    ensures !FullMatches(cex, Minutes(at))
  {
    hide DayMatches, MonthMatches;
    MinuteParts(at);
  }

  lemma MissingDate(cex: CronExpr, mu: int)
    requires cex.Valid() && !(DayMatches(cex, mu / 1440) && MonthMatches(cex, mu / 1440))
    ensures !FullMatches(cex, mu)
  {
    hide DayMatches, MonthMatches;
  }

  lemma SomeMissingDay(cex: CronExpr) returns (day: int)
    requires cex.Valid() && !(Full(cex.daysOfWeek) && Full(cex.daysOfMonth) && Full(cex.months))
    ensures 0 <= day < MonthStart(12 * 1971) && !(DayMatches(cex, day) && MonthMatches(cex, day))
  {
    hide MonthStart, MonthOf, MonthLength;
    YearBegins(1);
    YearBegins(0);
    if w :| 0 <= w < 7 && !cex.daysOfWeek[w] {
      day := (w - WeekDay(0)) % 7;
      WeekDayShift(0, w);
    } else if d :| 0 <= d < 31 && !cex.daysOfMonth[d] {
      JanuaryLength(1970);
      day := d;
      DateRoundTrip(EPOCH_MONTH, d + 1);
    } else {
      var m :| 0 <= m < 12 && !cex.months[m];
      day := MonthStart(EPOCH_MONTH + m);
      DateRoundTrip(EPOCH_MONTH + m, 1);
      MonthStartsIncrease(EPOCH_MONTH + m, 12 * 1971);
      if m > 0 {
        MonthStartsIncrease(EPOCH_MONTH, EPOCH_MONTH + m);
      }
    }
  }

  /** After 1970 some minute is a match, if any can be. */
  lemma SomeFull(cex: CronExpr) returns (mu: int)
    requires cex.Valid() && OneDayField(cex) && CanMatch(cex)
    ensures MonthStart(12 * 1971) * 1440 <= mu && FullMatches(cex, mu)
  {
    hide MonthStart, MonthOf, MonthLength, FullMatches, HasLength, AllowedDayUpTo;
    var m, n :| 0 <= m < 12 && 28 <= n <= 31 && HasLength(m, n) && cex.months[m] && AllowedDayUpTo(cex, n);
    var y := YearOfLength(m, n);
    var k := 12 * y + m;
    MonthNumber(y, m);
    MonthStartsIncrease(12 * 1971, k);
    var day := MatchInMonth(cex, k);
    var x := FirstOf(cex, day);
    mu := Minutes(x);
    StartsBefore(k, day);
    FullOn(cex, x);
  }

  lemma MonthNumber(y: int, m: int)
    requires 0 <= m < 12
    ensures (12 * y + m) % 12 == m
  {
  }

  lemma StartsBefore(k: int, day: int)
    requires MonthOf(day) == k
    ensures MonthStart(k) <= day
  {
  }

  lemma FullOn(cex: CronExpr, x: Stamp)
    requires cex.Valid() && x.Valid() && DayMatches(cex, x.day) && MonthMatches(cex, x.day)
    requires cex.hours[x.hour] && cex.minutes[x.min]
    ensures FullMatches(cex, Minutes(x))
  {
    hide DayMatches, MonthMatches;
    MinuteParts(x);
  }

  lemma MatchInMonth(cex: CronExpr, k: int) returns (day: int)
    requires cex.Valid() && OneDayField(cex) && AllowedDayUpTo(cex, MonthLength(k))
    ensures MonthOf(day) == k && DayMatches(cex, day)
  {
    hide MonthStart, MonthOf, MonthLength, WeekDay;
    if Full(cex.daysOfMonth) {
      var w :| 0 <= w < 7 && cex.daysOfWeek[w];
      day := WeekDayWithin(cex, k, w);
    } else {
      var d :| 0 <= d < 31 && d < MonthLength(k) && cex.daysOfMonth[d];
      day := MonthStart(k) + d;
      DateRoundTrip(k, d + 1);
    }
  }

  /** Then a start from 1970 on leaves the second late. */
  lemma SomeLate(cex: CronExpr) returns (at: Stamp)
    requires cex.Valid() && OneDayField(cex) && MonthsFit(cex)
    requires SecondsGap(cex) && CanMatch(cex) && !EveryMinute(cex)
    ensures at.Valid() && at.day >= 0 && LateSecond(cex, at)
  {
    hide MonthsFit, OneDayField, CanMatch, EveryMinute, FullMatches, FirstLanding, MonthStart, LateSecond, StampAt;
    var a, b, c :| 0 <= a < b < c < 60 && cex.seconds[a] && !cex.seconds[b] && cex.seconds[c];
    var none := SomeMissing(cex);
    var last := SomeFull(cex);
    var mu := LandsOnMatch(cex, none, last);
    at := StampAt(mu).(sec := b);
    IsLate(cex, at, a, c);
  }

  lemma IsLate(cex: CronExpr, at: Stamp, a: nat, c: nat)
    requires cex.Valid() && at.Valid() && a < at.sec < c < 60
    requires cex.seconds[a] && !cex.seconds[at.sec] && cex.seconds[c]
    requires !FullMatches(cex, Minutes(at)) && FullMatches(cex, FirstLanding(cex, Minutes(at)))
    ensures LateSecond(cex, at)
  {
    hide FullMatches, FirstLanding;
    FirstIsFirst(cex, a);
    assert NextSetBit(cex.seconds, at.sec).Some?;
  }

  /** Some start from 1970 on leaves the second late, exactly under that
      condition on the fields. */
  lemma LateExactly(cex: CronExpr)
    requires cex.Valid() && OneDayField(cex) && MonthsFit(cex)
    ensures (exists at: Stamp | at.Valid() && at.day >= 0 :: LateSecond(cex, at))
       <==> SecondsGap(cex) && CanMatch(cex) && !EveryMinute(cex)
  {
    hide MonthsFit, OneDayField, SecondsGap, CanMatch, EveryMinute, LateSecond;
    if SecondsGap(cex) && CanMatch(cex) && !EveryMinute(cex) {
      var at := SomeLate(cex);
    }
    if at: Stamp :| at.Valid() && at.day >= 0 && LateSecond(cex, at) {
      LateNeeds(cex, at);
    }
  }

  // ----- The earliest match from every start -----

  /** Else there is a start from which the search does not find it. */
  lemma NotEarliestFrom(cex: CronExpr) returns (at: Stamp)
    requires cex.Valid() && OneDayField(cex) && !AlwaysEarliest(cex)
    ensures at.Valid() && at.day >= 0 && !Matches(cex, at) && !FindsEarliest(cex, at)
  {
    hide FindsEarliest, MonthsFit, LateSecond, SecondsGap, CanMatch, EveryMinute, JumpsOver;
    hide FirstOf, MonthOf, OneDayField, Search, EarliestFrom, Matches;
    if !MonthsFit(cex) {
      var m, day, inside := Misfit(cex);
      JumpMonth(cex, m, day, inside);
      EpochMonth(day);
      JumpIsNotEarliest(cex, m, day, inside);
      JumpLands(cex, m, day, inside);
      at := FirstOf(cex, day);
      NoMatchInMonth(cex, at);
    } else {
      at := SomeLate(cex);
      LateIsFound(cex, at);
      LateIsNotEarliest(cex, at);
      LateIsNoMatch(cex, at);
    }
  }

  lemma NoMatchInMonth(cex: CronExpr, at: Stamp)
    requires cex.Valid() && at.Valid() && !MonthMatches(cex, at.day)
    ensures !Matches(cex, at)
  {
    hide MonthMatches, DayMatches;
  }

  lemma LateIsNoMatch(cex: CronExpr, at: Stamp)
    requires cex.Valid() && at.Valid() && LateSecond(cex, at)
    ensures !Matches(cex, at)
  {
    hide FullMatches, MonthMatches, DayMatches, NextSetBit, FirstLanding;
  }

  lemma NeverLate(cex: CronExpr, at: Stamp)
    requires cex.Valid() && at.Valid() && AlwaysEarliest(cex)
    ensures MonthsFit(cex) && !LateSecond(cex, at)
  {
    hide MonthsFit, SecondsGap, CanMatch, EveryMinute, LateSecond;
    if LateSecond(cex, at) {
      LateNeeds(cex, at);
    }
  }

  /** From 1970 on the search finds the earliest match from every start, exactly
      under that condition on the expression. */
  lemma FindsEarliestExactly(cex: CronExpr)
    requires cex.Valid() && OneDayField(cex)
    ensures (forall at: Stamp | at.Valid() && at.day >= 0 :: FindsEarliest(cex, at)) <==> AlwaysEarliest(cex)
  {
    hide FindsEarliest, MonthsFit, LateSecond, OneDayField, Search, Matches, AlwaysEarliest;
    if AlwaysEarliest(cex) {
      forall at: Stamp | at.Valid() && at.day >= 0
        ensures FindsEarliest(cex, at)
      {
        NeverLate(cex, at);
        FitFindsEarliest(cex, at);
      }
    } else {
      var at := NotEarliestFrom(cex);
    }
  }

  lemma LateIsNotEarliest(cex: CronExpr, at: Stamp)
    requires cex.Valid() && at.Valid() && OneDayField(cex) && MonthsFit(cex) && LateSecond(cex, at)
    requires Search(cex, at, TmYear(at.day)).Found?
    ensures !FindsEarliest(cex, at)
  {
    hide Search, MonthsFit, OneDayField, LateSecond, EarliestFrom, MonthOf;
    SearchEarliest(cex, at, TmYear(at.day));
  }

  /** What `cron_next` answers is the earliest match after the time given;
      answering none, there is none in the years it looks at. */
  ghost predicate NextIsEarliest(cex: CronExpr, t: int)
    requires cex.Valid()
  {
    var u := CronNext(cex, t);
    && (u.Some? && u.value != INVALID_TIME ==> NoneMatches(cex, t + 1, u.value))
    && (u == Some(INVALID_TIME)
        ==> NoneMatches(cex, t + 1, Time(Stamp(MonthStart(EndMonth(TmYear(Start(cex, t).day))), 0, 0, 0))))
  }

  lemma NextAsSearched(cex: CronExpr, t: int)
    requires cex.Valid() && OneDayField(cex) && t >= 0
    ensures NextIsEarliest(cex, t) <==> FindsEarliest(cex, Start(cex, t))
  {
    hide Find, Search, MonthStart, TmYear, Matches, CronNext, Start, EarliestFrom, OneDayField, StampOf;
    var at := Start(cex, t);
    var dot := TmYear(at.day);
    CronNextIsLaterMatch(cex, t);
    SearchNotNegative(cex, at);
    var r := Search(cex, at, dot);
    var end := if r.Found? then Time(r.at) else Time(Stamp(MonthStart(EndMonth(dot)), 0, 0, 0));
    InstantsAreStamps(cex, at, end);
    StartIsNear(cex, t);
    NoneFromNext(cex, t, end);
  }

  lemma SearchNotNegative(cex: CronExpr, at: Stamp)
    requires cex.Valid() && at.Valid() && OneDayField(cex)
    ensures at.day >= 0 ==> !Search(cex, at, TmYear(at.day)).Threw?
  {
    hide Search, OneDayField, TmYear;
    if at.day >= 0 {
      SearchDoesNotThrow(cex, at, TmYear(at.day));
    }
  }

  lemma NoneFromNext(cex: CronExpr, t: int, end: int)
    requires cex.Valid()
    ensures !Matches(cex, StampOf(t)) ==> (NoneMatches(cex, t, end) <==> NoneMatches(cex, t + 1, end))
  {
    hide Matches, StampOf;
  }

  /** From 1970 on `cron_next` answers with the earliest later match at every
      time, under the same condition. */
  lemma NextEarliestExactly(cex: CronExpr)
    requires cex.Valid() && OneDayField(cex)
    ensures (forall t | 0 <= t :: NextIsEarliest(cex, t)) <==> AlwaysEarliest(cex)
  {
    hide FindsEarliest, NextIsEarliest, MonthsFit, LateSecond, OneDayField, Search, Matches, Start, AlwaysEarliest;
    if AlwaysEarliest(cex) {
      forall t | 0 <= t
        ensures NextIsEarliest(cex, t)
      {
        StartIsNear(cex, t);
        NeverLate(cex, Start(cex, t));
        FitFindsEarliest(cex, Start(cex, t));
        NextAsSearched(cex, t);
      }
    } else {
      var at := NotEarliestFrom(cex);
      StartsThere(cex, at);
      NextAsSearched(cex, Time(at));
    }
  }
}
