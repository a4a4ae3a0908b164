/** The cron search as a loop of passes: it terminates, finds a match, and
    finds the earliest one exactly under a condition on the seconds. */
module CronSearch {
  import opened Wrappers
  import opened Calendar
  import opened CronExpression
  import opened CronSteps
  import opened CronPass
  import opened CronFind

  // ----- Termination -----

  lemma RestartKeepsMinute(cex: CronExpr, at: Stamp, a: Stamp)
    requires cex.Valid() && at.Valid() && a.Valid() && a.sec == RestartSecond(cex, at)
    ensures AfterSecond(cex, a) == Minutes(a)
  {
  }

  lemma RestartDay(cex: CronExpr, at: Stamp, a: Stamp)
    requires cex.Valid() && at.Valid() && a.Valid() && AfterSecond(cex, at) < Minutes(a)
    ensures at.day <= AfterSecond(cex, at) / 1440 <= a.day
    ensures MonthOf(at.day) <= MonthOf(AfterSecond(cex, at) / 1440) <= MonthOf(a.day)
  {
    hide MonthStart, MonthLength, NextSetBit;
    MonthsAreMonotone(at.day, AfterSecond(cex, at) / 1440);
    MonthsAreMonotone(AfterSecond(cex, at) / 1440, a.day);
  }

  /** Each restart strictly advances: it uses up a month, or stays before the
      next matching minute and comes closer to it. */
  lemma RestartAdvances(cex: CronExpr, at: Stamp, dot: int)
    requires cex.Valid() && at.Valid() && OneDayField(cex) && dot <= TmYear(at.day)
    ensures var r := Pass(cex, at, dot);
      r.Restart? ==>
        && Time(at) < Time(r.at) && dot <= TmYear(r.at.day)
        && (MonthsLeft(r.at, dot) < MonthsLeft(at, dot)
            || (MonthsLeft(r.at, dot) <= MonthsLeft(at, dot) && MinutesLeft(cex, r.at) < MinutesLeft(cex, at)))
  {
    hide Pass, MonthStart, MonthLength, DayMatches, NextMatch, AfterSecond, RestartSecond;
    var r := Pass(cex, at, dot);
    if r.Restart? {
      PassGoes(cex, at, dot);
      OneDayPass(cex, at, dot);
      RestartDay(cex, at, r.at);
      RestartKeepsMinute(cex, at, r.at);
      assert Minutes(at) <= AfterSecond(cex, at) by { SecondIsForward(cex, at); }
      if NoneBetween(cex, AfterSecond(cex, at), Minutes(r.at)) {
        SameNextMatch(cex, AfterSecond(cex, at), Minutes(r.at));
      }
    }
  }

  lemma SecondIsForward(cex: CronExpr, at: Stamp)
    requires cex.Valid() && at.Valid()
    ensures Minutes(at) <= AfterSecond(cex, at)
  {
  }

  // ----- The search -----

  /** `find_next` as a restart loop, if one day field is unrestricted. It returns matches only and never goes
      back in time. */
  function Search(cex: CronExpr, at: Stamp, dot: int): (r: SearchResult)
    requires cex.Valid() && at.Valid() && OneDayField(cex) && dot <= TmYear(at.day)
    ensures r.Found? ==> r.at.Valid() && Matches(cex, r.at) && Time(at) <= Time(r.at)
    decreases MonthsLeft(at, dot), MinutesLeft(cex, at)
  {
    hide Pass, Matches, MonthOf;
    match Pass(cex, at, dot)
    case Threw => SearchResult.Threw
    case GaveUp => NotFound
    case Done(a) =>
      OneDayPass(cex, at, dot); PassGoes(cex, at, dot);
      Found(a)
    case Restart(a) =>
      RestartAdvances(cex, at, dot);
      Search(cex, a, dot)
  }

  // ----- The search as it is called -----

  lemma MatchIsSettled(cex: CronExpr, a: Stamp)
    requires cex.Valid() && a.Valid() && Matches(cex, a)
    ensures Settled(cex, a)
  {
    hide DayMatches, MonthMatches;
    MinuteParts(a);
  }

  /** From a match the steps that are left change nothing. */
  lemma MatchEnds(cex: CronExpr, a: Stamp, marked: set<Field>, dot: int)
    requires cex.Valid() && a.Valid() && dot <= TmYear(a.day) && Matches(cex, a)
    ensures Lower(marked) ==> AtMonth(cex, a, marked) && FindMonth(cex, a, marked, dot) == Found(a)
    ensures marked <= {Second, Minute, HourOfDay} ==> AtDay(cex, a, marked) && FindDay(cex, a, marked, dot) == Found(a)
    ensures marked <= {Second, Minute} ==> AtHour(cex, a, marked) && FindHour(cex, a, marked, dot) == Found(a)
  {
    hide FieldStep, DayWalk, MonthOf, TmYear, Matches, Settled, AtHour, AtDay, AtMonth;
    MatchIsSettled(cex, a);
    forall m: set<Field> | Lower(m)
      ensures AtMonth(cex, a, m) && FindMonth(cex, a, m, dot) == Found(a)
    {
      Stages(cex, a, m);
      MatchStays(cex, a, m);
    }
    forall m: set<Field> | m <= {Second, Minute, HourOfDay}
      ensures AtDay(cex, a, m) && FindDay(cex, a, m, dot) == Found(a)
    {
      Stages(cex, a, m);
      MatchStays(cex, a, m);
    }
    Stages(cex, a, marked);
    MatchStays(cex, a, marked);
  }

  lemma MatchStays(cex: CronExpr, at: Stamp, marked: set<Field>)
    requires cex.Valid() && at.Valid() && Matches(cex, at)
    ensures FieldStep(cex.hours, at, HourOfDay, DayOfWeek, marked) == Some(Step(at, false))
    ensures DayWalk(cex, at, marked, 0) == Some(at)
    ensures FieldStep(cex.months, at, Month, Year, marked) == Some(Step(at, false))
  {
    hide MonthStart, MonthOf;
    Stays(cex.hours, at, HourOfDay, DayOfWeek, marked);
    Stays(cex.months, at, Month, Year, marked);
  }

  lemma Stays(bits: seq<bool>, at: Stamp, field: Field, next: Field, marked: set<Field>)
    requires at.Valid() && true in bits && 0 <= Get(at, field) < |bits| && bits[Get(at, field)]
    ensures FieldStep(bits, at, field, next, marked) == Some(Step(at, false))
  {
  }

  /** What a pass that ends this way means for the call that makes it. */
  ghost predicate Agrees(cex: CronExpr, p: PassResult, r: SearchResult, dot: int)
    requires cex.Valid() && ((p.Restart? || p.Done?) ==> p.at.Valid())
  {
    match p
    case Threw => r == SearchResult.Threw
    case GaveUp => r == NotFound
    case Done(a) => r == Found(a)
    case Restart(x) =>
      && dot <= TmYear(x.day) && (r.Found? ==> Time(x) <= Time(r.at))
      && var inner := Find(cex, x, dot);
         (inner.Found? ==> inner.at.Valid() && Matches(cex, inner.at)) ==> r == inner
  }

  lemma MonthAgrees(cex: CronExpr, at: Stamp, marked: set<Field>, dot: int)
    requires cex.Valid() && at.Valid() && dot <= TmYear(at.day) && AtMonth(cex, at, marked)
    ensures Agrees(cex, MonthPass(cex, at, marked, dot), FindMonth(cex, at, marked, dot), dot)
  {
    hide FieldStep, MonthOf, TmYear, Find, Matches, AtMonth, Forward;
    MonthMoves(cex, at, marked, dot);
    var m := FieldStep(cex.months, at, Month, Year, marked);
    if m.Some? && m.value.moved && !TooFar(m.value.at.day, dot) {
      ForwardYear(cex, at, m.value.at, dot);
    }
  }

  lemma DayAgrees(cex: CronExpr, at: Stamp, marked: set<Field>, dot: int)
    requires cex.Valid() && at.Valid() && dot <= TmYear(at.day) && AtDay(cex, at, marked)
    ensures Agrees(cex, DayPass(cex, at, marked, dot), FindDay(cex, at, marked, dot), dot)
  {
    hide DayWalk, MonthOf, MonthDay, TmYear, Find, FindMonth, MonthPass, Matches, AtMonth, Forward, Promises;
    DayMoves(cex, at, marked, dot);
    var d := DayWalk(cex, at, marked, 0);
    if d.Some? {
      if MonthDay(d.value.day) == MonthDay(at.day) {
        Unnoticed(cex, at, d.value, dot);
        MonthAgrees(cex, d.value, marked + {DayOfMonth}, dot);
      } else {
        Returned(cex, at, d.value, marked, dot);
        ReturnedLater(cex, at, d.value, marked, dot);
      }
    }
  }

  /** What comes back as a match is what the call gives. */
  lemma Returned(cex: CronExpr, at: Stamp, x: Stamp, marked: set<Field>, dot: int)
    requires cex.Valid() && at.Valid() && x.Valid() && dot <= TmYear(at.day) && Forward(cex, at, x, dot)
    ensures dot <= TmYear(x.day)
    ensures var inner := Find(cex, x, dot);
      inner.Found? ==>
        && inner.at.Valid() && dot <= TmYear(inner.at.day)
        && (Matches(cex, inner.at) && Lower(marked)
            ==> AtMonth(cex, inner.at, marked) && FindMonth(cex, inner.at, marked, dot) == inner)
        && (Matches(cex, inner.at) && marked <= {Second, Minute, HourOfDay}
            ==> AtDay(cex, inner.at, marked) && FindDay(cex, inner.at, marked, dot) == inner)
        && (Matches(cex, inner.at) && marked <= {Second, Minute}
            ==> AtHour(cex, inner.at, marked) && FindHour(cex, inner.at, marked, dot) == inner)
  {
    hide Find, FindMonth, FindDay, FindHour, Forward, Settled, TmYear, Matches, AtHour, AtDay, AtMonth;
    ForwardYear(cex, at, x, dot);
    var inner := Find(cex, x, dot);
    Resumes(cex, at, x, dot, inner);
    if inner.Found? && Matches(cex, inner.at) {
      MatchEnds(cex, inner.at, marked, dot);
    }
  }

  /** What the rest finds is not earlier than where it goes on from. */
  lemma ReturnedLater(cex: CronExpr, at: Stamp, x: Stamp, marked: set<Field>, dot: int)
    requires cex.Valid() && at.Valid() && x.Valid() && dot <= TmYear(at.day) && Forward(cex, at, x, dot)
    ensures dot <= TmYear(x.day)
    ensures var inner := Find(cex, x, dot);
      inner.Found? ==>
        && inner.at.Valid() && dot <= TmYear(inner.at.day)
        && (Lower(marked) ==> AtMonth(cex, inner.at, marked) && NotBefore(x, FindMonth(cex, inner.at, marked, dot)))
        && (marked <= {Second, Minute, HourOfDay}
            ==> AtDay(cex, inner.at, marked) && NotBefore(x, FindDay(cex, inner.at, marked, dot)))
        && (marked <= {Second, Minute}
            ==> AtHour(cex, inner.at, marked) && NotBefore(x, FindHour(cex, inner.at, marked, dot)))
  {
    hide Find, FindMonth, FindDay, FindHour, Forward, Settled, TmYear, AtHour, AtDay, AtMonth, Onward;
    ForwardYear(cex, at, x, dot);
    var inner := Find(cex, x, dot);
    Resumes(cex, at, x, dot, inner);
    if inner.Found? {
      Stages(cex, inner.at, marked);
    }
  }

  ghost predicate NotBefore(x: Stamp, r: SearchResult) {
    r.Found? ==> Time(x) <= Time(r.at)
  }

  lemma HourAgrees(cex: CronExpr, at: Stamp, marked: set<Field>, dot: int)
    requires cex.Valid() && at.Valid() && dot <= TmYear(at.day) && AtHour(cex, at, marked)
    ensures Agrees(cex, HourPass(cex, at, marked, dot), FindHour(cex, at, marked, dot), dot)
  {
    hide FieldStep, MonthOf, TmYear, Find, FindDay, DayPass, Matches, AtDay, Forward, Promises;
    HourMoves(cex, at, marked, dot);
    var h := FieldStep(cex.hours, at, HourOfDay, DayOfWeek, marked);
    if h.Some? {
      if h.value.moved {
        Returned(cex, at, h.value.at, marked, dot);
        ReturnedLater(cex, at, h.value.at, marked, dot);
      } else {
        DayAgrees(cex, at, marked + {HourOfDay}, dot);
      }
    }
  }

  lemma MinuteAgrees(cex: CronExpr, at: Stamp, marked: set<Field>, dot: int)
    requires cex.Valid() && at.Valid() && dot <= TmYear(at.day) && AtMinute(cex, at, marked)
    ensures var m := FieldStep(cex.minutes, at, Minute, HourOfDay, marked);
      Agrees(cex,
        if m.None? then PassResult.Threw
        else if m.value.moved then Restart(m.value.at)
        else HourPass(cex, m.value.at, marked + {Minute}, dot),
             FindMinute(cex, at, marked, dot), dot)
  {
    hide FieldStep, MonthOf, TmYear, Find, FindHour, HourPass, Matches, AtHour, Forward, Promises;
    MinuteMoves(cex, at, marked, dot);
    var m := FieldStep(cex.minutes, at, Minute, HourOfDay, marked);
    if m.Some? {
      if m.value.moved {
        Returned(cex, at, m.value.at, marked, dot);
        ReturnedLater(cex, at, m.value.at, marked, dot);
      } else {
        HourAgrees(cex, at, marked + {Minute}, dot);
      }
    }
  }

  lemma PassAgrees(cex: CronExpr, at: Stamp, dot: int)
    requires cex.Valid() && at.Valid() && dot <= TmYear(at.day)
    ensures Agrees(cex, Pass(cex, at, dot), Find(cex, at, dot), dot)
  {
    hide FieldStep, MonthOf, TmYear, FindMinute, HourPass, Agrees, Promises;
    SecondMoves(cex, at, dot);
    var s := FieldStep(cex.seconds, at, Second, Minute, {});
    if s.Some? {
      MinuteAgrees(cex, s.value.at, if s.value.moved then {} else {Second}, dot);
    } else {
      BothThrow(cex, dot);
    }
  }

  lemma BothThrow(cex: CronExpr, dot: int)
    requires cex.Valid()
    ensures Agrees(cex, PassResult.Threw, SearchResult.Threw, dot)
  {
  }

  /** With one day field unrestricted the recursive search is the loop of
      passes. */
  lemma {:induction false} FindIsSearch(cex: CronExpr, at: Stamp, dot: int)
    requires cex.Valid() && at.Valid() && OneDayField(cex) && dot <= TmYear(at.day)
    ensures Find(cex, at, dot) == Search(cex, at, dot)
    decreases MonthsLeft(at, dot), MinutesLeft(cex, at)
  {
    hide Pass, Find, Matches, MonthOf, TmYear, MonthsLeft, MinutesLeft, Promises, OneDayField;
    PassAgrees(cex, at, dot);
    if Pass(cex, at, dot).Restart? {
      RestartAdvances(cex, at, dot);
      FindIsSearch(cex, Pass(cex, at, dot).at, dot);
    }
  }

  /** A pass from a match ends at once. */
  lemma MatchIsDone(cex: CronExpr, at: Stamp, dot: int)
    requires cex.Valid() && at.Valid() && Matches(cex, at)
    ensures Pass(cex, at, dot) == Done(at)
  {
    hide MonthStart, MonthLength;
    Stays(cex.seconds, at, Second, Minute, {});
    Stays(cex.minutes, at, Minute, HourOfDay, {Second});
    Stays(cex.hours, at, HourOfDay, DayOfWeek, {Second, Minute});
    Stays(cex.months, at, Month, Year, {Second, Minute, HourOfDay, DayOfMonth});
    assert {Second} + {Minute} == {Second, Minute};
    assert {Second, Minute} + {HourOfDay} + {DayOfMonth} == {Second, Minute, HourOfDay, DayOfMonth};
  }

  // ----- The minute is the earliest -----

  /** The lengths a month with this number has. */
  predicate HasLength(m: int, n: int) {
    if m == 1 then n == 28 || n == 29 else if m in {3, 5, 8, 10} then n == 30 else n == 31
  }

  predicate AllowedDayUpTo(cex: CronExpr, n: int)
    requires cex.Valid()
  {
    exists d | 0 <= d < 31 && d < n :: cex.daysOfMonth[d]
  }

  predicate AllowedDayBeyond(cex: CronExpr, n: int)
    requires cex.Valid()
  {
    exists d | 0 <= d < 31 && n <= d :: cex.daysOfMonth[d]
  }

  /** No allowed month, with a month before it that is not allowed, has both
      an allowed day and, beyond its end, another one. */
  predicate MonthsFit(cex: CronExpr)
    requires cex.Valid()
  {
    forall m, n | 0 <= m < 12 && 28 <= n <= 31 && HasLength(m, n) && cex.months[m] && !cex.months[(m + 11) % 12] ::
      !(AllowedDayUpTo(cex, n) && AllowedDayBeyond(cex, n))
  }

  /** Minute `mu` satisfies every field but the second. */
  ghost predicate FullMatches(cex: CronExpr, mu: int)
    requires cex.Valid()
  {
    MinuteMatches(cex, mu) && MonthMatches(cex, mu / 1440)
  }

  ghost predicate NoneFullBetween(cex: CronExpr, a: int, b: int)
    requires cex.Valid()
  {
    forall mu | a <= mu < b :: !FullMatches(cex, mu)
  }

  /** The days between a day of a month that is not allowed and the landing
      of the month step hold no match. */
  lemma MonthGap(cex: CronExpr, mu: int, b: int)
    requires cex.Valid() && MonthsFit(cex) && DayMatches(cex, mu / 1440) && !MonthMatches(cex, mu / 1440)
    requires b <= MonthLands(cex, mu / 1440) * 1440
    ensures NoneFullBetween(cex, mu, b)
  {
    hide MonthStart, MonthLength, MinuteMatches, NextMonth, MonthsFit, DayMatches;
    var day := mu / 1440;
    var m := MonthOf(day);
    var n := NextMonth(cex, m);
    NextMonthIsNext(cex, m);
    forall nu | mu <= nu < b
      ensures !FullMatches(cex, nu)
    {
      MonthsAreMonotone(day, nu / 1440);
      var k := MonthOf(nu / 1440);
      if n + 1 < k {
        MonthStartsIncrease(n + 1, k);
      }
      if n < k {
        MonthStartsIncrease(n, k);
      }
      if k == n && MonthDay(day) > MonthLength(n) {
        NothingInShortMonth(cex, day, nu / 1440);
        NoMatchingMinute(cex, nu);
      }
    }
  }

  lemma NoMatchingMinute(cex: CronExpr, mu: int)
    requires cex.Valid() && !DayMatches(cex, mu / 1440)
    ensures !FullMatches(cex, mu)
  {
    hide DayMatches;
  }

  lemma LengthOfMonth(m: int)
    ensures HasLength(m % 12, MonthLength(m))
  {
  }

  /** With fitting months a month step that lands on the first of another
      month than the next allowed one has jumped over a month without a
      match. */
  lemma NothingInShortMonth(cex: CronExpr, day: int, d: int)
    requires cex.Valid() && MonthsFit(cex) && DayMatches(cex, day) && !MonthMatches(cex, day)
    requires var n := NextMonth(cex, MonthOf(day)); MonthDay(day) > MonthLength(n) && MonthOf(d) == n
    ensures !DayMatches(cex, d)
  {
    hide MonthStart, MonthLength, MonthOf, MonthDay, NextMonth, WeekDay, HasLength;
    var m := MonthOf(day);
    var n := NextMonth(cex, m);
    NextMonthIsNext(cex, m);
    LengthOfMonth(n);
    MonthBefore(n);
    assert !cex.months[(n - 1) % 12];
    assert AllowedDayBeyond(cex, MonthLength(n)) by { assert cex.daysOfMonth[MonthDay(day) - 1]; }
    MatchIsUpTo(cex, d);
  }

  lemma MatchIsUpTo(cex: CronExpr, d: int)
    requires cex.Valid()
    ensures DayMatches(cex, d) ==> AllowedDayUpTo(cex, MonthLength(MonthOf(d)))
  {
    hide MonthStart, MonthLength, MonthOf, WeekDay;
    if DayMatches(cex, d) {
      assert cex.daysOfMonth[MonthDay(d) - 1];
    }
  }

  lemma MonthBefore(n: int)
    ensures (n - 1) % 12 == (n % 12 + 11) % 12
  {
  }

  lemma FullMonths(cex: CronExpr, day: int)
    requires cex.Valid()
    ensures Full(cex.months) ==> MonthMatches(cex, day)
  {
  }

  /** No full match lies between the start of the search and where it ends;
      giving up, it has looked through all the years up to the cut-off. */
  lemma {:induction false} SearchSkipsNothing(cex: CronExpr, at: Stamp, dot: int)
    requires cex.Valid() && at.Valid() && OneDayField(cex) && dot <= TmYear(at.day) && MonthsFit(cex)
    ensures var r := Search(cex, at, dot);
      && (r.Found?
          ==> AfterSecond(cex, at) <= Minutes(r.at) && NoneFullBetween(cex, AfterSecond(cex, at), Minutes(r.at)))
      && (r.NotFound? ==> NoneFullBetween(cex, AfterSecond(cex, at), MonthStart(EndMonth(dot)) * 1440))
      && (Full(cex.months) ==> !r.NotFound?)
    decreases MonthsLeft(at, dot), MinutesLeft(cex, at)
  {
    hide Pass, MonthStart, MonthLength, DayMatches, MonthMatches, AfterSecond;
    hide MinuteMatches, MonthLands, MonthsFit, MonthsLeft, MinutesLeft;
    var mu := AfterSecond(cex, at);
    var r := Pass(cex, at, dot);
    PassGoes(cex, at, dot);
    OneDayPass(cex, at, dot);
    if r.GaveUp? {
      var a :| MonthLanding(cex, mu / 1440, a) && TooFar(a.day, dot);
      GivesUpLate(cex, at, a, dot);
      MonthGap(cex, mu, MonthStart(EndMonth(dot)) * 1440);
      FullMonths(cex, mu / 1440);
    } else if r.Restart? {
      RestartAdvances(cex, at, dot);
      RestartKeepsMinute(cex, at, r.at);
      if !NoneBetween(cex, mu, Minutes(r.at)) {
        MonthGap(cex, mu, Minutes(r.at));
      }
      SearchSkipsNothing(cex, r.at, dot);
    }
  }

  lemma GivesUpLate(cex: CronExpr, at: Stamp, a: Stamp, dot: int)
    requires cex.Valid() && at.Valid() && dot <= TmYear(at.day)
    requires var day := AfterSecond(cex, at) / 1440;
      !MonthMatches(cex, day) && a.day == MonthLands(cex, day) && TooFar(a.day, dot)
    ensures MonthStart(EndMonth(dot)) <= MonthLands(cex, AfterSecond(cex, at) / 1440)
  {
    hide MonthStart, MonthLength, AfterSecond, MonthLands;
    SecondIsForward(cex, at);
    LandsLater(cex, AfterSecond(cex, at) / 1440);
    MonthsAreMonotone(at.day, AfterSecond(cex, at) / 1440);
    var n := MonthOf(a.day);
    if EndMonth(dot) < n {
      MonthStartsIncrease(EndMonth(dot), n);
    }
  }

  // ----- The second -----

  function FirstSecond(cex: CronExpr): (v: nat)
    requires cex.Valid()
  {
    NextSetBit(cex.seconds, 0).value
  }

  /** Once a field has moved the second only ever is 0 or the first one. */
  lemma {:induction false} SearchEndsOnFirstSecond(cex: CronExpr, at: Stamp, dot: int)
    requires cex.Valid() && at.Valid() && OneDayField(cex) && dot <= TmYear(at.day)
    requires at.sec == 0 || at.sec == FirstSecond(cex)
    ensures Search(cex, at, dot).Found? ==> Search(cex, at, dot).at.sec == FirstSecond(cex)
    decreases MonthsLeft(at, dot), MinutesLeft(cex, at)
  {
    hide Pass, MonthOf, DayMatches, MonthsLeft, MinutesLeft, AfterSecond;
    PassGoes(cex, at, dot);
    OneDayPass(cex, at, dot);
    if Pass(cex, at, dot).Restart? {
      RestartAdvances(cex, at, dot);
      SearchEndsOnFirstSecond(cex, Pass(cex, at, dot).at, dot);
    }
  }

  /** The second moves on, within its minute, to an allowed one that is not
      the first; the minute is no match; and the first field that moves takes
      the search to a minute that is one, where it keeps the second. */
  ghost predicate LateSecond(cex: CronExpr, at: Stamp)
    requires cex.Valid() && at.Valid()
  {
    && !cex.seconds[at.sec] && NextSetBit(cex.seconds, at.sec).Some?
    && Target(cex.seconds, at.sec) != FirstSecond(cex)
    && !FullMatches(cex, Minutes(at)) && FullMatches(cex, FirstLanding(cex, Minutes(at)))
  }

  /** A pass that comes to a match of every field but the second does not go
      on from there. */
  lemma FullIsNotPassed(cex: CronExpr, at: Stamp, dot: int)
    requires cex.Valid() && at.Valid() && OneDayField(cex) && FullMatches(cex, AfterSecond(cex, at))
    ensures Pass(cex, at, dot).Done? || Pass(cex, at, dot).Threw?
  {
    hide Pass, AfterSecond, MinuteMatches, MonthMatches, DayMatches, OneDayField, MonthLands;
    PassGoes(cex, at, dot);
    OneDayPass(cex, at, dot);
  }

  lemma DoneIsFull(cex: CronExpr, at: Stamp, dot: int)
    requires cex.Valid() && at.Valid() && OneDayField(cex) && Pass(cex, at, dot).Done?
    ensures FullMatches(cex, AfterSecond(cex, at))
  {
    hide Pass, AfterSecond, Matches, FullMatches, OneDayField;
    OneDayPass(cex, at, dot);
    MatchIsFullMinute(cex, Pass(cex, at, dot).at);
  }

  lemma MatchIsFullMinute(cex: CronExpr, x: Stamp)
    requires cex.Valid() && x.Valid()
    ensures Matches(cex, x) <==> cex.seconds[x.sec] && FullMatches(cex, Minutes(x))
  {
    hide DayMatches, MonthMatches;
    MinuteParts(x);
  }

  /** The second the search ends on. */
  lemma SearchSecond(cex: CronExpr, at: Stamp, dot: int)
    requires cex.Valid() && at.Valid() && OneDayField(cex) && dot <= TmYear(at.day)
    ensures var r := Search(cex, at, dot);
      r.Found? ==>
        if Pass(cex, at, dot).Done? then
          Minutes(r.at) == AfterSecond(cex, at) && r.at.sec == Target(cex.seconds, at.sec) && !LateSecond(cex, at)
        else
          AfterSecond(cex, at) < Minutes(r.at)
          && (LateSecond(cex, at) <==> r.at.sec != FirstSecond(cex))
  {
    hide Pass, MonthOf, DayMatches, FullMatches, FirstLanding, NextSetBit, OneDayField, MonthsLeft, MinutesLeft;
    var p := Pass(cex, at, dot);
    PassGoes(cex, at, dot);
    OneDayPass(cex, at, dot);
    if p.Done? {
      DoneIsFull(cex, at, dot);
    } else if p.Restart? {
      RestartAdvances(cex, at, dot);
      RestartKeepsMinute(cex, at, p.at);
      PassLands(cex, at, dot);
      NotFullAtRestart(cex, at, dot);
      SecondAfterRestart(cex, p.at, dot);
    }
  }

  lemma NotFullAtRestart(cex: CronExpr, at: Stamp, dot: int)
    requires cex.Valid() && at.Valid() && OneDayField(cex) && Pass(cex, at, dot).Restart?
    ensures !FullMatches(cex, AfterSecond(cex, at))
  {
    hide Pass, AfterSecond, FullMatches, OneDayField;
    if FullMatches(cex, AfterSecond(cex, at)) {
      FullIsNotPassed(cex, at, dot);
    }
  }

  /** From where a pass restarts, the search ends on the first second, unless
      it is there already on another one. */
  lemma SecondAfterRestart(cex: CronExpr, a: Stamp, dot: int)
    requires cex.Valid() && a.Valid() && OneDayField(cex) && dot <= TmYear(a.day)
    requires a.sec == 0 || cex.seconds[a.sec]
    ensures var r := Search(cex, a, dot);
      r.Found? ==>
        && Minutes(a) <= Minutes(r.at)
        && (r.at.sec != FirstSecond(cex)
            <==> a.sec != 0 && a.sec != FirstSecond(cex) && FullMatches(cex, Minutes(a)))
  {
    hide Pass, MonthOf, DayMatches, FullMatches, NextSetBit, OneDayField, MonthsLeft, MinutesLeft, Matches;
    PassGoes(cex, a, dot);
    OneDayPass(cex, a, dot);
    SecondOkStays(cex, a);
    if a.sec == 0 || a.sec == FirstSecond(cex) {
      SearchEndsOnFirstSecond(cex, a, dot);
    } else {
      MatchIsFullMinute(cex, a);
      if FullMatches(cex, Minutes(a)) {
        MatchIsDone(cex, a, dot);
      } else if Pass(cex, a, dot).Done? {
        DoneIsFull(cex, a, dot);
      } else if Pass(cex, a, dot).Restart? {
        RestartAdvances(cex, a, dot);
        SearchEndsOnFirstSecond(cex, Pass(cex, a, dot).at, dot);
      }
    }
  }

  // ----- The instant is the earliest -----

  /** No instant from `at` on, but before `end`, matches. */
  ghost predicate EarliestFrom(cex: CronExpr, at: Stamp, end: int)
    requires cex.Valid() && at.Valid()
  {
    forall x: Stamp | x.Valid() && Time(at) <= Time(x) < end :: !Matches(cex, x)
  }

  /** Nothing matches before the second step's minute. */
  lemma NothingBeforeSecondStep(cex: CronExpr, at: Stamp, x: Stamp)
    requires cex.Valid() && at.Valid() && x.Valid() && Time(at) <= Time(x)
    requires Minutes(x) < AfterSecond(cex, at)
      || (Minutes(x) == AfterSecond(cex, at) && x.sec < Target(cex.seconds, at.sec))
    ensures !cex.seconds[x.sec]
  {
  }

  /** The search finds the earliest match from its start on, if and only if
      the second is not left late. */
  lemma SearchEarliest(cex: CronExpr, at: Stamp, dot: int)
    requires cex.Valid() && at.Valid() && OneDayField(cex) && dot <= TmYear(at.day) && MonthsFit(cex)
    ensures var r := Search(cex, at, dot);
      r.Found? ==> (EarliestFrom(cex, at, Time(r.at)) <==> !LateSecond(cex, at))
  {
    hide Pass, Search, MonthOf, DayMatches, MonthMatches, Matches, LateSecond, AfterSecond, FullMatches, MonthsFit;
    var r := Search(cex, at, dot);
    if r.Found? {
      SearchSkipsNothing(cex, at, dot);
      SearchSecond(cex, at, dot);
      SecondIsForward(cex, at);
      MatchIsFullMinute(cex, r.at);
      if LateSecond(cex, at) {
        var x := r.at.(sec := FirstSecond(cex));
        MatchIsFullMinute(cex, x);
        assert Time(at) <= Time(x) < Time(r.at);
        assert Matches(cex, x);
      } else {
        forall x: Stamp | x.Valid() && Time(at) <= Time(x) < Time(r.at)
          ensures !Matches(cex, x)
        {
          MatchIsFullMinute(cex, x);
          if Minutes(x) < AfterSecond(cex, at)
            || (Minutes(x) == AfterSecond(cex, at) && x.sec < Target(cex.seconds, at.sec)) {
            NothingBeforeSecondStep(cex, at, x);
          }
        }
      }
    }
  }

  /** A search that gives up has looked at every instant of the years up to
      four after the one it began in. */
  lemma SearchGivesUp(cex: CronExpr, at: Stamp, dot: int, x: Stamp)
    requires cex.Valid() && at.Valid() && OneDayField(cex) && dot <= TmYear(at.day) && MonthsFit(cex)
    requires x.Valid() && Time(at) <= Time(x) && TmYear(x.day) <= dot + 4
    ensures Search(cex, at, dot).NotFound? ==> !Matches(cex, x)
  {
    hide Pass, Search, MonthStart, DayMatches, MonthMatches, Matches, AfterSecond, FullMatches, MonthsFit;
    SearchSkipsNothing(cex, at, dot);
    MatchIsFullMinute(cex, x);
    if Minutes(x) < AfterSecond(cex, at) {
      NothingBeforeSecondStep(cex, at, x);
    } else if Search(cex, at, dot).NotFound? {
      var m := MonthOf(x.day);
      if m + 1 < EndMonth(dot) {
        MonthStartsIncrease(m + 1, EndMonth(dot));
      }
      assert x.day < MonthStart(EndMonth(dot));
    }
  }

  /** From 1970 on the search does not throw. */
  lemma {:induction false} SearchDoesNotThrow(cex: CronExpr, at: Stamp, dot: int)
    requires cex.Valid() && at.Valid() && OneDayField(cex) && dot <= TmYear(at.day) && at.day >= 0
    ensures !Search(cex, at, dot).Threw?
    decreases MonthsLeft(at, dot), MinutesLeft(cex, at)
  {
    hide Pass, MonthOf, DayMatches, MonthsLeft, MinutesLeft, AfterSecond;
    PassGoes(cex, at, dot);
    if Pass(cex, at, dot).Restart? {
      RestartAdvances(cex, at, dot);
      SearchDoesNotThrow(cex, Pass(cex, at, dot).at, dot);
    }
  }

  // ----- cron_next -----

  /** `localtime` of a time value. */
  function StampOf(t: int): (at: Stamp)
    ensures at.Valid() && Time(at) == t
  {
    Normal(0, 0, 0, t)
  }

  const INVALID_TIME := -1

  /** `cron_next` on a time value: search from it, and once more from the
      second after if that gives the time itself. `None` is the exception. */
  function CronNext(cex: CronExpr, t: int): Option<int>
    requires cex.Valid()
  {
    hide Find, MonthOf, TmYear, Promises;
    if t == INVALID_TIME then Some(INVALID_TIME)
    else
      match Find(cex, StampOf(t), TmYear(StampOf(t).day))
      case Threw => None
      case NotFound => Some(INVALID_TIME)
      case Found(a) =>
        if Time(a) == INVALID_TIME || Time(a) != t then Some(Time(a))
        else
          FoundIsValid(cex, StampOf(t), TmYear(StampOf(t).day));
          var next :- Checked(Add(a, Second, 1));
          match Find(cex, next, TmYear(next.day))
          case Threw => None
          case NotFound => Some(INVALID_TIME)
          case Found(b) => Some(Time(b))
  }

  lemma FoundIsValid(cex: CronExpr, at: Stamp, dot: int)
    requires cex.Valid() && at.Valid() && dot <= TmYear(at.day)
    ensures var r := Find(cex, at, dot);
      && (at.day >= 0 ==> !r.Threw?)
      && (r.Found? ==> r.at.Valid() && Time(at) <= Time(r.at) && Settled(cex, r.at))
  {
    hide Find, MonthOf, TmYear, Settled, Onward;
  }

  /** Where the search that decides the answer begins: at the time given,
      or a second later if that time is a match. */
  ghost function Start(cex: CronExpr, t: int): (at: Stamp)
    requires cex.Valid()
    ensures at.Valid()
  {
    if Matches(cex, StampOf(t)) then StampOf(t + 1) else StampOf(t)
  }

  lemma StartIsNear(cex: CronExpr, t: int)
    requires cex.Valid()
    ensures Time(Start(cex, t)) == t || Time(Start(cex, t)) == t + 1
    ensures Time(Start(cex, t)) == t ==> !Matches(cex, StampOf(t))
    ensures t >= 0 ==> Start(cex, t).day >= 0
  {
    hide Matches, StampOf;
  }

  /** For every valid expression a search finds its own start exactly if that
      is a match. */
  lemma FindsItsStart(cex: CronExpr, at: Stamp, dot: int)
    requires cex.Valid() && at.Valid() && dot <= TmYear(at.day)
    ensures var r := Find(cex, at, dot);
      r.Found? && r.at.Valid() && Time(r.at) == Time(at) <==> Matches(cex, at)
  {
    hide Pass, Find, MonthOf, TmYear, Matches, DayMatches, WalkEnd, Promises, NextSetBit, MonthMatches;
    PassAgrees(cex, at, dot);
    FoundIsValid(cex, at, dot);
    PassGoes(cex, at, dot);
    DoneIsMatch(cex, at, dot);
    if Matches(cex, at) {
      MatchIsDone(cex, at, dot);
    } else {
      var r := Find(cex, at, dot);
      if r.Found? && Time(r.at) == Time(at) {
        SameTimeSameStamp(r.at, at);
        SecondIsForward(cex, at);
        MinuteParts(at);
      }
    }
  }

  lemma OneSecondOn(a: Stamp)
    requires a.Valid()
    ensures Add(a, Second, 1) == StampOf(Time(a) + 1)
  {
    hide MonthStart, MonthOf;
    SameTimeSameStamp(Add(a, Second, 1), StampOf(Time(a) + 1));
  }

  /** For every valid expression and every time: an answer is strictly later
      than the time given. From 1970 on `cron_next` does not throw. */
  lemma CronNextIsLater(cex: CronExpr, t: int)
    requires cex.Valid()
    ensures var u, at := CronNext(cex, t), Start(cex, t);
      var r := Find(cex, at, TmYear(at.day));
      && (u.Some? && u.value != INVALID_TIME
          ==> t < u.value && r.Found? && r.at.Valid() && u.value == Time(r.at) && Settled(cex, r.at))
      && (t >= 0 ==> u.Some? && (u.value == INVALID_TIME <==> r.NotFound?))
  {
    hide Find, MonthOf, TmYear, Promises, Settled, Matches;
    var at := StampOf(t);
    var r := Find(cex, at, TmYear(at.day));
    FoundIsValid(cex, at, TmYear(at.day));
    FindsItsStart(cex, at, TmYear(at.day));
    if r.Found? && Time(r.at) == t {
      OneSecondOn(r.at);
      var next := StampOf(t + 1);
      FoundIsValid(cex, next, TmYear(next.day));
    }
  }

  /** With one day field unrestricted an answer is a match. */
  lemma CronNextIsLaterMatch(cex: CronExpr, t: int)
    requires cex.Valid() && OneDayField(cex)
    ensures var u, at := CronNext(cex, t), Start(cex, t);
      var r := Search(cex, at, TmYear(at.day));
      && (u.Some? && u.value != INVALID_TIME ==>
            r.Found? && u.value == Time(r.at) && t < u.value && Matches(cex, StampOf(u.value)))
      && (t >= 0 ==> u.Some? && (u.value == INVALID_TIME <==> r.NotFound?))
  {
    hide Find, Search, MonthOf, TmYear, Matches, Settled, CronNext, Start;
    CronNextIsLater(cex, t);
    var at := Start(cex, t);
    FindIsSearch(cex, at, TmYear(at.day));
    var r := Search(cex, at, TmYear(at.day));
    if r.Found? {
      SameTimeSameStamp(r.at, StampOf(Time(r.at)));
    }
  }

  /** No instant from `a` on, but before `end`, matches. */
  ghost predicate NoneMatches(cex: CronExpr, a: int, end: int)
    requires cex.Valid()
  {
    forall x | a <= x < end :: !Matches(cex, StampOf(x))
  }

  /** A match lies after a time, within the four years after its own. */
  ghost predicate MatchAhead(cex: CronExpr, t: int)
    requires cex.Valid()
  {
    exists x | t < x :: TmYear(StampOf(x).day) <= TmYear(StampOf(t).day) + 4 && Matches(cex, StampOf(x))
  }

  /** Then `cron_next` does not give up. */
  lemma AnswersIfAhead(cex: CronExpr, t: int)
    requires cex.Valid() && OneDayField(cex) && MonthsFit(cex) && t >= 0 && MatchAhead(cex, t)
    ensures CronNext(cex, t).Some? && CronNext(cex, t).value != INVALID_TIME
  {
    hide CronNext, Find, Matches, Search, Start, TmYear, StampOf, MonthsFit, OneDayField, Settled;
    CronNextIsLaterMatch(cex, t);
    var x :| t < x && TmYear(StampOf(x).day) <= TmYear(StampOf(t).day) + 4 && Matches(cex, StampOf(x));
    StartIsNear(cex, t);
    StartYear(cex, t);
    var at := Start(cex, t);
    SearchGivesUp(cex, at, TmYear(at.day), StampOf(x));
  }

  lemma StartYear(cex: CronExpr, t: int)
    requires cex.Valid()
    ensures TmYear(StampOf(t).day) <= TmYear(Start(cex, t).day)
  {
    hide Matches, MonthOf;
    MonthsAreMonotone(StampOf(t).day, Start(cex, t).day);
  }

  lemma InstantsAreStamps(cex: CronExpr, at: Stamp, end: int)
    requires cex.Valid() && at.Valid()
    ensures EarliestFrom(cex, at, end) <==> NoneMatches(cex, Time(at), end)
  {
    hide Matches;
    if NoneMatches(cex, Time(at), end) {
      forall x: Stamp | x.Valid() && Time(at) <= Time(x) < end
        ensures !Matches(cex, x)
      {
        SameTimeSameStamp(x, StampOf(Time(x)));
      }
    }
  }

  /** An answer is the earliest match strictly after the time given, if and
      only if the deciding search does not leave the second late. */
  lemma CronNextEarliest(cex: CronExpr, t: int)
    requires cex.Valid() && OneDayField(cex) && MonthsFit(cex) && t >= 0
    ensures CronNext(cex, t).Some?
    ensures CronNext(cex, t) != Some(INVALID_TIME) ==>
      var u := CronNext(cex, t).value;
      (NoneMatches(cex, t + 1, u) <==> !LateSecond(cex, Start(cex, t)))
  {
    hide Pass, Search, MonthOf, Matches, LateSecond, MonthsFit, CronNext, Find, Start, EarliestFrom, StampOf;
    StartIsNear(cex, t);
    CronNextIsLaterMatch(cex, t);
    var at := Start(cex, t);
    var u := CronNext(cex, t).value;
    SearchEarliest(cex, at, TmYear(at.day));
    InstantsAreStamps(cex, at, u);
  }

  /** A five-field expression: the second is 0. */
  ghost predicate FiveFields(cex: CronExpr)
    requires cex.Valid()
  {
    forall i | 0 <= i < 60 :: cex.seconds[i] <==> i == 0
  }

  /** For a five-field expression with every month allowed and one day field
      unrestricted, `cron_next` always answers, with the earliest match
      strictly after the time given. */
  lemma FiveFieldCronNext(cex: CronExpr, t: int)
    requires cex.Valid() && OneDayField(cex) && FiveFields(cex) && Full(cex.months) && t >= 0
    ensures CronNext(cex, t).Some?
    ensures var u := CronNext(cex, t).value;
      t < u && Matches(cex, StampOf(u)) && NoneMatches(cex, t + 1, u)
  {
    hide Pass, Search, MonthOf, Matches, CronNext;
    var at := Start(cex, t);
    CronNextIsLaterMatch(cex, t);
    SearchSkipsNothing(cex, at, TmYear(at.day));
    CronNextEarliest(cex, t);
  }
}
