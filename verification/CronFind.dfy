/** `find_next` as it is called, for every valid expression: whenever a field
    has moved it calls itself from the new time, and then goes on with the
    fields above the one that moved. It terminates, and never goes back. */
module CronFind {
  import opened Wrappers
  import opened Calendar
  import opened CronExpression
  import opened CronSteps

  // ----- What is left -----

  lemma SomeMatch(cex: CronExpr, mu: int)
    requires cex.Valid()
    ensures exists last :: mu <= last && MinuteMatches(cex, last)
  {
    hide DayMatches;
    var d := MatchingDayLater(cex, mu / 1440 + 1);
    var m :| 0 <= m < 60 && cex.minutes[m];
    var h :| 0 <= h < 24 && cex.hours[h];
    var at := Stamp(d, h, m, 0);
    MinuteParts(at);
    assert MinuteMatches(cex, Minutes(at));
  }

  ghost function FirstMatch(cex: CronExpr, mu: int, last: int): (r: int)
    requires cex.Valid() && mu <= last && MinuteMatches(cex, last)
    ensures mu <= r <= last && MinuteMatches(cex, r) && NoneBetween(cex, mu, r)
    decreases last - mu
  {
    if MinuteMatches(cex, mu) then mu else FirstMatch(cex, mu + 1, last)
  }

  /** The first minute from `mu` on that matches minute, hour and day. */
  ghost function NextMatch(cex: CronExpr, mu: int): (r: int)
    requires cex.Valid()
    ensures mu <= r && MinuteMatches(cex, r) && NoneBetween(cex, mu, r)
  {
    SomeMatch(cex, mu);
    var last :| mu <= last && MinuteMatches(cex, last);
    FirstMatch(cex, mu, last)
  }

  lemma SameNextMatch(cex: CronExpr, a: int, b: int)
    requires cex.Valid() && a <= b && NoneBetween(cex, a, b)
    ensures b <= NextMatch(cex, a) && NextMatch(cex, b) == NextMatch(cex, a)
  {
    hide MinuteMatches, NextMatch;
    var x, y := NextMatch(cex, a), NextMatch(cex, b);
    assert a <= x && MinuteMatches(cex, x);
  }

  /** The first month past the years the search looks at. */
  ghost function EndMonth(dot: int): int {
    12 * (dot + 1900 + 5)
  }

  /** The months the search may still go through, from a day on. */
  ghost function MonthsFrom(day: int, dot: int): nat {
    if MonthOf(day) < EndMonth(dot) then EndMonth(dot) - MonthOf(day) else 0
  }

  ghost function MonthsLeft(at: Stamp, dot: int): nat {
    MonthsFrom(at.day, dot)
  }

  /** The minutes up to the next match of minute, hour and day. */
  ghost function MinutesFrom(cex: CronExpr, mu: int): nat
    requires cex.Valid()
  {
    NextMatch(cex, mu) - mu
  }

  ghost function MinutesLeft(cex: CronExpr, at: Stamp): nat
    requires cex.Valid() && at.Valid()
  {
    MinutesFrom(cex, AfterSecond(cex, at))
  }

  // ----- Going onward -----

  /** From one minute to another without passing a match, unless a month the
      search looks at is used up. */
  ghost predicate Onward(cex: CronExpr, a: int, b: int, dot: int)
    requires cex.Valid()
  {
    a <= b && (MonthsFrom(b / 1440, dot) < MonthsFrom(a / 1440, dot) || NoneBetween(cex, a, b))
  }

  /** Fewer months, or no more months and fewer minutes. */
  ghost predicate Less(cex: CronExpr, a: int, b: int, dot: int)
    requires cex.Valid()
  {
    MonthsFrom(b / 1440, dot) < MonthsFrom(a / 1440, dot)
    || (MonthsFrom(b / 1440, dot) <= MonthsFrom(a / 1440, dot) && MinutesFrom(cex, b) < MinutesFrom(cex, a))
  }

  lemma LaterMonths(a: int, b: int, dot: int)
    requires a <= b
    ensures MonthsFrom(b / 1440, dot) <= MonthsFrom(a / 1440, dot)
    ensures TmYear(a / 1440) <= TmYear(b / 1440)
  {
    hide MonthOf;
    MonthsAreMonotone(a / 1440, b / 1440);
  }

  lemma OnwardLess(cex: CronExpr, a: int, b: int, dot: int)
    requires cex.Valid() && Onward(cex, a, b, dot) && a < b
    ensures Less(cex, a, b, dot)
  {
    hide MonthsFrom, NextMatch, MinuteMatches;
    LaterMonths(a, b, dot);
    if NoneBetween(cex, a, b) {
      SameNextMatch(cex, a, b);
    }
  }

  lemma OnwardTwice(cex: CronExpr, a: int, b: int, c: int, dot: int)
    requires cex.Valid() && Onward(cex, a, b, dot) && Onward(cex, b, c, dot)
    ensures Onward(cex, a, c, dot)
  {
    hide MonthsFrom, MinuteMatches;
    LaterMonths(a, b, dot);
    LaterMonths(b, c, dot);
  }

  lemma Stay(cex: CronExpr, a: int, dot: int)
    requires cex.Valid()
    ensures Onward(cex, a, a, dot)
  {
  }

  // ----- Between the steps -----

  /** After the first step the second is 0 or an allowed one. */
  ghost predicate SecondOk(cex: CronExpr, at: Stamp)
    requires cex.Valid() && at.Valid()
  {
    at.sec == 0 || cex.seconds[at.sec]
  }

  lemma SecondOkStays(cex: CronExpr, at: Stamp)
    requires cex.Valid() && at.Valid() && SecondOk(cex, at)
    ensures AfterSecond(cex, at) == Minutes(at)
  {
  }

  /** Every field below the month is in place, or the time is a midnight. */
  ghost predicate ClockSettled(cex: CronExpr, at: Stamp)
    requires cex.Valid() && at.Valid()
  {
    at.hour == at.min == 0 || (cex.seconds[at.sec] && MinuteMatches(cex, Minutes(at)))
  }

  /** Where a search that succeeds may end. */
  ghost predicate Settled(cex: CronExpr, at: Stamp)
    requires cex.Valid() && at.Valid()
  {
    SecondOk(cex, at) && ClockSettled(cex, at) && MonthMatches(cex, at.day)
  }

  /** A moved field: a later time, and less of the search to come. */
  ghost predicate Forward(cex: CronExpr, at: Stamp, x: Stamp, dot: int)
    requires cex.Valid() && at.Valid() && x.Valid()
  {
    && SecondOk(cex, x) && Minutes(at) < Minutes(x) && (at.day >= 0 ==> x.day >= 0)
    && Onward(cex, Minutes(at), Minutes(x), dot) && Less(cex, Minutes(at), Minutes(x), dot)
    && (dot <= TmYear(at.day) ==> dot <= TmYear(x.day))
  }

  lemma IsForward(cex: CronExpr, at: Stamp, x: Stamp, dot: int)
    requires cex.Valid() && at.Valid() && x.Valid()
    requires SecondOk(cex, x) && Minutes(at) < Minutes(x) && (at.day >= 0 ==> x.day >= 0)
    requires Onward(cex, Minutes(at), Minutes(x), dot)
    ensures Forward(cex, at, x, dot)
  {
    hide MonthsFrom, MonthOf, MinutesFrom, TmYear, NoneBetween;
    OnwardLess(cex, Minutes(at), Minutes(x), dot);
    MinuteParts(at);
    MinuteParts(x);
    LaterMonths(Minutes(at), Minutes(x), dot);
  }

  ghost predicate AtMinute(cex: CronExpr, at: Stamp, marked: set<Field>)
    requires cex.Valid() && at.Valid()
  {
    marked <= {Second} && cex.seconds[at.sec]
  }

  /** Before the hour step: the minute is in place and marked, or a search
      from a later time has come back. */
  ghost predicate AtHour(cex: CronExpr, at: Stamp, marked: set<Field>)
    requires cex.Valid() && at.Valid()
  {
    marked <= {Second, Minute}
    && (Settled(cex, at) || (Minute in marked && cex.seconds[at.sec] && cex.minutes[at.min]))
  }

  ghost predicate AtDay(cex: CronExpr, at: Stamp, marked: set<Field>)
    requires cex.Valid() && at.Valid()
  {
    marked <= {Second, Minute, HourOfDay}
    && (Settled(cex, at)
        || (Minute in marked && HourOfDay in marked && cex.seconds[at.sec] && cex.minutes[at.min]
            && cex.hours[at.hour]))
  }

  ghost predicate AtMonth(cex: CronExpr, at: Stamp, marked: set<Field>)
    requires cex.Valid() && at.Valid()
  {
    && Lower(marked) && SecondOk(cex, at) && ClockSettled(cex, at)
    && (MonthMatches(cex, at.day)
        || (DayOfMonth in marked && (Minute in marked || at.min == 0) && (HourOfDay in marked || at.hour == 0)))
  }

  lemma MinuteMoves(cex: CronExpr, at: Stamp, marked: set<Field>, dot: int)
    requires cex.Valid() && at.Valid() && AtMinute(cex, at, marked)
    ensures var r := FieldStep(cex.minutes, at, Minute, HourOfDay, marked);
      && (at.day >= 0 ==> r.Some?)
      && (r.Some? && r.value.moved ==> Forward(cex, at, r.value.at, dot))
      && (r.Some? && !r.value.moved ==> r.value.at == at && AtHour(cex, at, marked + {Minute}))
  {
    hide FieldStep, MonthsFrom, MonthOf, MinuteMatches, Settled, Forward;
    MinuteStep(cex, at, marked);
    var r := FieldStep(cex.minutes, at, Minute, HourOfDay, marked);
    if r.Some? && r.value.moved {
      IsForward(cex, at, r.value.at, dot);
    }
  }

  lemma HourMoves(cex: CronExpr, at: Stamp, marked: set<Field>, dot: int)
    requires cex.Valid() && at.Valid() && AtHour(cex, at, marked)
    ensures var r := FieldStep(cex.hours, at, HourOfDay, DayOfWeek, marked);
      && (at.day >= 0 ==> r.Some?)
      && (r.Some? && r.value.moved ==> Forward(cex, at, r.value.at, dot))
      && (r.Some? && !r.value.moved ==> r.value.at == at && AtDay(cex, at, marked + {HourOfDay}))
  {
    hide FieldStep, MonthsFrom, MonthOf, Forward, DayMatches;
    HourStep(cex, at, marked);
    var r := FieldStep(cex.hours, at, HourOfDay, DayOfWeek, marked);
    MinuteParts(at);
    if r.Some? && r.value.moved {
      IsForward(cex, at, r.value.at, dot);
    }
  }

  /** The walk stays, moves to a day with another number, or to one with the
      same number, unnoticed. */
  lemma DayMoves(cex: CronExpr, at: Stamp, marked: set<Field>, dot: int)
    requires cex.Valid() && at.Valid() && AtDay(cex, at, marked)
    ensures var r := DayWalk(cex, at, marked, 0);
      && (at.day >= 0 ==> r.Some? && r.value.day >= 0)
      && (r.Some? && r.value.day != at.day ==> Forward(cex, at, r.value, dot))
      && (r.Some? && r.value.day == at.day ==> r.value == at)
      && (r.Some? && MonthDay(r.value.day) == MonthDay(at.day) ==> AtMonth(cex, r.value, marked + {DayOfMonth}))
  {
    hide DayWalk, MonthsFrom, MonthOf, Forward, DayMatches, MonthStart, NoneBetween;
    DayWalkStops(cex, at, marked, 0);
    var r := DayWalk(cex, at, marked, 0);
    MinuteParts(at);
    if r.Some? && r.value.day != at.day {
      DayGap(cex, at, r.value);
      IsForward(cex, at, r.value, dot);
    }
  }

  lemma MonthMoves(cex: CronExpr, at: Stamp, marked: set<Field>, dot: int)
    requires cex.Valid() && at.Valid() && AtMonth(cex, at, marked) && dot <= TmYear(at.day)
    ensures var r := FieldStep(cex.months, at, Month, Year, marked);
      && (at.day >= 0 ==> r.Some?)
      && (r.Some? && r.value.moved && !TooFar(r.value.at.day, dot) ==> Forward(cex, at, r.value.at, dot))
      && (r.Some? && !r.value.moved ==> r.value.at == at && Settled(cex, at))
  {
    hide FieldStep, MonthStart, MonthOf, Forward, ClockSettled, MonthLength;
    if MonthMatches(cex, at.day) {
      assert FieldStep(cex.months, at, Month, Year, marked) == Some(Step(at, false)) by { MonthStays(cex, at, marked); }
    } else {
      MonthStepGoes(cex, at, marked);
      var r := FieldStep(cex.months, at, Month, Year, marked);
      if r.Some? && r.value.moved && !TooFar(r.value.at.day, dot) {
        MonthForward(cex, at, r.value.at, dot);
      }
    }
  }

  lemma MonthStays(cex: CronExpr, at: Stamp, marked: set<Field>)
    requires cex.Valid() && at.Valid() && MonthMatches(cex, at.day)
    ensures FieldStep(cex.months, at, Month, Year, marked) == Some(Step(at, false))
  {
    hide MonthStart, MonthOf;
  }

  lemma MonthForward(cex: CronExpr, at: Stamp, x: Stamp, dot: int)
    requires cex.Valid() && at.Valid() && x.Valid() && SecondOk(cex, x) && (at.day >= 0 ==> x.day >= 0)
    requires dot <= TmYear(at.day) && !TooFar(x.day, dot)
    requires var n := NextMonth(cex, MonthOf(at.day));
      !cex.months[MonthOf(at.day) % 12] && (x.day == MonthStart(n) || x.day == MonthStart(n + 1))
    ensures Forward(cex, at, x, dot)
  {
    hide MonthStart, NextMonth, Forward, NoneBetween, MonthLength;
    var n := NextMonth(cex, MonthOf(at.day));
    NextMonthIsNext(cex, MonthOf(at.day));
    DateRoundTrip(n, 1);
    DateRoundTrip(n + 1, 1);
    assert MonthOf(at.day) < MonthOf(x.day);
    if x.day <= at.day {
      MonthsAreMonotone(x.day, at.day);
    }
    MinuteParts(at);
    MinuteParts(x);
    IsForward(cex, at, x, dot);
  }

  // ----- The search -----

  datatype SearchResult = Threw | NotFound | Found(at: Stamp)

  /** What a search from a time promises: no exception from 1970 on, and an
      end that is not earlier and has settled. */
  ghost predicate Promises(cex: CronExpr, at: Stamp, mu: int, dot: int, r: SearchResult)
    requires cex.Valid() && at.Valid()
  {
    && (at.day >= 0 ==> !r.Threw?)
    && (r.Found? ==>
      && r.at.Valid() && Settled(cex, r.at) && Time(at) <= Time(r.at)
      && Onward(cex, mu, Minutes(r.at), dot) && dot <= TmYear(r.at.day) && (at.day >= 0 ==> r.at.day >= 0))
  }

  /** A search that went on from a later time keeps the promise. */
  lemma PromiseOnward(cex: CronExpr, at: Stamp, x: Stamp, dot: int, r: SearchResult)
    requires cex.Valid() && at.Valid() && x.Valid() && Forward(cex, at, x, dot) && Promises(cex, x, Minutes(x), dot, r)
    ensures Promises(cex, at, Minutes(at), dot, r)
  {
    hide Settled, Onward, Less, MonthOf;
    if r.Found? {
      OnwardTwice(cex, Minutes(at), Minutes(x), Minutes(r.at), dot);
    }
  }

  lemma PromiseHere(cex: CronExpr, at: Stamp, dot: int)
    requires cex.Valid() && at.Valid() && Settled(cex, at) && dot <= TmYear(at.day)
    ensures Promises(cex, at, Minutes(at), dot, Found(at))
  {
    Stay(cex, Minutes(at), dot);
  }

  /** From a search that has come back, the rest goes on. */
  lemma PromiseTwice(cex: CronExpr, at: Stamp, x: Stamp, dot: int, r: SearchResult)
    requires cex.Valid() && at.Valid() && x.Valid()
    requires Promises(cex, at, Minutes(at), dot, Found(x)) && Promises(cex, x, Minutes(x), dot, r)
    ensures Promises(cex, at, Minutes(at), dot, r)
  {
    hide Settled, Onward, MonthOf;
    if r.Found? {
      OnwardTwice(cex, Minutes(at), Minutes(x), Minutes(r.at), dot);
    }
  }

  /** What is left goes down to a later time, and does not go up to where a
      search has come back. */
  lemma Descends(cex: CronExpr, at: Stamp, x: Stamp, dot: int)
    requires cex.Valid() && at.Valid() && x.Valid() && Forward(cex, at, x, dot)
    ensures AfterSecond(cex, x) == Minutes(x) && Minutes(x) / 1440 == x.day && Minutes(at) / 1440 == at.day
    ensures MonthsFrom(x.day, dot) < MonthsFrom(at.day, dot)
      || (MonthsFrom(x.day, dot) == MonthsFrom(at.day, dot)
          && MinutesFrom(cex, Minutes(x)) < MinutesFrom(cex, Minutes(at)))
  {
    hide MonthsFrom, MinutesFrom, Onward;
    SecondOkStays(cex, x);
    MinuteParts(at);
    MinuteParts(x);
  }

  lemma ComesBack(cex: CronExpr, at: Stamp, a: Stamp, dot: int)
    requires cex.Valid() && at.Valid() && a.Valid() && Onward(cex, Minutes(at), Minutes(a), dot)
    ensures MonthsFrom(a.day, dot) < MonthsFrom(at.day, dot)
      || (MonthsFrom(a.day, dot) == MonthsFrom(at.day, dot)
          && MinutesFrom(cex, Minutes(a)) <= MinutesFrom(cex, Minutes(at)))
  {
    hide MonthsFrom, NextMatch, NoneBetween;
    MinuteParts(at);
    MinuteParts(a);
    LaterMonths(Minutes(at), Minutes(a), dot);
    if Minutes(at) < Minutes(a) {
      OnwardLess(cex, Minutes(at), Minutes(a), dot);
    }
  }

  /** When a search from a later time has come back. */
  lemma Resumes(cex: CronExpr, at: Stamp, x: Stamp, dot: int, inner: SearchResult)
    requires cex.Valid() && at.Valid() && x.Valid() && Forward(cex, at, x, dot)
    requires Promises(cex, x, AfterSecond(cex, x), dot, inner)
    ensures Promises(cex, at, Minutes(at), dot, inner)
    ensures inner.Found? ==>
      && inner.at.Valid() && dot <= TmYear(inner.at.day) && Settled(cex, inner.at)
      && (MonthsFrom(inner.at.day, dot) < MonthsFrom(at.day, dot)
          || (MonthsFrom(inner.at.day, dot) == MonthsFrom(at.day, dot)
              && MinutesFrom(cex, Minutes(inner.at)) <= MinutesFrom(cex, Minutes(at))))
  {
    hide Forward, MonthsFrom, MinutesFrom, Settled, TmYear, Onward;
    Descends(cex, at, x, dot);
    PromiseOnward(cex, at, x, dot, inner);
    if inner.Found? {
      ComesBack(cex, at, inner.at, dot);
    }
  }

  lemma Stages(cex: CronExpr, at: Stamp, marked: set<Field>)
    requires cex.Valid() && at.Valid() && Settled(cex, at)
    ensures marked <= {Second, Minute} ==> AtHour(cex, at, marked)
    ensures marked <= {Second, Minute, HourOfDay} ==> AtDay(cex, at, marked)
    ensures Lower(marked) ==> AtMonth(cex, at, marked)
  {
  }

  /** The first step. */
  lemma SecondMoves(cex: CronExpr, at: Stamp, dot: int)
    requires cex.Valid() && at.Valid()
    ensures var r := FieldStep(cex.seconds, at, Second, Minute, {});
      && (at.day >= 0 ==> r.Some? && r.value.at.day >= 0)
      && (r.Some? ==>
        && AtMinute(cex, r.value.at, if r.value.moved then {} else {Second})
        && Minutes(r.value.at) == AfterSecond(cex, at) && AfterSecond(cex, at) / 1440 == r.value.at.day
        && Time(at) <= Time(r.value.at)
        && (dot <= TmYear(at.day) ==> dot <= TmYear(r.value.at.day)))
  {
    hide FieldStep, MonthOf, TmYear;
    SecondStep(cex, at);
    var r := FieldStep(cex.seconds, at, Second, Minute, {});
    if r.Some? {
      MinuteParts(at);
      MinuteParts(r.value.at);
      LaterMonths(Minutes(at), Minutes(r.value.at), dot);
    }
  }

  lemma PromiseFirst(cex: CronExpr, at: Stamp, x: Stamp, dot: int, r: SearchResult)
    requires cex.Valid() && at.Valid() && x.Valid() && Time(at) <= Time(x) && (at.day >= 0 ==> x.day >= 0)
    requires Promises(cex, x, Minutes(x), dot, r)
    ensures Promises(cex, at, Minutes(x), dot, r)
  {
  }

  /** `find_next`. */
  function Find(cex: CronExpr, at: Stamp, dot: int): (r: SearchResult)
    requires cex.Valid() && at.Valid() && dot <= TmYear(at.day)
    ensures Promises(cex, at, AfterSecond(cex, at), dot, r)
    decreases MonthsFrom(AfterSecond(cex, at) / 1440, dot), MinutesFrom(cex, AfterSecond(cex, at)), 5
  {
    hide FieldStep, MonthsFrom, MinutesFrom, MonthOf, TmYear, AfterSecond, Onward, Settled;
    SecondMoves(cex, at, dot);
    match FieldStep(cex.seconds, at, Second, Minute, {})
    case None => SearchResult.Threw
    case Some(s) =>
      var r := FindMinute(cex, s.at, if s.moved then {} else {Second}, dot);
      PromiseFirst(cex, at, s.at, dot, r);
      r
  }

  /** From the minute step on. */
  function FindMinute(cex: CronExpr, at: Stamp, marked: set<Field>, dot: int): (r: SearchResult)
    requires cex.Valid() && at.Valid() && dot <= TmYear(at.day) && AtMinute(cex, at, marked)
    ensures Promises(cex, at, Minutes(at), dot, r)
    decreases MonthsFrom(at.day, dot), MinutesFrom(cex, Minutes(at)), 4
  {
    hide FieldStep, MonthsFrom, MinutesFrom, MonthOf, TmYear, AfterSecond, Onward, Settled, AtHour, Forward;
    MinuteMoves(cex, at, marked, dot);
    match FieldStep(cex.minutes, at, Minute, HourOfDay, marked)
    case None => SearchResult.Threw
    case Some(m) =>
      if !m.moved then FindHour(cex, at, marked + {Minute}, dot)
      else
        Descends(cex, at, m.at, dot);
        ForwardYear(cex, at, m.at, dot);
        var inner := Find(cex, m.at, dot);
        Resumes(cex, at, m.at, dot, inner);
        if !inner.Found? then inner
        else
          Stages(cex, inner.at, marked);
          var r := FindHour(cex, inner.at, marked, dot);
          PromiseTwice(cex, at, inner.at, dot, r);
          r
  }

  lemma ForwardYear(cex: CronExpr, at: Stamp, x: Stamp, dot: int)
    requires cex.Valid() && at.Valid() && x.Valid() && Forward(cex, at, x, dot) && dot <= TmYear(at.day)
    ensures dot <= TmYear(x.day)
  {
  }

  /** From the hour step on. */
  function FindHour(cex: CronExpr, at: Stamp, marked: set<Field>, dot: int): (r: SearchResult)
    requires cex.Valid() && at.Valid() && dot <= TmYear(at.day) && AtHour(cex, at, marked)
    ensures Promises(cex, at, Minutes(at), dot, r)
    decreases MonthsFrom(at.day, dot), MinutesFrom(cex, Minutes(at)), 3
  {
    hide FieldStep, MonthsFrom, MinutesFrom, MonthOf, TmYear, AfterSecond, Onward, Settled, AtDay, Forward;
    HourMoves(cex, at, marked, dot);
    match FieldStep(cex.hours, at, HourOfDay, DayOfWeek, marked)
    case None => SearchResult.Threw
    case Some(h) =>
      if !h.moved then FindDay(cex, at, marked + {HourOfDay}, dot)
      else
        Descends(cex, at, h.at, dot);
        ForwardYear(cex, at, h.at, dot);
        var inner := Find(cex, h.at, dot);
        Resumes(cex, at, h.at, dot, inner);
        if !inner.Found? then inner
        else
          Stages(cex, inner.at, marked);
          var r := FindDay(cex, inner.at, marked, dot);
          PromiseTwice(cex, at, inner.at, dot, r);
          r
  }

  /** From the day walk on. Whether the day moved is judged by its number in
      the month alone. */
  function FindDay(cex: CronExpr, at: Stamp, marked: set<Field>, dot: int): (r: SearchResult)
    requires cex.Valid() && at.Valid() && dot <= TmYear(at.day) && AtDay(cex, at, marked)
    ensures Promises(cex, at, Minutes(at), dot, r)
    decreases MonthsFrom(at.day, dot), MinutesFrom(cex, Minutes(at)), 2
  {
    hide DayWalk, MonthsFrom, MinutesFrom, MonthOf, MonthDay, TmYear, AfterSecond, Onward, Settled, AtMonth, Forward;
    DayMoves(cex, at, marked, dot);
    match DayWalk(cex, at, marked, 0)
    case None => SearchResult.Threw
    case Some(d) =>
      if MonthDay(d.day) == MonthDay(at.day) then
        Unnoticed(cex, at, d, dot);
        var r := FindMonth(cex, d, marked + {DayOfMonth}, dot);
        PromiseUnnoticed(cex, at, d, dot, r);
        r
      else
        Descends(cex, at, d, dot);
        ForwardYear(cex, at, d, dot);
        var inner := Find(cex, d, dot);
        Resumes(cex, at, d, dot, inner);
        if !inner.Found? then inner
        else
          Stages(cex, inner.at, marked);
          var r := FindMonth(cex, inner.at, marked, dot);
          PromiseTwice(cex, at, inner.at, dot, r);
          r
  }

  lemma Unnoticed(cex: CronExpr, at: Stamp, d: Stamp, dot: int)
    requires cex.Valid() && at.Valid() && d.Valid() && dot <= TmYear(at.day) && (d == at || Forward(cex, at, d, dot))
    ensures dot <= TmYear(d.day)
    ensures d == at || MonthsFrom(d.day, dot) < MonthsFrom(at.day, dot)
      || (MonthsFrom(d.day, dot) == MonthsFrom(at.day, dot)
          && MinutesFrom(cex, Minutes(d)) < MinutesFrom(cex, Minutes(at)))
  {
    hide MonthsFrom, MinutesFrom, Forward;
    if d != at {
      Descends(cex, at, d, dot);
      ForwardYear(cex, at, d, dot);
    }
  }

  lemma PromiseUnnoticed(cex: CronExpr, at: Stamp, d: Stamp, dot: int, r: SearchResult)
    requires cex.Valid() && at.Valid() && d.Valid() && (d == at || Forward(cex, at, d, dot))
    requires Promises(cex, d, Minutes(d), dot, r)
    ensures Promises(cex, at, Minutes(at), dot, r)
  {
    hide Forward, Promises;
    if d != at {
      PromiseOnward(cex, at, d, dot, r);
    }
  }

  /** From the month step on. */
  function FindMonth(cex: CronExpr, at: Stamp, marked: set<Field>, dot: int): (r: SearchResult)
    requires cex.Valid() && at.Valid() && dot <= TmYear(at.day) && AtMonth(cex, at, marked)
    ensures Promises(cex, at, Minutes(at), dot, r)
    decreases MonthsFrom(at.day, dot), MinutesFrom(cex, Minutes(at)), 1
  {
    hide FieldStep, MonthsFrom, MinutesFrom, MonthOf, TmYear, AfterSecond, Onward, Settled, Forward;
    MonthMoves(cex, at, marked, dot);
    match FieldStep(cex.months, at, Month, Year, marked)
    case None => SearchResult.Threw
    case Some(m) =>
      if !m.moved then
        PromiseHere(cex, at, dot);
        Found(m.at)
      else if TooFar(m.at.day, dot) then NotFound
      else
        Descends(cex, at, m.at, dot);
        ForwardYear(cex, at, m.at, dot);
        var r := Find(cex, m.at, dot);
        Resumes(cex, at, m.at, dot, r);
        r
  }

  // ----- One call, step by step -----

  /** No more is left from a time than from minute `mu`. */
  ghost predicate NotAbove(cex: CronExpr, mu: int, at: Stamp, dot: int)
    requires cex.Valid() && at.Valid()
  {
    MonthsFrom(at.day, dot) < MonthsFrom(mu / 1440, dot)
    || (MonthsFrom(at.day, dot) == MonthsFrom(mu / 1440, dot) && MinutesFrom(cex, Minutes(at)) <= MinutesFrom(cex, mu))
  }

  /** A call from a field that moved has less left. */
  lemma CallDescends(cex: CronExpr, mu: int, at: Stamp, x: Stamp, dot: int)
    requires cex.Valid() && at.Valid() && x.Valid() && NotAbove(cex, mu, at, dot) && Forward(cex, at, x, dot)
    ensures MonthsFrom(AfterSecond(cex, x) / 1440, dot) < MonthsFrom(mu / 1440, dot)
      || (MonthsFrom(AfterSecond(cex, x) / 1440, dot) == MonthsFrom(mu / 1440, dot)
          && MinutesFrom(cex, AfterSecond(cex, x)) < MinutesFrom(cex, mu))
  {
    hide MonthsFrom, MinutesFrom, Forward, AfterSecond;
    Descends(cex, at, x, dot);
  }

  /** A call from `x` has come back with a time the rest goes on from. */
  ghost predicate CameBack(cex: CronExpr, mu: int, dot: int, inner: SearchResult)
    requires cex.Valid()
  {
    inner.Found?
    ==> inner.at.Valid() && dot <= TmYear(inner.at.day) && Settled(cex, inner.at) && NotAbove(cex, mu, inner.at, dot)
  }

  lemma CallReturns(cex: CronExpr, mu: int, at: Stamp, x: Stamp, dot: int)
    requires cex.Valid() && at.Valid() && x.Valid() && NotAbove(cex, mu, at, dot) && Forward(cex, at, x, dot)
      && dot <= TmYear(at.day)
    ensures dot <= TmYear(x.day) && CameBack(cex, mu, dot, Find(cex, x, dot))
  {
    hide MonthsFrom, MinutesFrom, Forward, AfterSecond, Find, Settled, TmYear;
    ForwardYear(cex, at, x, dot);
    Resumes(cex, at, x, dot, Find(cex, x, dot));
  }

  lemma FirstUnrolls(cex: CronExpr, at: Stamp, dot: int)
    requires cex.Valid() && at.Valid() && dot <= TmYear(at.day)
    ensures var s := FieldStep(cex.seconds, at, Second, Minute, {});
      if s.None? then Find(cex, at, dot) == SearchResult.Threw
      else
        var x, marked := s.value.at, if s.value.moved then {} else {Second};
        && dot <= TmYear(x.day) && AtMinute(cex, x, marked) && NotAbove(cex, AfterSecond(cex, at), x, dot)
        && Find(cex, at, dot) == FindMinute(cex, x, marked, dot)
  {
    hide FieldStep, MonthsFrom, MinutesFrom, MonthOf, TmYear, AfterSecond, AtMinute, FindMinute, Promises;
    SecondMoves(cex, at, dot);
  }

  lemma MinuteUnrolls(cex: CronExpr, at: Stamp, marked: set<Field>, dot: int)
    requires cex.Valid() && at.Valid() && dot <= TmYear(at.day) && AtMinute(cex, at, marked)
    ensures var m := FieldStep(cex.minutes, at, Minute, HourOfDay, marked);
      var r := FindMinute(cex, at, marked, dot);
      if m.None? then r == SearchResult.Threw
      else if !m.value.moved then
        m.value.at == at && AtHour(cex, at, marked + {Minute}) && r == FindHour(cex, at, marked + {Minute}, dot)
      else
        && Forward(cex, at, m.value.at, dot) && dot <= TmYear(m.value.at.day)
        && var inner := Find(cex, m.value.at, dot);
           if !inner.Found? then r == inner
           else
             inner.at.Valid() && dot <= TmYear(inner.at.day) && AtHour(cex, inner.at, marked)
             && r == FindHour(cex, inner.at, marked, dot)
  {
    hide FieldStep, MonthsFrom, MinutesFrom, MonthOf, TmYear, AfterSecond;
    hide AtHour, Find, FindHour, Promises, Settled, Forward;
    MinuteMoves(cex, at, marked, dot);
    var m := FieldStep(cex.minutes, at, Minute, HourOfDay, marked);
    if m.Some? && m.value.moved {
      ForwardYear(cex, at, m.value.at, dot);
      GoesOn(cex, at, m.value.at, marked, dot);
    }
  }

  lemma GoesOn(cex: CronExpr, at: Stamp, x: Stamp, marked: set<Field>, dot: int)
    requires cex.Valid() && at.Valid() && x.Valid() && Forward(cex, at, x, dot) && dot <= TmYear(at.day)
    ensures dot <= TmYear(x.day)
    ensures var inner := Find(cex, x, dot);
      inner.Found? ==>
        && inner.at.Valid() && dot <= TmYear(inner.at.day)
        && (marked <= {Second, Minute} ==> AtHour(cex, inner.at, marked))
        && (marked <= {Second, Minute, HourOfDay} ==> AtDay(cex, inner.at, marked))
        && (Lower(marked) ==> AtMonth(cex, inner.at, marked))
  {
    hide Find, Forward, Settled, TmYear, AtHour, AtDay, AtMonth;
    ForwardYear(cex, at, x, dot);
    var inner := Find(cex, x, dot);
    Resumes(cex, at, x, dot, inner);
    if inner.Found? {
      Stages(cex, inner.at, marked);
    }
  }

  lemma HourUnrolls(cex: CronExpr, at: Stamp, marked: set<Field>, dot: int)
    requires cex.Valid() && at.Valid() && dot <= TmYear(at.day) && AtHour(cex, at, marked)
    ensures var h := FieldStep(cex.hours, at, HourOfDay, DayOfWeek, marked);
      var r := FindHour(cex, at, marked, dot);
      if h.None? then r == SearchResult.Threw
      else if !h.value.moved then
        h.value.at == at && AtDay(cex, at, marked + {HourOfDay}) && r == FindDay(cex, at, marked + {HourOfDay}, dot)
      else
        && Forward(cex, at, h.value.at, dot) && dot <= TmYear(h.value.at.day)
        && var inner := Find(cex, h.value.at, dot);
           if !inner.Found? then r == inner
           else
             inner.at.Valid() && dot <= TmYear(inner.at.day) && AtDay(cex, inner.at, marked)
             && r == FindDay(cex, inner.at, marked, dot)
  {
    hide FieldStep, MonthsFrom, MinutesFrom, MonthOf, TmYear, AfterSecond;
    hide AtDay, Find, FindDay, Promises, Settled, Forward;
    HourMoves(cex, at, marked, dot);
    var h := FieldStep(cex.hours, at, HourOfDay, DayOfWeek, marked);
    if h.Some? && h.value.moved {
      ForwardYear(cex, at, h.value.at, dot);
      GoesOn(cex, at, h.value.at, marked, dot);
    }
  }

  lemma DayUnrolls(cex: CronExpr, mu: int, at: Stamp, marked: set<Field>, dot: int)
    requires cex.Valid() && at.Valid() && dot <= TmYear(at.day) && AtDay(cex, at, marked) && NotAbove(cex, mu, at, dot)
    ensures var d := DayWalk(cex, at, marked, 0);
      var r := FindDay(cex, at, marked, dot);
      if d.None? then r == SearchResult.Threw
      else if MonthDay(d.value.day) == MonthDay(at.day) then
        && dot <= TmYear(d.value.day) && AtMonth(cex, d.value, marked + {DayOfMonth}) && NotAbove(cex, mu, d.value, dot)
        && r == FindMonth(cex, d.value, marked + {DayOfMonth}, dot)
      else
        && Forward(cex, at, d.value, dot) && dot <= TmYear(d.value.day)
        && var inner := Find(cex, d.value, dot);
           if !inner.Found? then r == inner
           else
             inner.at.Valid() && dot <= TmYear(inner.at.day) && AtMonth(cex, inner.at, marked)
             && r == FindMonth(cex, inner.at, marked, dot)
  {
    hide DayWalk, MonthsFrom, MinutesFrom, MonthOf, MonthDay, TmYear, AfterSecond;
    hide AtMonth, Find, FindMonth, Promises, Settled, Forward;
    DayMoves(cex, at, marked, dot);
    var d := DayWalk(cex, at, marked, 0);
    if d.Some? {
      if MonthDay(d.value.day) == MonthDay(at.day) {
        Unnoticed(cex, at, d.value, dot);
      } else {
        ForwardYear(cex, at, d.value, dot);
        GoesOn(cex, at, d.value, marked, dot);
      }
    }
  }

  lemma MonthUnrolls(cex: CronExpr, at: Stamp, marked: set<Field>, dot: int)
    requires cex.Valid() && at.Valid() && dot <= TmYear(at.day) && AtMonth(cex, at, marked)
    ensures var m := FieldStep(cex.months, at, Month, Year, marked);
      var r := FindMonth(cex, at, marked, dot);
      if m.None? then r == SearchResult.Threw
      else if !m.value.moved then m.value.at == at && r == Found(at)
      else if TooFar(m.value.at.day, dot) then r == NotFound
      else Forward(cex, at, m.value.at, dot) && dot <= TmYear(m.value.at.day) && r == Find(cex, m.value.at, dot)
  {
    hide FieldStep, MonthsFrom, MinutesFrom, MonthOf, TmYear, AfterSecond, Find, Promises, Settled, Forward;
    MonthMoves(cex, at, marked, dot);
    var m := FieldStep(cex.months, at, Month, Year, marked);
    if m.Some? && m.value.moved && !TooFar(m.value.at.day, dot) {
      ForwardYear(cex, at, m.value.at, dot);
    }
  }
}
