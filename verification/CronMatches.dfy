/** When the answers of the search satisfy all six fields, for every valid
    expression: unless some day moves without being noticed. */
module CronMatches {
  import opened Wrappers
  import opened Calendar
  import opened CalendarPeriod
  import opened CronExpression
  import opened CronSteps
  import opened CronPass
  import opened CronFind
  import opened CronSearch

  /** From this day the walk goes to another day with the same number in its
      month, in an allowed month, and that day does not match at midnight. */
  predicate UnnoticedOn(cex: CronExpr, day: int)
    requires cex.Valid()
  {
    var end := WalkEnd(cex, day);
    && end != day && MonthDay(end) == MonthDay(day) && MonthMatches(cex, end)
    && !(DayMatches(cex, end) && cex.hours[0] && cex.minutes[0] && cex.seconds[0])
  }

  /** From 1970 on no day moves without being noticed. */
  ghost predicate EveryDayNoticed(cex: CronExpr)
    requires cex.Valid()
  {
    forall day | 0 <= day :: !UnnoticedOn(cex, day)
  }

  lemma MatchRepeats(cex: CronExpr, day: int)
    requires cex.Valid()
    ensures DayMatches(cex, day + PERIOD_DAYS) == DayMatches(cex, day)
    ensures MonthMatches(cex, day + PERIOD_DAYS) == MonthMatches(cex, day)
    ensures MonthDay(day + PERIOD_DAYS) == MonthDay(day)
  {
    hide MonthOf, MonthDay, WeekDay;
    FourCenturies(day);
    SameMonthNumber(MonthOf(day));
  }

  lemma SameMonthNumber(m: int)
    ensures (m + PERIOD_MONTHS) % 12 == m % 12
  {
  }

  lemma {:induction false} WalkRepeats(cex: CronExpr, day: int, count: nat)
    requires cex.Valid() && count <= MAX_DAY_STEPS
    ensures WalkFrom(cex, day + PERIOD_DAYS, count) == WalkFrom(cex, day, count) + PERIOD_DAYS
    decreases MAX_DAY_STEPS - count
  {
    hide DayMatches, MonthMatches, MonthDay;
    MatchRepeats(cex, day);
    if !DayMatches(cex, day) && count < MAX_DAY_STEPS {
      WalkRepeats(cex, day + 1, count + 1);
    }
  }

  lemma UnnoticedRepeats(cex: CronExpr, day: int)
    requires cex.Valid()
    ensures UnnoticedOn(cex, day + PERIOD_DAYS) <==> UnnoticedOn(cex, day)
  {
    hide DayMatches, MonthMatches, MonthDay, WalkFrom;
    WalkRepeats(cex, day, 0);
    MatchRepeats(cex, day);
    MatchRepeats(cex, WalkEnd(cex, day));
  }

  /** Four hundred years decide it. */
  lemma {:induction false} UnnoticedSoon(cex: CronExpr, day: int)
    requires cex.Valid() && day >= 0 && UnnoticedOn(cex, day)
    ensures exists d | 0 <= d < PERIOD_DAYS :: UnnoticedOn(cex, d)
    decreases day
  {
    hide UnnoticedOn;
    if day >= PERIOD_DAYS {
      UnnoticedRepeats(cex, day - PERIOD_DAYS);
      UnnoticedSoon(cex, day - PERIOD_DAYS);
    }
  }

  lemma NoticedInFourCenturies(cex: CronExpr)
    requires cex.Valid()
    ensures EveryDayNoticed(cex) <==> forall day | 0 <= day < PERIOD_DAYS :: !UnnoticedOn(cex, day)
  {
    hide UnnoticedOn;
    if !EveryDayNoticed(cex) {
      var day :| 0 <= day && UnnoticedOn(cex, day);
      UnnoticedSoon(cex, day);
    }
  }

  /** With one day field unrestricted every day is noticed. */
  lemma OneDayNoticed(cex: CronExpr)
    requires cex.Valid() && OneDayField(cex)
    ensures EveryDayNoticed(cex)
  {
    hide DayWalk, WalkEnd, MonthOf, MonthDay, DayMatches, MonthMatches, OneDayField;
    forall day | 0 <= day
      ensures !UnnoticedOn(cex, day)
    {
      var at := Stamp(day, 0, 0, 0);
      DayWalkStops(cex, at, {}, 0);
      WalkIsWalkEnd(cex, at);
      DayWalkFinds(cex, at, {});
    }
  }

  lemma WalkIsWalkEnd(cex: CronExpr, at: Stamp)
    requires cex.Valid() && at.Valid()
    ensures DayWalk(cex, at, {}, 0).Some? ==> DayWalk(cex, at, {}, 0).value.day == WalkEnd(cex, at.day)
  {
    hide DayWalk, DayMatches;
    DayWalkEnds(cex, at, {}, 0);
  }

  // ----- A restart has less left -----

  /** Less is left from a restart than from minute `mu`. */
  ghost predicate Below(cex: CronExpr, mu: int, x: Stamp, dot: int)
    requires cex.Valid()
  {
    && x.Valid() && dot <= TmYear(x.day)
    && (MonthsFrom(AfterSecond(cex, x) / 1440, dot) < MonthsFrom(mu / 1440, dot)
        || (MonthsFrom(AfterSecond(cex, x) / 1440, dot) == MonthsFrom(mu / 1440, dot)
            && MinutesFrom(cex, AfterSecond(cex, x)) < MinutesFrom(cex, mu)))
  }

  lemma MovedBelow(cex: CronExpr, mu: int, at: Stamp, x: Stamp, dot: int)
    requires cex.Valid() && at.Valid() && x.Valid() && NotAbove(cex, mu, at, dot) && Forward(cex, at, x, dot)
      && dot <= TmYear(at.day)
    ensures Below(cex, mu, x, dot)
  {
    hide MonthsFrom, MinutesFrom, Forward, AfterSecond, NotAbove, TmYear;
    CallDescends(cex, mu, at, x, dot);
    ForwardYear(cex, at, x, dot);
  }

  ghost predicate RestartsBelow(cex: CronExpr, mu: int, p: PassResult, dot: int)
    requires cex.Valid()
  {
    p.Restart? ==> Below(cex, mu, p.at, dot)
  }

  lemma MonthBelow(cex: CronExpr, mu: int, at: Stamp, marked: set<Field>, dot: int)
    requires cex.Valid() && at.Valid() && dot <= TmYear(at.day) && AtMonth(cex, at, marked)
      && NotAbove(cex, mu, at, dot)
    ensures RestartsBelow(cex, mu, MonthPass(cex, at, marked, dot), dot)
  {
    hide FieldStep, AtMonth, NotAbove, Forward, Below, TmYear;
    MonthMoves(cex, at, marked, dot);
    var m := FieldStep(cex.months, at, Month, Year, marked);
    if m.Some? && m.value.moved && !TooFar(m.value.at.day, dot) {
      MovedBelow(cex, mu, at, m.value.at, dot);
    }
  }

  lemma DayBelow(cex: CronExpr, mu: int, at: Stamp, marked: set<Field>, dot: int)
    requires cex.Valid() && at.Valid() && dot <= TmYear(at.day) && AtDay(cex, at, marked) && NotAbove(cex, mu, at, dot)
    ensures RestartsBelow(cex, mu, DayPass(cex, at, marked, dot), dot)
  {
    hide DayWalk, MonthPass, AtMonth, NotAbove, Forward, Below, TmYear, MonthDay, AtDay, FindDay, FindMonth, Find;
    DayMoves(cex, at, marked, dot);
    DayUnrolls(cex, mu, at, marked, dot);
    var d := DayWalk(cex, at, marked, 0);
    if d.Some? {
      if MonthDay(d.value.day) == MonthDay(at.day) {
        MonthBelow(cex, mu, d.value, marked + {DayOfMonth}, dot);
      } else {
        MovedBelow(cex, mu, at, d.value, dot);
      }
    }
  }

  lemma HourBelow(cex: CronExpr, mu: int, at: Stamp, marked: set<Field>, dot: int)
    requires cex.Valid() && at.Valid() && dot <= TmYear(at.day) && AtHour(cex, at, marked) && NotAbove(cex, mu, at, dot)
    ensures RestartsBelow(cex, mu, HourPass(cex, at, marked, dot), dot)
  {
    hide FieldStep, DayPass, NotAbove, Forward, Below, TmYear, AtHour, AtDay;
    HourMoves(cex, at, marked, dot);
    var h := FieldStep(cex.hours, at, HourOfDay, DayOfWeek, marked);
    if h.Some? {
      if h.value.moved {
        MovedBelow(cex, mu, at, h.value.at, dot);
      } else {
        DayBelow(cex, mu, at, marked + {HourOfDay}, dot);
      }
    }
  }

  /** For every valid expression a restart has less of the search to come. */
  lemma RestartDescends(cex: CronExpr, at: Stamp, dot: int)
    requires cex.Valid() && at.Valid() && dot <= TmYear(at.day)
    ensures RestartsBelow(cex, AfterSecond(cex, at), Pass(cex, at, dot), dot)
  {
    hide FieldStep, HourPass, NotAbove, Forward, Below, TmYear, AtHour, AtMinute, AfterSecond;
    SecondMoves(cex, at, dot);
    var s := FieldStep(cex.seconds, at, Second, Minute, {});
    if s.Some? {
      var mu, x, marked := AfterSecond(cex, at), s.value.at, if s.value.moved then {} else {Second};
      Itself(cex, x, dot);
      MinuteMoves(cex, x, marked, dot);
      var m := FieldStep(cex.minutes, x, Minute, HourOfDay, marked);
      if m.Some? {
        if m.value.moved {
          MovedBelow(cex, mu, x, m.value.at, dot);
        } else {
          HourBelow(cex, mu, x, marked + {Minute}, dot);
        }
      }
    }
  }

  lemma Itself(cex: CronExpr, x: Stamp, dot: int)
    requires cex.Valid() && x.Valid()
    ensures NotAbove(cex, Minutes(x), x, dot)
  {
    hide MonthsFrom, MinutesFrom;
    MinuteParts(x);
  }

  // ----- The answers -----

  ghost predicate AnswersWithMatch(cex: CronExpr, at: Stamp, dot: int)
    requires cex.Valid() && at.Valid() && dot <= TmYear(at.day)
  {
    var r := Find(cex, at, dot);
    r.Found? ==> r.at.Valid() && Matches(cex, r.at)
  }

  lemma NoticedDone(cex: CronExpr, at: Stamp, dot: int)
    requires cex.Valid() && at.Valid() && at.day >= 0 && EveryDayNoticed(cex) && Pass(cex, at, dot).Done?
    ensures Matches(cex, Pass(cex, at, dot).at)
  {
    hide Pass, Matches, WalkEnd, MonthMatches, DayMatches, MonthDay;
    DoneIsMatch(cex, at, dot);
    SecondIsForward(cex, at);
    var day := AfterSecond(cex, at) / 1440;
    assert day >= 0 && !UnnoticedOn(cex, day);
  }

  /** If every day is noticed, every answer is a match. */
  lemma {:induction false} NoticedAnswers(cex: CronExpr, at: Stamp, dot: int)
    requires cex.Valid() && at.Valid() && dot <= TmYear(at.day) && at.day >= 0 && EveryDayNoticed(cex)
    ensures AnswersWithMatch(cex, at, dot)
    decreases MonthsFrom(AfterSecond(cex, at) / 1440, dot), MinutesFrom(cex, AfterSecond(cex, at))
  {
    hide Pass, Find, Matches, TmYear, MonthsFrom, MinutesFrom, AfterSecond, EveryDayNoticed, Promises;
    PassGoes(cex, at, dot);
    PassAgrees(cex, at, dot);
    var p := Pass(cex, at, dot);
    if p.Done? {
      NoticedDone(cex, at, dot);
    } else if p.Restart? {
      RestartDescends(cex, at, dot);
      NoticedAnswers(cex, p.at, dot);
    }
  }

  /** The first allowed time of a day. */
  function FirstOf(cex: CronExpr, day: int): (at: Stamp)
    requires cex.Valid()
    ensures at.Valid() && at.day == day && cex.hours[at.hour] && cex.minutes[at.min] && cex.seconds[at.sec]
  {
    Stamp(day, Target(cex.hours, 0), Target(cex.minutes, 0), Target(cex.seconds, 0))
  }

  /** From the first allowed time of a day that moves unnoticed, the search
      answers with a midnight that is no match. */
  lemma UnnoticedAnswer(cex: CronExpr, day: int)
    requires cex.Valid() && day >= 0 && UnnoticedOn(cex, day)
    ensures var a := Stamp(WalkEnd(cex, day), 0, 0, 0);
      Find(cex, FirstOf(cex, day), TmYear(day)) == Found(a) && !Matches(cex, a)
    ensures !Matches(cex, FirstOf(cex, day))
  {
    hide Pass, Find, MonthOf, TmYear, WalkEnd, MonthDay, MonthMatches, DayMatches, FirstOf;
    UnnoticedPass(cex, day);
    PassAgrees(cex, FirstOf(cex, day), TmYear(day));
    UnnoticedNoMatch(cex, day);
  }

  lemma UnnoticedNoMatch(cex: CronExpr, day: int)
    requires cex.Valid() && UnnoticedOn(cex, day)
    ensures !DayMatches(cex, day)
  {
    hide MonthOf, MonthDay;
  }

  lemma UnnoticedPass(cex: CronExpr, day: int)
    requires cex.Valid() && day >= 0 && UnnoticedOn(cex, day)
    ensures Pass(cex, FirstOf(cex, day), TmYear(day)) == Done(Stamp(WalkEnd(cex, day), 0, 0, 0))
  {
    hide MonthOf, MonthDay, DayWalk, FieldStep, TmYear, MonthMatches, DayMatches, FirstOf;
    var at := FirstOf(cex, day);
    Stays(cex.seconds, at, Second, Minute, {});
    Stays(cex.minutes, at, Minute, HourOfDay, {Second});
    Stays(cex.hours, at, HourOfDay, DayOfWeek, {Second} + {Minute});
    var marked := {Second} + {Minute} + {HourOfDay};
    DayWalkStops(cex, at, marked, 0);
    DayWalkEnds(cex, at, marked, 0);
    var d := DayWalk(cex, at, marked, 0).value;
    assert d == Stamp(WalkEnd(cex, day), 0, 0, 0);
    MonthStays(cex, d, marked + {DayOfMonth});
  }

  /** From 1970 on every answer of the search is a match, if and only if every
      day is noticed. */
  lemma AnswersMatch(cex: CronExpr)
    requires cex.Valid()
    ensures (forall at: Stamp | at.Valid() && at.day >= 0 :: AnswersWithMatch(cex, at, TmYear(at.day)))
      <==> EveryDayNoticed(cex)
  {
    hide AnswersWithMatch, UnnoticedOn, TmYear, Find, Matches, WalkEnd, FirstOf;
    if EveryDayNoticed(cex) {
      forall at: Stamp | at.Valid() && at.day >= 0
        ensures AnswersWithMatch(cex, at, TmYear(at.day))
      {
        NoticedAnswers(cex, at, TmYear(at.day));
      }
    } else {
      var day :| 0 <= day && UnnoticedOn(cex, day);
      UnnoticedAnswer(cex, day);
      WrongAnswer(cex, FirstOf(cex, day), Stamp(WalkEnd(cex, day), 0, 0, 0));
    }
  }

  lemma WrongAnswer(cex: CronExpr, at: Stamp, a: Stamp)
    requires cex.Valid() && at.Valid() && a.Valid() && Find(cex, at, TmYear(at.day)) == Found(a) && !Matches(cex, a)
    ensures !AnswersWithMatch(cex, at, TmYear(at.day))
  {
    hide Find, Matches, TmYear;
  }

  /** An answer of `cron_next` is a match. */
  ghost predicate NextIsMatch(cex: CronExpr, t: int)
    requires cex.Valid()
  {
    CronNext(cex, t).Some? && CronNext(cex, t).value != INVALID_TIME ==> Matches(cex, StampOf(CronNext(cex, t).value))
  }

  lemma SameStamp(at: Stamp)
    requires at.Valid()
    ensures StampOf(Time(at)) == at
  {
    hide StampOf;
    SameTimeSameStamp(StampOf(Time(at)), at);
  }

  lemma NextIsAnswer(cex: CronExpr, t: int)
    requires cex.Valid() && t >= 0
    ensures var at := Start(cex, t); AnswersWithMatch(cex, at, TmYear(at.day)) <==> NextIsMatch(cex, t)
  {
    hide Find, Matches, TmYear, CronNext, Start, Settled, StampOf;
    var at := Start(cex, t);
    CronNextIsLater(cex, t);
    FoundIsValid(cex, at, TmYear(at.day));
    var r := Find(cex, at, TmYear(at.day));
    if r.Found? {
      SameStamp(r.at);
    }
  }

  /** And so for `cron_next`: from 1970 on its answers satisfy all six fields,
      if and only if every day is noticed. */
  lemma NextMatches(cex: CronExpr)
    requires cex.Valid()
    ensures (forall t | 0 <= t :: NextIsMatch(cex, t)) <==> EveryDayNoticed(cex)
  {
    hide NextIsMatch, AnswersWithMatch, UnnoticedOn, TmYear, Find, Matches, WalkEnd, FirstOf, Start, StampOf;
    if EveryDayNoticed(cex) {
      forall t | 0 <= t
        ensures NextIsMatch(cex, t)
      {
        StartIsNear(cex, t);
        NoticedAnswers(cex, Start(cex, t), TmYear(Start(cex, t).day));
        NextIsAnswer(cex, t);
      }
    } else {
      var day :| 0 <= day && UnnoticedOn(cex, day);
      var at := FirstOf(cex, day);
      UnnoticedAnswer(cex, day);
      WrongAnswer(cex, at, Stamp(WalkEnd(cex, day), 0, 0, 0));
      SameStamp(at);
      StartsThere(cex, at);
      NextIsAnswer(cex, Time(at));
    }
  }

  lemma StartsThere(cex: CronExpr, at: Stamp)
    requires cex.Valid() && at.Valid() && !Matches(cex, at) && at.day >= 0
    ensures Time(at) >= 0 && Start(cex, Time(at)) == at
  {
    hide Matches, StampOf;
    SameStamp(at);
  }
}
