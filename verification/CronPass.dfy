/** What one pass of the cron search achieves, for every valid expression. */
module CronPass {
  import opened Wrappers
  import opened Calendar
  import opened CronExpression
  import opened CronSteps

  /** The second a moved field leaves behind: a second that was allowed from
      the start is reset, one that moved is kept. */
  ghost function RestartSecond(cex: CronExpr, at: Stamp): int
    requires cex.Valid() && at.Valid()
  {
    if cex.seconds[at.sec] then 0 else Target(cex.seconds, at.sec)
  }

  /** Where a month step that leaves `day` lands. */
  ghost predicate MonthLanding(cex: CronExpr, day: int, a: Stamp)
    requires cex.Valid()
  {
    !MonthMatches(cex, day) && a.Valid() && a.hour == a.min == 0 && a.day == MonthLands(cex, day)
  }

  /** The search leaves the years it looks at by stepping on from `day`. */
  ghost predicate LeavesYears(cex: CronExpr, day: int, dot: int)
    requires cex.Valid()
  {
    exists a :: MonthLanding(cex, day, a) && TooFar(a.day, dot)
  }

  lemma MonthPassGoes(cex: CronExpr, at: Stamp, marked: set<Field>, dot: int)
    requires cex.Valid() && at.Valid() && Lower(marked) && {Minute, HourOfDay, DayOfMonth} <= marked
    ensures var r := MonthPass(cex, at, marked, dot);
      && (at.day >= 0 ==> !r.Threw? && (r.Restart? ==> r.at.day >= 0))
      && (r.Done? ==> r.at == at && MonthMatches(cex, at.day))
      && (r.GaveUp? ==> LeavesYears(cex, at.day, dot))
      && (r.Restart? ==>
        && MonthLanding(cex, at.day, r.at) && !TooFar(r.at.day, dot)
        && MonthOf(at.day) < MonthOf(r.at.day) && Minutes(at) < Minutes(r.at)
        && r.at.sec == (if Second in marked then 0 else at.sec))
  {
    hide FieldStep, MonthStart, MonthLength, MonthLands, MonthOf;
    MonthStepGoes(cex, at, marked);
    var m := FieldStep(cex.months, at, Month, Year, marked);
    if m.Some? && m.value.moved {
      assert MonthLanding(cex, at.day, m.value.at);
      LandsLater(cex, at.day);
    }
  }

  lemma LandsLater(cex: CronExpr, day: int)
    requires cex.Valid() && !MonthMatches(cex, day)
    ensures day < MonthLands(cex, day) && MonthOf(day) < MonthOf(MonthLands(cex, day))
  {
    hide MonthStart, MonthLength, NextMonth;
    var n, a := NextMonth(cex, MonthOf(day)), MonthLands(cex, day);
    NextMonthIsNext(cex, MonthOf(day));
    StartsItsMonth(n);
    StartsItsMonth(n + 1);
    if a <= day {
      MonthsAreMonotone(a, day);
    }
  }

  lemma StartsItsMonth(m: int)
    ensures MonthOf(MonthStart(m)) == m
  {
    hide MonthStart;
    DateRoundTrip(m, 1);
  }

  lemma DayPassGoes(cex: CronExpr, at: Stamp, marked: set<Field>, dot: int)
    requires cex.Valid() && at.Valid() && {Minute, HourOfDay} <= marked <= {Second, Minute, HourOfDay}
    ensures var r := DayPass(cex, at, marked, dot);
      var sec := if Second in marked then 0 else at.sec;
      && (at.day >= 0 ==> !r.Threw? && (r.Restart? ==> r.at.day >= 0))
      && (r.Restart? ==> Minutes(at) < Minutes(r.at) && r.at.sec == sec)
      && (r.Done? ==>
        && MonthMatches(cex, r.at.day) && r.at.day == WalkEnd(cex, at.day)
        && ((r.at == at && DayMatches(cex, at.day))
            || (at.day < r.at.day && MonthDay(r.at.day) == MonthDay(at.day) && !DayMatches(cex, at.day)
                && r.at == Stamp(r.at.day, 0, 0, sec))))
  {
    hide DayWalk, MonthPass, MonthStart, MonthLength;
    DayWalkStops(cex, at, marked, 0);
    DayWalkEnds(cex, at, marked, 0);
    var w := DayWalk(cex, at, marked, 0);
    if w.Some? {
      var d := w.value;
      if MonthDay(d.day) == MonthDay(at.day) {
        MonthPassGoes(cex, d, marked + {DayOfMonth}, dot);
      }
    }
  }

  /** A restart goes on from a strictly later minute, a finished pass has not
      gone back, and from 1970 on no pass throws. This holds of every
      expression. */
  lemma PassGoes(cex: CronExpr, at: Stamp, dot: int)
    requires cex.Valid() && at.Valid()
    ensures var r := Pass(cex, at, dot);
      && (at.day >= 0 ==> !r.Threw? && (r.Restart? ==> r.at.day >= 0))
      && (r.Restart? ==> AfterSecond(cex, at) < Minutes(r.at) && r.at.sec == RestartSecond(cex, at))
      && (r.Done? ==> AfterSecond(cex, at) <= Minutes(r.at) && Time(at) <= Time(r.at))
  {
    hide FieldStep, DayPass, MonthStart, MonthLength, DayMatches;
    SecondStep(cex, at);
    var s := FieldStep(cex.seconds, at, Second, Minute, {});
    if s.Some? {
      var marked := if s.value.moved then {} else {Second};
      MinuteStep(cex, s.value.at, marked);
      var m := FieldStep(cex.minutes, s.value.at, Minute, HourOfDay, marked);
      if m.Some? && !m.value.moved {
        marked := marked + {Minute};
        HourStep(cex, m.value.at, marked);
        var h := FieldStep(cex.hours, m.value.at, HourOfDay, DayOfWeek, marked);
        if h.Some? && !h.value.moved {
          DayPassGoes(cex, h.value.at, marked + {HourOfDay}, dot);
        }
      }
    }
  }

  /** When a finished pass has found a match, for every expression: exactly
      if the walk over days did not move from the day it came to, or ends on a
      day that matches at midnight, as it threw the hour and the minute away.
      A day that moved without being noticed has the same number. */
  lemma DoneIsMatch(cex: CronExpr, at: Stamp, dot: int)
    requires cex.Valid() && at.Valid()
    ensures Pass(cex, at, dot).Done? ==>
      var a := Pass(cex, at, dot).at;
      var day := AfterSecond(cex, at) / 1440;
      var end := WalkEnd(cex, day);
      && a.day == end && MonthMatches(cex, end)
      && (Matches(cex, a) <==>
        end == day || (DayMatches(cex, end) && cex.hours[0] && cex.minutes[0] && cex.seconds[RestartSecond(cex, at)]))
      && (end == day ==> Minutes(a) == AfterSecond(cex, at) && a.sec == Target(cex.seconds, at.sec))
      && (end != day ==> MonthDay(day) == MonthDay(end) && a == Stamp(end, 0, 0, RestartSecond(cex, at)))
  {
    hide FieldStep, DayPass, MonthStart, MonthLength, DayMatches, WalkEnd;
    if Pass(cex, at, dot).Done? {
      SecondStep(cex, at);
      var s := FieldStep(cex.seconds, at, Second, Minute, {}).value;
      MinuteParts(s.at);
      var marked := if s.moved then {} else {Second};
      MinuteStep(cex, s.at, marked);
      HourStep(cex, s.at, marked + {Minute});
      DayPassGoes(cex, s.at, marked + {Minute} + {HourOfDay}, dot);
    }
  }

  // ----- One day field unrestricted -----

  lemma OneDayPassGoes(cex: CronExpr, at: Stamp, marked: set<Field>, dot: int)
    requires cex.Valid() && at.Valid() && OneDayField(cex)
    requires {Minute, HourOfDay} <= marked <= {Second, Minute, HourOfDay}
    ensures var r := DayPass(cex, at, marked, dot);
      && (r.Restart? ==>
        NoneBetween(cex, Minutes(at), Minutes(r.at))
        || (DayMatches(cex, at.day) && MonthLanding(cex, at.day, r.at) && !TooFar(r.at.day, dot)
            && MonthOf(at.day) < MonthOf(r.at.day)))
      && (r.GaveUp? ==> DayMatches(cex, at.day) && LeavesYears(cex, at.day, dot))
      && (r.Done? ==> r.at == at && DayMatches(cex, at.day) && MonthMatches(cex, at.day))
  {
    hide DayWalk, MonthPass, MonthStart, MonthLength;
    DayWalkStops(cex, at, marked, 0);
    DayWalkFinds(cex, at, marked);
    var w := DayWalk(cex, at, marked, 0);
    if w.Some? {
      MinuteParts(at);
      if w.value.day != at.day {
        DayGap(cex, at, w.value);
      } else {
        MonthPassGoes(cex, w.value, marked + {DayOfMonth}, dot);
      }
    }
  }

  /** Where the first field that has to move takes minute `mu`. */
  ghost function FirstLanding(cex: CronExpr, mu: int): int
    requires cex.Valid()
  {
    if !cex.minutes[mu % 60] then MinuteLands(cex, mu)
    else if !cex.hours[mu / 60 % 24] then HourLands(cex, mu)
    else if !DayMatches(cex, mu / 1440) then WalkEnd(cex, mu / 1440) * 1440
    else MonthLands(cex, mu / 1440) * 1440
  }

  lemma DayPassLands(cex: CronExpr, at: Stamp, marked: set<Field>, dot: int)
    requires cex.Valid() && at.Valid() && OneDayField(cex) && cex.minutes[at.min] && cex.hours[at.hour]
    requires {Minute, HourOfDay} <= marked <= {Second, Minute, HourOfDay}
    ensures var r := DayPass(cex, at, marked, dot);
      r.Restart? ==> Minutes(r.at) == FirstLanding(cex, Minutes(at))
  {
    hide DayWalk, MonthPass, MonthStart, MonthLength, WalkFrom, MonthLands;
    hide MonthOf, MonthDay, DayMatches, MinuteLands, HourLands;
    DayWalkStops(cex, at, marked, 0);
    DayWalkEnds(cex, at, marked, 0);
    DayWalkFinds(cex, at, marked);
    var w := DayWalk(cex, at, marked, 0);
    MinuteParts(at);
    if w.Some? {
      if w.value.day == at.day {
        MonthPassGoes(cex, w.value, marked + {DayOfMonth}, dot);
      } else {
        assert !DayMatches(cex, at.day);
      }
    }
  }

  /** The minute a restart goes on from. */
  lemma PassLands(cex: CronExpr, at: Stamp, dot: int)
    requires cex.Valid() && at.Valid() && OneDayField(cex)
    ensures var r := Pass(cex, at, dot);
      r.Restart? ==> Minutes(r.at) == FirstLanding(cex, AfterSecond(cex, at))
  {
    hide FieldStep, DayPass, MonthStart, MonthLength, DayMatches, MinuteLands;
    hide HourLands, WalkEnd, MonthLands, AfterSecond, MonthOf;
    SecondStep(cex, at);
    var s := FieldStep(cex.seconds, at, Second, Minute, {});
    if s.Some? {
      MinuteParts(s.value.at);
      var marked := if s.value.moved then {} else {Second};
      MinuteStep(cex, s.value.at, marked);
      var m := FieldStep(cex.minutes, s.value.at, Minute, HourOfDay, marked);
      if m.Some? && !m.value.moved {
        marked := marked + {Minute};
        HourStep(cex, m.value.at, marked);
        var h := FieldStep(cex.hours, m.value.at, HourOfDay, DayOfWeek, marked);
        if h.Some? && !h.value.moved {
          DayPassLands(cex, h.value.at, marked + {HourOfDay}, dot);
        }
      }
    }
  }

  /** With one day field unrestricted, a restart has skipped no matching
      minute, or steps on from a day in a month that is not allowed; and a
      finished pass is at a match. */
  lemma OneDayPass(cex: CronExpr, at: Stamp, dot: int)
    requires cex.Valid() && at.Valid() && OneDayField(cex)
    ensures var r := Pass(cex, at, dot);
      var mu := AfterSecond(cex, at);
      && (r.Restart? ==>
        NoneBetween(cex, mu, Minutes(r.at))
        || (DayMatches(cex, mu / 1440) && MonthLanding(cex, mu / 1440, r.at) && !TooFar(r.at.day, dot)
            && MonthOf(mu / 1440) < MonthOf(r.at.day)))
      && (r.GaveUp? ==> DayMatches(cex, mu / 1440) && LeavesYears(cex, mu / 1440, dot))
      && (r.Done? ==> Matches(cex, r.at) && Minutes(r.at) == mu && r.at.sec == Target(cex.seconds, at.sec))
  {
    hide FieldStep, DayPass, MonthStart, MonthLength, DayMatches;
    SecondStep(cex, at);
    var s := FieldStep(cex.seconds, at, Second, Minute, {});
    if s.Some? {
      MinuteParts(s.value.at);
      var marked := if s.value.moved then {} else {Second};
      MinuteStep(cex, s.value.at, marked);
      var m := FieldStep(cex.minutes, s.value.at, Minute, HourOfDay, marked);
      if m.Some? && !m.value.moved {
        marked := marked + {Minute};
        HourStep(cex, m.value.at, marked);
        var h := FieldStep(cex.hours, m.value.at, HourOfDay, DayOfWeek, marked);
        if h.Some? && !h.value.moved {
          OneDayPassGoes(cex, h.value.at, marked + {HourOfDay}, dot);
        }
      }
    }
  }
}
