/** The Gregorian calendar repeats after four hundred years. */
module CalendarPeriod {
  import opened Calendar

  /** Days and months in four hundred years. */
  const PERIOD_DAYS := 146097
  const PERIOD_MONTHS := 4800

  function LeapsBefore(y: int): int {
    (y - 1) / 4 - (y - 1) / 100 + (y - 1) / 400
  }

  lemma OneMoreLeap(y: int)
    ensures LeapsBefore(y + 1) == LeapsBefore(y) + if IsLeap(y) then 1 else 0
  {
    OneMoreOf4(y);
    OneMoreOf100(y);
    OneMoreOf400(y);
  }

  lemma OneMoreOf4(y: int)
    ensures y / 4 == (y - 1) / 4 + if y % 4 == 0 then 1 else 0
  {
  }

  lemma OneMoreOf100(y: int)
    ensures y / 100 == (y - 1) / 100 + if y % 100 == 0 then 1 else 0
    ensures y % 100 == 0 ==> y % 4 == 0
  {
  }

  lemma OneMoreOf400(y: int)
    ensures y / 400 == (y - 1) / 400 + if y % 400 == 0 then 1 else 0
    ensures y % 400 == 0 ==> y % 100 == 0
  {
  }

  lemma {:induction false} YearStart(y: int)
    ensures MonthStart(12 * y) == 365 * (y - 1970) + LeapsBefore(y) - LeapsBefore(1970)
    decreases if y < 1970 then 1970 - y else y - 1970
  {
    hide IsLeap, LeapsBefore;
    if y != 1970 {
      var before := if y < 1970 then y else y - 1;
      YearStart(if y < 1970 then y + 1 else y - 1);
      OneMoreLeap(before);
      hide MonthStart;
      MonthInYear(before, 12);
    }
  }

  /** The day number of any date is that of "Seconds Since the Epoch" in
      section 4.16 of POSIX.1-2017, where `k` is `tm_mon` and `d` is
      `tm_mday`. */
  lemma DayIsPosix(y: int, k: nat, d: int)
    requires k < 12
    ensures var year := y - 1900;
      var yday := [0, 31, 59, 90, 120, 151, 181, 212, 243, 273, 304, 334][k]
        + (if k > 1 && y % 4 == 0 && (y % 100 != 0 || y % 400 == 0) then 1 else 0) + d - 1;
      MonthStart(12 * y + k) + d - 1
      == yday + (year - 70) * 365 + (year - 69) / 4 - (year - 1) / 100 + (year + 299) / 400
  {
    hide MonthStart;
    YearStart(y);
    MonthInYear(y, k);
    var year := y - 1900;
    assert (y - 1) / 4 == (year - 69) / 4 + 492;
    assert (y - 1) / 100 == (year - 1) / 100 + 19;
    assert (y - 1) / 400 == (year + 299) / 400 + 4;
    assert LeapsBefore(1970) == 477;
  }

  /** 1970-01-01 was a Thursday, 2000-01-01 a Saturday, and the day after
      2024-02-29 a Friday. */
  lemma KnownWeekdays()
    ensures WeekDay(MonthStart(12 * 1970)) == 4
    ensures WeekDay(MonthStart(12 * 2000)) == 6
    ensures WeekDay(MonthStart(12 * 2024 + 1) + 29) == 5
  {
    hide MonthStart;
    DayIsPosix(1970, 0, 1);
    DayIsPosix(2000, 0, 1);
    DayIsPosix(2024, 1, 30);
  }

  lemma SameLength(m: int)
    ensures MonthLength(m + PERIOD_MONTHS) == MonthLength(m)
  {
    assert (m + PERIOD_MONTHS) % 12 == m % 12 && (m + PERIOD_MONTHS) / 12 == m / 12 + 400;
  }

  lemma {:induction false} SameStart(m: int)
    ensures MonthStart(m + PERIOD_MONTHS) == MonthStart(m) + PERIOD_DAYS
    decreases if m < EPOCH_MONTH then EPOCH_MONTH - m else m - EPOCH_MONTH
  {
    hide MonthStart, MonthLength;
    if m == EPOCH_MONTH {
      YearStart(1970);
      YearStart(2370);
    } else {
      var n := if m < EPOCH_MONTH then m else m - 1;
      SameStart(if m < EPOCH_MONTH then m + 1 else m - 1);
      MonthStep(n);
      MonthStep(n + PERIOD_MONTHS);
      SameLength(n);
    }
  }

  /** After four hundred years every date falls on the same weekday again. */
  lemma FourCenturies(day: int)
    ensures MonthOf(day + PERIOD_DAYS) == MonthOf(day) + PERIOD_MONTHS
    ensures MonthDay(day + PERIOD_DAYS) == MonthDay(day) && WeekDay(day + PERIOD_DAYS) == WeekDay(day)
  {
    hide MonthStart, MonthLength;
    var m := MonthOf(day);
    SameStart(m);
    SameStart(m + 1);
    MonthIsUnique(day + PERIOD_DAYS, m + PERIOD_MONTHS);
  }
}
