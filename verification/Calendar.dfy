/** The proleptic Gregorian calendar without daylight saving, as ISO C11
    (section 7.27.2.3) lets `mktime` normalise a broken-down time.

    A day is counted from 1970-01-01. A month is counted from January of
    year 0, so that month `m` is month `m % 12` of year `m / 12`. */
module Calendar {

  predicate IsLeap(year: int) {
    year % 4 == 0 && (year % 100 != 0 || year % 400 == 0)
  }

  function MonthLength(m: int): (n: int)
    ensures 28 <= n <= 31
  {
    if m % 12 == 1 then (if IsLeap(m / 12) then 29 else 28)
    else if m % 12 in {3, 5, 8, 10} then 30
    else 31
  }

  const EPOCH_MONTH := 12 * 1970

  /** The first day of month `m`. */
  function MonthStart(m: int): (day: int)
    ensures m < EPOCH_MONTH ==> day < 0
    ensures m >= EPOCH_MONTH ==> day >= 0
    decreases if m < EPOCH_MONTH then EPOCH_MONTH - m else m - EPOCH_MONTH
  {
    if m == EPOCH_MONTH then 0
    else if m < EPOCH_MONTH then MonthStart(m + 1) - MonthLength(m)
    else MonthStart(m - 1) + MonthLength(m - 1)
  }

  /** Consecutive months are adjacent. */
  lemma MonthStep(m: int)
    ensures MonthStart(m + 1) == MonthStart(m) + MonthLength(m)
  {
  }

  lemma {:induction false} MonthStartsIncrease(m: int, n: int)
    requires m < n
    ensures MonthStart(m) + MonthLength(m) <= MonthStart(n)
    decreases n - m
  {
    hide MonthLength;
    MonthStep(m);
    if m + 1 < n {
      MonthStartsIncrease(m + 1, n);
    }
  }

  ghost predicate InMonth(day: int, m: int) {
    MonthStart(m) <= day < MonthStart(m + 1)
  }

  function MonthUp(day: int, m: int): (r: int)
    requires MonthStart(m) <= day
    ensures InMonth(day, r)
    decreases day - MonthStart(m)
  {
    MonthStep(m);
    if day < MonthStart(m + 1) then m else MonthUp(day, m + 1)
  }

  function MonthDown(day: int, m: int): (r: int)
    requires day < MonthStart(m + 1)
    ensures InMonth(day, r)
    decreases MonthStart(m + 1) - day
  {
    MonthStep(m);
    if MonthStart(m) <= day then m else MonthDown(day, m - 1)
  }

  /** The month a day falls in. */
  function MonthOf(day: int): (m: int)
    ensures InMonth(day, m)
  {
    if 0 <= day then MonthUp(day, EPOCH_MONTH) else MonthDown(day, EPOCH_MONTH - 1)
  }

  /** The day of the month, from 1. */
  function MonthDay(day: int): (d: int)
    ensures 1 <= d <= MonthLength(MonthOf(day))
  {
    MonthStep(MonthOf(day));
    day - MonthStart(MonthOf(day)) + 1
  }

  /** The day of the week, Sunday being 0. */
  function WeekDay(day: int): (w: int)
    ensures 0 <= w <= 6
  {
    (day + 4) % 7
  }

  /** A day lies in one month only. */
  lemma MonthIsUnique(day: int, m: int)
    requires InMonth(day, m)
    ensures MonthOf(day) == m
  {
    hide MonthStart, MonthLength;
    var n := MonthOf(day);
    if m + 1 < n {
      MonthStartsIncrease(m + 1, n);
    } else if n + 1 < m {
      MonthStartsIncrease(n + 1, m);
    }
  }

  /** Reading a date back: day `d` of month `m` is the day numbered
      `MonthStart(m) + d - 1`, whatever the month. */
  lemma DateRoundTrip(m: int, d: int)
    requires 1 <= d <= MonthLength(m)
    ensures MonthOf(MonthStart(m) + d - 1) == m
    ensures MonthDay(MonthStart(m) + d - 1) == d
  {
    hide MonthStart, MonthLength;
    MonthStep(m);
    MonthIsUnique(MonthStart(m) + d - 1, m);
  }

  lemma MonthsAreMonotone(a: int, b: int)
    requires a <= b
    ensures MonthOf(a) <= MonthOf(b)
  {
    hide MonthStart, MonthLength;
    if MonthOf(b) + 1 < MonthOf(a) {
      MonthStartsIncrease(MonthOf(b) + 1, MonthOf(a));
    }
  }

  /** A day fewer than 28 days later bears a different number. */
  lemma NearDaysDiffer(day: int, k: int)
    requires 0 < k < 28
    ensures MonthDay(day + k) != MonthDay(day)
  {
    hide MonthStart, MonthLength;
    var m := MonthOf(day);
    MonthStep(m);
    MonthStep(m + 1);
    if day + k < MonthStart(m + 1) {
      MonthIsUnique(day + k, m);
    } else {
      MonthIsUnique(day + k, m + 1);
    }
  }

  /** One of any two consecutive months has 31 days. */
  lemma LongMonthNear(m: int) returns (n: int)
    ensures m <= n <= m + 1 && MonthLength(n) == 31
  {
    n := if MonthLength(m) == 31 then m else m + 1;
  }

  // ----- Every month day falls on every weekday -----

  /** Days before a month in a common year. */
  function DaysBefore(k: nat): nat {
    match k
    case 0 => 0 case 1 => 31 case 2 => 59 case 3 => 90 case 4 => 120 case 5 => 151
    case 6 => 181 case 7 => 212 case 8 => 243 case 9 => 273 case 10 => 304 case 11 => 334
    case _ => 365
  }

  lemma {:induction false} MonthInYear(y: int, k: nat)
    requires k <= 12
    ensures MonthStart(12 * y + k) == MonthStart(12 * y) + DaysBefore(k) + if k > 1 && IsLeap(y) then 1 else 0
    ensures k in {0, 2, 4, 6, 7, 9, 11} ==> MonthLength(12 * y + k) == 31
    decreases k
  {
    hide MonthStart, IsLeap;
    if k > 0 {
      MonthInYear(y, k - 1);
      MonthStep(12 * y + k - 1);
    }
  }

  /** A month of 31 days in this year or the next whose day `d` falls on
      weekday `w`. */
  lemma PairOccurs(y: int, d: int, w: int) returns (m: int)
    requires 0 <= w < 7
    ensures 12 * y <= m < 12 * y + 24 && MonthLength(m) == 31 && WeekDay(MonthStart(m) + d - 1) == w
  {
    hide MonthStart, MonthLength, IsLeap, WeekDay;
    var c := MonthStart(12 * y) + d + 3;
    var need := (w - c) % 7;
    var k := MonthShift(IsLeap(y), need);
    var n := k;
    MonthInYear(y, 12);
    if k == 12 {
      NoTwoLeapYears(y);
      ShiftAYear(IsLeap(y), IsLeap(y + 1), need);
      n := if !IsLeap(y) && IsLeap(y + 1) then 7 else 2;
      MonthInYear(y + 1, n);
    } else {
      MonthInYear(y, n);
    }
    m := 12 * (if k == 12 then y + 1 else y) + n;
    var s := MonthStart(m) - MonthStart(12 * y);
    assert s % 7 == need;
    SameWeekDay(s, c, w);
    WeekDayOf(MonthStart(m) + d - 1);
  }

  lemma WeekDayOf(day: int)
    ensures WeekDay(day) == (day + 4) % 7
  {
  }

  /** A month of 31 days that begins so many weekdays after the year, or 12. */
  function MonthShift(leap: bool, need: int): (k: nat)
    requires 0 <= need < 7
    ensures k in {0, 2, 4, 6, 7, 9, 11, 12}
    ensures k < 12 ==> (DaysBefore(k) + if k > 1 && leap then 1 else 0) % 7 == need
    ensures k == 12 ==> need == if leap then 5 else 4
  {
    if need == 0 then 0
    else if !leap then
      (match need case 1 => 4 case 2 => 7 case 3 => 2 case 5 => 11 case 6 => 6 case _ => 12)
    else
      (match need case 1 => 9 case 2 => 4 case 3 => 7 case 4 => 2 case 6 => 11 case _ => 12)
  }

  /** Else a month of the next year. */
  lemma ShiftAYear(leap: bool, next: bool, need: int)
    requires need == (if leap then 5 else 4) && !(leap && next)
    ensures var k := if !leap && next then 7 else 2;
      (365 + (if leap then 1 else 0) + DaysBefore(k) + if next then 1 else 0) % 7 == need
  {
  }

  lemma SameWeekDay(s: int, c: int, w: int)
    requires 0 <= w < 7 && s % 7 == (w - c) % 7
    ensures (s + c) % 7 == w
  {
  }

  lemma NoTwoLeapYears(y: int)
    ensures IsLeap(y) ==> !IsLeap(y + 1)
  {
  }
}
