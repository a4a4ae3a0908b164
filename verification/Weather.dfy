/** The eight-hour weather windows of Eorzea. */
module Weather {
  /** Seconds of a window, of a day, and of an hour of Eorzean time. */
  const WINDOW := 1400
  const DAY := 4200
  const HOUR := 175

  const INT_MAX := 0x7FFF_FFFF

  /** The base of the forecast, in machine arithmetic that does not wrap. */
  function CalcBase(date: int): int
    requires 0 <= date <= INT_MAX
  {
    var bell := date / HOUR;
    var increment := (bell + 8 - bell % 8) % 24;
    date / DAY * 100 + increment
  }

  function Step1(w: bv32): bv32 {
    (w << 11) ^ w
  }

  function Step2(w: bv32): bv32 {
    (w >> 8) ^ w
  }

  /** The first step keeps the low eleven bits and adds to each other the bit
      eleven places lower. */
  lemma FirstStepBits(w: bv32)
    ensures Step1(w) & 0x7FF == w & 0x7FF
    ensures (Step1(w) >> 11) ^ (w >> 11) == w & 0x1FFFFF
  {
    assert ((w << 11) ^ w) & 0x7FF == w & 0x7FF;
    assert (((w << 11) ^ w) >> 11) ^ (w >> 11) == w & 0x1FFFFF;
  }

  /** The second keeps the high eight and adds to each other the bit eight
      places higher. */
  lemma SecondStepBits(w: bv32)
    ensures Step2(w) & 0xFF00_0000 == w & 0xFF00_0000
    ensures (Step2(w) << 8) ^ (w << 8) == w & 0xFFFF_FF00
  {
    assert ((w >> 8) ^ w) & 0xFF00_0000 == w & 0xFF00_0000;
    assert (((w >> 8) ^ w) << 8) ^ (w << 8) == w & 0xFFFF_FF00;
  }

  /** The shifts, on 32-bit words. */
  function Mix(base: int): (target: int)
    requires 0 <= base <= INT_MAX
    ensures 0 <= target < 100
  {
    (Step2(Step1(base as bv32)) as int) % 100
  }

  /** `ForcastTarget`. */
  function ForcastTarget(date: int): (target: int)
    requires 0 <= date <= INT_MAX
    ensures 0 <= target < 100
  {
    Mix(CalcBase(date))
  }

  lemma MixIs(w: bv32, mixed: bv32)
    requires w <= 0x7FFF_FFFF && Step2(Step1(w)) == mixed
    ensures Mix(w as int) == mixed as int % 100
  {
  }

  /** The targets of the first windows, of one in November 2023, and of the
      last. */
  lemma KnownTargets()
    ensures ForcastTarget(0) == 56 && ForcastTarget(1400) == 12 && ForcastTarget(2800) == 0
    ensures ForcastTarget(1_700_000_000) == 53 && ForcastTarget(INT_MAX) == 40
  {
    hide Mix;
    MixIs(8, 0x4048);
    MixIs(16, 0x8090);
    MixIs(0, 0);
    MixIs(40476100, 0x4EC9_3A79);
    MixIs(51130516, 0x62EA_1804);
    assert CalcBase(0) == 8 && CalcBase(1400) == 16 && CalcBase(2800) == 0;
    assert CalcBase(1_700_000_000) == 40476100 && CalcBase(INT_MAX) == 51130516;
  }

  /** `NextWeatherTime`: seconds to the start of the window after `count`
      more. */
  function NextWeatherTime(date: int, count: int): int
    requires 0 <= date
  {
    var increment := (date + WINDOW - date % WINDOW) % DAY;
    var curTime := date % DAY;
    (if increment > curTime then increment - curTime else DAY - curTime) + WINDOW * count
  }

  function GetEorzeaHour(time: int): int
    requires 0 <= time
  {
    time / HOUR % 24
  }

  /** The forecast is the same all through a window. */
  lemma SameWindow(a: int, b: int)
    requires 0 <= a <= INT_MAX && 0 <= b <= INT_MAX && a / WINDOW == b / WINDOW
    ensures ForcastTarget(a) == ForcastTarget(b)
  {
    hide Mix, CalcBase;
    BaseOfWindow(a);
    BaseOfWindow(b);
  }

  lemma BaseOfWindow(date: int)
    requires 0 <= date <= INT_MAX
    ensures CalcBase(date) == date / WINDOW / 3 * 100 + (date / WINDOW * 8 + 8) % 24
  {
    var bell, window := date / HOUR, date / WINDOW;
    assert bell / 8 == window;
    assert bell - bell % 8 == window * 8;
    assert date / DAY == window / 3;
  }

  /** A time of the day, by its window. */
  lemma TimeOfDay(q: int, r: int)
    requires 0 <= q && 0 <= r < WINDOW
    ensures (q * WINDOW + r) % DAY == q % 3 * WINDOW + r
  {
    var days := q / 3;
    assert q * WINDOW + r == days * DAY + (q % 3 * WINDOW + r);
  }

  lemma HourOfWindow(n: int)
    requires 0 <= n
    ensures GetEorzeaHour(n * WINDOW) == n % 3 * 8
  {
    assert n * WINDOW == n * 8 * HOUR;
    assert n * WINDOW / HOUR == n * 8;
    assert n * 8 == n / 3 * 24 + n % 3 * 8;
  }

  /** The announced time is the start of the window after `count` more, and
      the hour there is 0, 8 or 16. */
  lemma AnnouncedTime(date: int, count: nat)
    requires 0 <= date
    ensures date + NextWeatherTime(date, count) == (date / WINDOW + 1 + count) * WINDOW
    ensures GetEorzeaHour(date + NextWeatherTime(date, count)) == (date / WINDOW + 1 + count) % 3 * 8
    ensures GetEorzeaHour(date + NextWeatherTime(date, count)) in {0, 8, 16}
  {
    hide GetEorzeaHour;
    var q, r := date / WINDOW, date % WINDOW;
    TimeOfDay(q, r);
    TimeOfDay(q + 1, 0);
    assert date + WINDOW - r == (q + 1) * WINDOW;
    HourOfWindow(q + 1 + count);
  }

  /** The entries of a weather table: up to this rate, this weather. */
  datatype Rate = Rate(rate: int, weather: string)

  /** The first entry beyond the target. */
  function Pick(rates: seq<Rate>, target: int): string {
    if rates == [] then "" else if target < rates[0].rate then rates[0].weather else Pick(rates[1..], target)
  }

  /** `CalWeather`, for the table of a location. */
  method CalWeather(date: int, rates: seq<Rate>) returns (weather: string)
    requires 0 <= date <= INT_MAX
    ensures weather == Pick(rates, ForcastTarget(date))
    ensures var target := ForcastTarget(date);
      || (weather == "" && forall i | 0 <= i < |rates| :: rates[i].rate <= target)
      || exists k | 0 <= k < |rates| ::
           weather == rates[k].weather && target < rates[k].rate && forall i | 0 <= i < k :: rates[i].rate <= target
  {
    var target := ForcastTarget(date);
    var i := 0;
    while i < |rates|
      invariant 0 <= i <= |rates| && Pick(rates, target) == Pick(rates[i..], target)
      invariant forall k | 0 <= k < i :: rates[k].rate <= target
    {
      assert rates[i..][1..] == rates[i + 1..];
      if target < rates[i].rate {
        return rates[i].weather;
      }
      i := i + 1;
    }
    return "";
  }

  /** The weather listed for a later window, taken at the time of day it is
      asked at, is the weather at the time announced for it. */
  lemma ListedIsAnnounced(date: int, i: nat, rates: seq<Rate>)
    requires 0 <= date && date + WINDOW * (i + 1) <= INT_MAX
    ensures date + NextWeatherTime(date, i) <= INT_MAX
    ensures Pick(rates, ForcastTarget(date + WINDOW * (i + 1)))
      == Pick(rates, ForcastTarget(date + NextWeatherTime(date, i)))
  {
    hide ForcastTarget, Pick, NextWeatherTime;
    AnnouncedTime(date, i);
    var q, later := date / WINDOW, date + WINDOW * (i + 1);
    var announced := (q + 1 + i) * WINDOW;
    assert later == announced + date % WINDOW;
    StartOfWindow(q + 1 + i, date % WINDOW);
    SameWindow(later, announced);
  }

  lemma StartOfWindow(n: int, r: int)
    requires 0 <= r < WINDOW
    ensures (n * WINDOW + r) / WINDOW == n && n * WINDOW / WINDOW == n
  {
  }
}
