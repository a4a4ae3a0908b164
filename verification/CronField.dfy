/** Expanding the comma-separated items of a cron field into a bitset. The
    text is taken as already split into items and numbers. */
module CronField {
  import opened Wrappers
  import opened Calendar
  import opened CronExpression
  import opened CronSearch
  import opened CronAnswers

  /** An item's range: `*`, a number, `a-b`, or anything with more dashes. */
  datatype Range = Star | Number(n: nat) | Span(a: nat, b: nat) | BadRange

  /** What follows the range: nothing, `/n`, or anything with more slashes. */
  datatype Increment = NoIncrement | By(n: nat) | BadIncrement

  datatype Item = Item(range: Range, increment: Increment)

  /** A number is read into eight bits. */
  function CronInt(n: nat): (v: nat)
    ensures v < 256
  {
    n % 256
  }

  /** The first and last value of a range; `None` is the exception. */
  function MakeRange(range: Range, min: nat, max: nat): (r: Option<(nat, nat)>)
    ensures r.Some? ==> min <= r.value.0 <= r.value.1 <= max || range.Star?
  {
    var (first, last) :- match range {
      case Star => Some((min, max))
      case Number(n) => Some((CronInt(n), CronInt(n)))
      case Span(a, b) => Some((CronInt(a), CronInt(b)))
      case BadRange => None
    };
    if first > max || last > max || first < min || last < min || first > last then None
    else Some((first, last))
  }

  /** The bounds of an item: without a dash, a step item runs to the maximum. */
  function Bounds(item: Item, min: nat, max: nat): (r: Option<(nat, nat)>) {
    var (first, last) :- MakeRange(item.range, min, max);
    match item.increment
    case NoIncrement => Some((first, last))
    case By(n) =>
      if CronInt(n) == 0 then None
      else Some((first, if item.range.Span? then last else max))
    case BadIncrement => None
  }

  function Delta(item: Item): nat {
    if item.increment.By? then CronInt(item.increment.n) else 1
  }

  ghost function Nth(first: int, k: nat, stride: int): int {
    first + k * stride
  }

  /** Value `v` is one of first, first + delta, ... up to last. */
  ghost predicate InProgression(v: int, first: int, last: int, delta: int) {
    first <= v <= last && exists k: nat :: v == Nth(first, k, delta)
  }

  /** The first value's index plus the increment does not fit eight bits. */
  predicate Wraps(first: int, delta: int, min: int) {
    first - min + delta > 255
  }

  /** How far one turn of the loop goes: back, once the index wraps. */
  function Stride(first: int, delta: int, min: int): int {
    if Wraps(first, delta, min) then delta - 256 else delta
  }

  /** The values the loop over an item sets. */
  ghost predicate SetsValue(item: Item, min: nat, max: nat, v: int)
    requires Bounds(item, min, max).Some?
  {
    var (first, last) := Bounds(item, min, max).value;
    min <= v <= last && exists k: nat :: v == Nth(first, k, Stride(first, Delta(item), min))
  }

  lemma BoundsAreInside(item: Item, min: nat, max: nat)
    requires min <= max && Bounds(item, min, max).Some?
    ensures var (first, last) := Bounds(item, min, max).value;
      min <= first <= last <= max && 0 < Delta(item) < 256
  {
  }

  lemma NthIsFar(k: nat, stride: int)
    requires stride != 0
    ensures stride > 0 ==> k * stride >= k
    ensures stride < 0 ==> k * stride + k <= 0
  {
  }

  /** An item sets exactly its progression if and only if its first index
      plus the increment fits eight bits; up to 196 it always does. */
  lemma ItemIsProgression(item: Item, min: nat, max: nat)
    requires min <= max && max - min < 60
    requires Bounds(item, min, max).Some?
    ensures var (first, last) := Bounds(item, min, max).value;
      && ((forall v :: SetsValue(item, min, max, v) <==> InProgression(v, first, last, Delta(item)))
            <==> !Wraps(first, Delta(item), min))
      && (Delta(item) <= 196 ==> !Wraps(first, Delta(item), min))
  {
    hide Bounds, Delta, Nth;
    BoundsAreInside(item, min, max);
    var (first, last) := Bounds(item, min, max).value;
    var delta := Delta(item);
    if Wraps(first, delta, min) {
      var v := Nth(first, 1, Stride(first, delta, min));
      NthOne(first, Stride(first, delta, min));
      assert SetsValue(item, min, max, v) && !InProgression(v, first, last, delta);
    } else {
      forall v | SetsValue(item, min, max, v)
        ensures InProgression(v, first, last, delta)
      {
        var k: nat :| v == Nth(first, k, delta);
        NthUp(first, k, delta);
      }
      forall v | InProgression(v, first, last, delta)
        ensures SetsValue(item, min, max, v)
      {
        var k: nat :| v == Nth(first, k, delta);
        assert v == Nth(first, k, Stride(first, delta, min));
      }
    }
  }

  /** `50/210` on minutes also sets 4, as the index wraps. */
  lemma WrappedItem()
    ensures var item := Item(Number(50), By(210));
      && Bounds(item, 0, 59) == Some((50, 59))
      && SetsValue(item, 0, 59, 4) && !InProgression(4, 50, 59, Delta(item))
  {
    var item := Item(Number(50), By(210));
    assert Stride(50, Delta(item), 0) == -46;
    assert Nth(50, 1, Stride(50, Delta(item), 0)) == 4;
  }

  // ----- What items stand for -----

  /** Which items are accepted: by their numbers, read into eight bits. */
  lemma WhichItems(item: Item, min: nat, max: nat)
    requires min <= max
    ensures Bounds(item, min, max).Some? <==>
      && (match item.range
          case Star => true
          case Number(n) => min <= n % 256 <= max
          case Span(a, b) => min <= a % 256 <= b % 256 <= max
          case BadRange => false)
      && (match item.increment
          case NoIncrement => true
          case By(n) => n % 256 != 0
          case BadIncrement => false)
  {
  }

  /** Without an increment `*` sets every value, `n` sets `n` alone, and `a-b`
      sets `a` to `b`. */
  lemma PlainItemSets(item: Item, min: nat, max: nat, v: int)
    requires min <= max && max - min < 60 && Bounds(item, min, max).Some? && item.increment.NoIncrement?
    ensures SetsValue(item, min, max, v) <==>
      match item.range
      case Star => min <= v <= max
      case Number(n) => v == n % 256
      case Span(a, b) => a % 256 <= v <= b % 256
      case BadRange => false
  {
    hide SetsValue, InProgression;
    ItemIsProgression(item, min, max);
    var (first, last) := Bounds(item, min, max).value;
    InSteps(v, first, last, 1);
  }

  /** With one, `*` and `n` run to the maximum and `a-b` to `b`, taking every
      value in steps of the increment from the first. If the first step would
      leave the eight bits, the steps lead back from the first value instead. */
  lemma StepItemSets(item: Item, min: nat, max: nat, v: int)
    requires min <= max && max - min < 60 && Bounds(item, min, max).Some? && item.increment.By?
    ensures var delta := item.increment.n % 256;
      var first := match item.range case Star => min case Number(n) => n % 256 case Span(a, _) => a % 256 case _ => 0;
      var last := if item.range.Span? then item.range.b % 256 else max;
      && delta > 0
      && (SetsValue(item, min, max, v) <==>
            if first - min + delta < 256 then first <= v <= last && (v - first) % delta == 0
            else min <= v <= first && (first - v) % (256 - delta) == 0)
  {
    hide SetsValue, InProgression;
    ItemIsProgression(item, min, max);
    var (first, last) := Bounds(item, min, max).value;
    if Wraps(first, Delta(item), min) {
      StepsBack(item, min, max, v);
    } else {
      InSteps(v, first, last, Delta(item));
    }
  }

  /** A progression, by remainders. */
  lemma InSteps(v: int, first: int, last: int, delta: int)
    requires delta > 0
    ensures InProgression(v, first, last, delta) <==> first <= v <= last && (v - first) % delta == 0
  {
    if first <= v <= last {
      if (v - first) % delta == 0 {
        assert v == Nth(first, (v - first) / delta, delta);
      }
      if k: nat :| v == Nth(first, k, delta) {
        Remainder(k, delta);
      }
    }
  }

  lemma Remainder(k: nat, delta: int)
    requires delta > 0
    ensures k * delta % delta == 0
  {
    var q, r := k * delta / delta, k * delta % delta;
    assert k * delta == q * delta + r;
    SmallMultiple(k - q, delta, r);
  }

  lemma SmallMultiple(a: int, delta: int, r: int)
    requires a * delta == r && 0 <= r < delta
    ensures r == 0
  {
    MultipleIsFar(a, delta);
  }

  lemma MultipleIsFar(a: int, delta: int)
    requires delta > 0
    ensures a >= 1 ==> a * delta >= delta
    ensures a <= -1 ==> a * delta <= -delta
  {
  }

  lemma StepsBack(item: Item, min: nat, max: nat, v: int)
    requires min <= max && max - min < 60 && Bounds(item, min, max).Some?
    requires Wraps(Bounds(item, min, max).value.0, Delta(item), min)
    ensures var first := Bounds(item, min, max).value.0;
      SetsValue(item, min, max, v) <==> min <= v <= first && (first - v) % (256 - Delta(item)) == 0
  {
    hide Bounds, Delta, Nth;
    BoundsAreInside(item, min, max);
    var (first, last) := Bounds(item, min, max).value;
    var back := 256 - Delta(item);
    if SetsValue(item, min, max, v) {
      var k: nat :| v == Nth(first, k, Stride(first, Delta(item), min));
      BackBy(first, k, back);
    }
    if min <= v <= first && (first - v) % back == 0 {
      BackTo(v, first, back);
      assert v == Nth(first, (first - v) / back, Stride(first, Delta(item), min));
    }
  }

  lemma BackBy(first: int, k: nat, back: int)
    requires back > 0
    ensures Nth(first, k, -back) <= first && (first - Nth(first, k, -back)) % back == 0
  {
    Remainder(k, back);
    assert first - Nth(first, k, -back) == k * back;
    assert k * back >= 0;
  }

  lemma BackTo(v: int, first: int, back: int)
    requires back > 0 && v <= first && (first - v) % back == 0
    ensures (first - v) / back >= 0 && v == Nth(first, (first - v) / back, -back)
  {
    var k := (first - v) / back;
    assert first - v == k * back;
  }

  /** A field with a `*` among its items allows every value. */
  lemma StarIsFull(bits: seq<bool>, items: seq<Item>, min: nat, max: nat)
    requires min <= max && max - min < 60 && Accepted(items, min, max) && Expands(bits, items, min, max)
    requires Item(Star, NoIncrement) in items
    ensures Full(bits)
  {
    hide SetsValue, Bounds;
    var k :| 0 <= k < |items| && items[k] == Item(Star, NoIncrement);
    forall j | 0 <= j < |bits|
      ensures bits[j]
    {
      PlainItemSets(items[k], min, max, j + min);
    }
  }

  /** A field of one number allows that value alone. */
  lemma NumberIsOnly(bits: seq<bool>, n: nat, min: nat, max: nat)
    requires min <= max && max - min < 60 && min <= n <= max < 256
    requires var items := [Item(Number(n), NoIncrement)];
      Accepted(items, min, max) && Expands(bits, items, min, max)
    ensures forall j | 0 <= j < |bits| :: bits[j] <==> j + min == n
  {
    hide SetsValue, Bounds;
    var items := [Item(Number(n), NoIncrement)];
    forall j | 0 <= j < |bits|
      ensures bits[j] <==> j + min == n
    {
      PlainItemSets(items[0], min, max, j + min);
      assert bits[j] <==> exists k | 0 <= k < |items| :: SetsValue(items[k], min, max, j + min);
    }
  }

  lemma NthOne(first: int, stride: int)
    ensures Nth(first, 1, stride) == first + stride
  {
  }

  lemma NthUp(first: int, k: nat, stride: int)
    requires stride > 0
    ensures Nth(first, k, stride) >= first + k
  {
    NthIsFar(k, stride);
  }

  /** Later terms lie further along. */
  lemma NthOrder(first: int, j: nat, k: nat, stride: int)
    requires j <= k
    ensures stride > 0 ==> Nth(first, j, stride) <= Nth(first, k, stride)
    ensures stride < 0 ==> Nth(first, j, stride) >= Nth(first, k, stride)
  {
    var d := k - j;
    assert k * stride == j * stride + d * stride;
    if stride != 0 {
      NthIsFar(d, stride);
    }
  }

  lemma NthNext(first: int, k: nat, stride: int)
    ensures Nth(first, k + 1, stride) == Nth(first, k, stride) + stride
  {
  }

  /** The loop over one item: `i` is an eight-bit index. */
  method SetItem(bits: seq<bool>, item: Item, min: nat, max: nat) returns (r: Option<seq<bool>>)
    requires min <= max && |bits| == max - min + 1 <= 60
    ensures r.Some? <==> Bounds(item, min, max).Some?
    ensures r.Some? ==> |r.value| == |bits|
    ensures r.Some? ==> forall j | 0 <= j < |bits| :: r.value[j] <==> bits[j] || SetsValue(item, min, max, j + min)
  {
    hide Nth, Bounds, Delta;
    var range := Bounds(item, min, max);
    if range.None? {
      return None;
    }
    BoundsAreInside(item, min, max);
    var (first, last) := range.value;
    var delta := Delta(item);
    var target := bits;
    var i := first - min;
    ghost var stride := Stride(first, delta, min);
    ghost var turns := 0;
    assert Nth(first, 0, stride) == first by { NthZero(first, stride); }
    while i <= last - min
      invariant 0 <= turns <= 60 && 0 <= i < 256 && |target| == |bits|
      invariant i <= last - min ==> i == Nth(first, turns, stride) - min && turns <= last - min
      invariant i > last - min ==> Nth(first, turns, stride) > last || Nth(first, turns, stride) < min
      invariant forall j | 0 <= j < |bits| ::
        target[j] <==> bits[j] || (j + min <= last && exists k | 0 <= k < turns :: j + min == Nth(first, k, stride))
      decreases 60 - turns
    {
      NthNext(first, turns, stride);
      if turns > 0 {
        NthOrder(first, 1, turns, stride);
        NthOne(first, stride);
      }
      NthFits(first, turns + 1, stride, min, last);
      target := target[i := true];
      i := (i + delta) % 256;
      turns := turns + 1;
    }
    forall j | 0 <= j < |bits| && SetsValue(item, min, max, j + min)
      ensures target[j]
    {
      var k: nat :| j + min == Nth(first, k, stride);
      if turns <= k {
        NthOrder(first, turns, k, stride);
        NthOrder(first, 0, k, stride);
        NthOrder(first, 0, turns, stride);
      }
    }
    r := Some(target);
  }

  lemma NthZero(first: int, stride: int)
    ensures Nth(first, 0, stride) == first
  {
  }

  lemma NthFits(first: int, k: nat, stride: int, min: int, last: int)
    requires stride != 0 && min <= first <= last
    ensures min <= Nth(first, k, stride) <= last ==> k <= last - min
  {
    NthIsFar(k, stride);
  }

  /** The list can be expanded: it is not empty and no item is refused. */
  ghost predicate Accepted(items: seq<Item>, min: nat, max: nat) {
    items != [] && forall k | 0 <= k < |items| :: Bounds(items[k], min, max).Some?
  }

  /** The bitset holds the union of what the items set. */
  ghost predicate Expands(bits: seq<bool>, items: seq<Item>, min: nat, max: nat)
    requires Accepted(items, min, max)
  {
    && |bits| == max - min + 1
    && forall j | 0 <= j < |bits| :: bits[j] <==> exists k | 0 <= k < |items| :: SetsValue(items[k], min, max, j + min)
  }

  method SetCronField(items: seq<Item>, min: nat, max: nat) returns (r: Option<seq<bool>>)
    requires min <= max < min + 60
    ensures r.Some? <==> Accepted(items, min, max)
    ensures r.Some? ==> Expands(r.value, items, min, max) && true in r.value
  {
    hide SetsValue, Bounds;
    if items == [] {
      return None;
    }
    var bits := seq(max - min + 1, i => false);
    for k := 0 to |items|
      invariant |bits| == max - min + 1
      invariant forall i | 0 <= i < k :: Bounds(items[i], min, max).Some?
      invariant forall j | 0 <= j < |bits| ::
        bits[j] <==> exists i | 0 <= i < k :: SetsValue(items[i], min, max, j + min)
    {
      var next := SetItem(bits, items[k], min, max);
      if next.None? {
        return None;
      }
      bits := next.value;
    }
    SetsFirst(items[0], min, max);
    assert bits[Bounds(items[0], min, max).value.0 - min];
    r := Some(bits);
  }

  /** An item sets at least its first value. */
  lemma SetsFirst(item: Item, min: nat, max: nat)
    requires min <= max && Bounds(item, min, max).Some?
    ensures var first := Bounds(item, min, max).value.0;
      min <= first <= max && SetsValue(item, min, max, first)
  {
    BoundsAreInside(item, min, max);
    var (first, last) := Bounds(item, min, max).value;
    NthZero(first, Stride(first, Delta(item), min));
  }

  const ZERO := [Item(Number(0), NoIncrement)]

  /** A five-field expression gets the second 0. */
  function SixFields(fields: seq<seq<Item>>): seq<seq<Item>> {
    if |fields| == 5 then [ZERO] + fields else fields
  }

  ghost predicate AllAccepted(six: seq<seq<Item>>) {
    && |six| == 6
    && Accepted(six[0], 0, 59) && Accepted(six[1], 0, 59) && Accepted(six[2], 0, 23)
    && Accepted(six[3], 1, 31) && Accepted(six[4], 1, 12) && Accepted(six[5], 0, 6)
  }

  lemma ZeroIsSecondZero(v: int)
    ensures Accepted(ZERO, 0, 59) && (SetsValue(ZERO[0], 0, 59, v) <==> v == 0)
  {
    hide Nth;
    assert Bounds(ZERO[0], 0, 59) == Some((0, 0)) && Delta(ZERO[0]) == 1;
    SetsFirst(ZERO[0], 0, 59);
  }

  /** Each bitset is the expansion of its field. */
  ghost predicate Expanded(cex: CronExpr, six: seq<seq<Item>>)
    requires AllAccepted(six)
  {
    && Expands(cex.seconds, six[0], 0, 59) && Expands(cex.minutes, six[1], 0, 59) && Expands(cex.hours, six[2], 0, 23)
    && Expands(cex.daysOfMonth, six[3], 1, 31) && Expands(cex.months, six[4], 1, 12)
    && Expands(cex.daysOfWeek, six[5], 0, 6)
  }

  const STAR := [Item(Star, NoIncrement)]

  function NumberFields(n: seq<nat>): seq<seq<Item>> {
    if n == [] then [] else [[Item(Number(n[0]), NoIncrement)]] + NumberFields(n[1..])
  }

  lemma {:induction false} NumberFieldsAre(n: seq<nat>)
    ensures |NumberFields(n)| == |n|
    ensures forall i | 0 <= i < |n| :: NumberFields(n)[i] == [Item(Number(n[i]), NoIncrement)]
  {
    if n != [] {
      NumberFieldsAre(n[1..]);
    }
  }

  /** Six numbers mean seconds, minutes, hours, month day, month and weekday,
      in this order. */
  lemma NumbersMean(cex: CronExpr, n: seq<nat>, at: Stamp)
    requires |n| == 6 && n[0] < 60 && n[1] < 60 && n[2] < 24 && 1 <= n[3] <= 31 && 1 <= n[4] <= 12 && n[5] < 7
    requires cex.Valid() && at.Valid()
    requires AllAccepted(NumberFields(n)) && Expanded(cex, NumberFields(n))
    ensures Matches(cex, at) <==>
      && at.sec == n[0] && at.min == n[1] && at.hour == n[2]
      && MonthDay(at.day) == n[3] && MonthOf(at.day) % 12 == n[4] - 1 && WeekDay(at.day) == n[5]
  {
    hide Bounds, SetsValue, Expands, MonthDay, MonthOf, WeekDay, NumberFields;
    NumberFieldsAre(n);
    NumberIsOnly(cex.seconds, n[0], 0, 59);
    NumberIsOnly(cex.minutes, n[1], 0, 59);
    NumberIsOnly(cex.hours, n[2], 0, 23);
    NumberIsOnly(cex.daysOfMonth, n[3], 1, 31);
    NumberIsOnly(cex.months, n[4], 1, 12);
    NumberIsOnly(cex.daysOfWeek, n[5], 0, 6);
  }

  /** The fields of `minute hour * * *`. */
  function DailyFields(hour: nat, minute: nat): seq<seq<Item>> {
    [[Item(Number(minute), NoIncrement)], [Item(Number(hour), NoIncrement)], STAR, STAR, STAR]
  }

  /** They are accepted, and mean every day at that minute. */
  lemma DailyFieldsMeanDaily(cex: CronExpr, hour: nat, minute: nat)
    requires hour < 24 && minute < 60
    ensures var six := SixFields(DailyFields(hour, minute));
      AllAccepted(six) && (cex.Valid() && Expanded(cex, six) ==> Daily(cex, hour, minute))
  {
    hide SetsValue;
    var six := SixFields(DailyFields(hour, minute));
    WhichItems(six[0][0], 0, 59);
    WhichItems(six[1][0], 0, 59);
    WhichItems(six[2][0], 0, 23);
    hide Bounds;
    if cex.Valid() && Expanded(cex, six) {
      hide Expands;
      NumberIsOnly(cex.seconds, 0, 0, 59);
      NumberIsOnly(cex.minutes, minute, 0, 59);
      NumberIsOnly(cex.hours, hour, 0, 23);
      StarIsFull(cex.daysOfMonth, six[3], 1, 31);
      StarIsFull(cex.months, six[4], 1, 12);
      StarIsFull(cex.daysOfWeek, six[5], 0, 6);
    }
  }

  lemma StarsAreFull(cex: CronExpr, six: seq<seq<Item>>)
    requires AllAccepted(six) && Expanded(cex, six)
    ensures var star := Item(Star, NoIncrement);
      && (star in six[0] ==> Full(cex.seconds)) && (star in six[1] ==> Full(cex.minutes))
      && (star in six[2] ==> Full(cex.hours)) && (star in six[3] ==> Full(cex.daysOfMonth))
      && (star in six[4] ==> Full(cex.months)) && (star in six[5] ==> Full(cex.daysOfWeek))
  {
    hide Expands, Accepted, Full;
    var star := Item(Star, NoIncrement);
    if star in six[0] { StarIsFull(cex.seconds, six[0], 0, 59); }
    if star in six[1] { StarIsFull(cex.minutes, six[1], 0, 59); }
    if star in six[2] { StarIsFull(cex.hours, six[2], 0, 23); }
    if star in six[3] { StarIsFull(cex.daysOfMonth, six[3], 1, 31); }
    if star in six[4] { StarIsFull(cex.months, six[4], 1, 12); }
    if star in six[5] { StarIsFull(cex.daysOfWeek, six[5], 0, 6); }
  }

  /** `make_cron`, from split fields on: fields are seconds, minutes, hours,
      month days, months, weekdays. */
  method MakeCron(fields: seq<seq<Item>>) returns (r: Option<CronExpr>)
    ensures r.Some? <==> AllAccepted(SixFields(fields))
    ensures r.Some? ==> r.value.Valid() && Expanded(r.value, SixFields(fields))
    ensures r.Some? ==>
      var cex, six, star := r.value, SixFields(fields), Item(Star, NoIncrement);
      && (star in six[0] ==> Full(cex.seconds)) && (star in six[1] ==> Full(cex.minutes))
      && (star in six[2] ==> Full(cex.hours)) && (star in six[3] ==> Full(cex.daysOfMonth))
      && (star in six[4] ==> Full(cex.months)) && (star in six[5] ==> Full(cex.daysOfWeek))
    ensures r.Some? ==>
      forall h, m | 0 <= h < 24 && 0 <= m < 60 && fields == DailyFields(h, m) :: Daily(r.value, h, m)
    ensures r.Some? && |fields| == 5 ==> FiveFields(r.value)
  {
    hide SetsValue, Bounds;
    var six := SixFields(fields);
    if |six| != 6 {
      return None;
    }
    var seconds := SetCronField(six[0], 0, 59);
    if seconds.None? { return None; }
    var minutes := SetCronField(six[1], 0, 59);
    if minutes.None? { return None; }
    var hours := SetCronField(six[2], 0, 23);
    if hours.None? { return None; }
    var daysOfWeek := SetCronField(six[5], 0, 6);
    if daysOfWeek.None? { return None; }
    var daysOfMonth := SetCronField(six[3], 1, 31);
    if daysOfMonth.None? { return None; }
    var months := SetCronField(six[4], 1, 12);
    if months.None? { return None; }
    if |fields| == 5 {
      forall i | 0 <= i < 60
        ensures seconds.value[i] <==> i == 0
      {
        ZeroIsSecondZero(i);
        assert six[0] == ZERO;
        assert seconds.value[i] <==> exists k | 0 <= k < 1 :: SetsValue(ZERO[k], 0, 59, i + 0);
      }
    }
    var cex :=
      CronExpr(seconds.value, minutes.value, hours.value, daysOfWeek.value, daysOfMonth.value, months.value);
    StarsAreFull(cex, six);
    r := Some(cex);
    forall h, m | 0 <= h < 24 && 0 <= m < 60 && fields == DailyFields(h, m)
      ensures Daily(cex, h, m)
    {
      DailyFieldsMeanDaily(cex, h, m);
    }
  }
}
