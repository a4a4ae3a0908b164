/** Names for tasks added without one. */
module TaskNames {
  import opened FiniteSets

  /** `size_t` counters wrap here. */
  const SIZE_LIMIT := 0x1_0000_0000_0000_0000

  function Digit(d: nat): char
    requires d < 10
  {
    (('0' as int) + d) as char
  }

  /** `std::to_string`. */
  function Decimal(n: nat): (s: string)
    ensures s != ""
  {
    (if n < 10 then "" else Decimal(n / 10)) + [Digit(n % 10)]
  }

  lemma {:induction false} DecimalInjective(a: nat, b: nat)
    requires Decimal(a) == Decimal(b)
    ensures a == b
  {
    var s, t := Decimal(a), Decimal(b);
    assert s[|s| - 1] == Digit(a % 10) && t[|t| - 1] == Digit(b % 10);
    assert s[..|s| - 1] == t[..|t| - 1];
    if a >= 10 && b >= 10 {
      assert s[..|s| - 1] == Decimal(a / 10) && t[..|t| - 1] == Decimal(b / 10);
      DecimalInjective(a / 10, b / 10);
    }
  }

  /** A decimal numeral, read from the left. */
  function Numeral(s: string): int {
    if s == "" then 0 else 10 * Numeral(s[..|s| - 1]) + (s[|s| - 1] as int - '0' as int)
  }

  /** It is the decimal numeral of the number, without leading zeros. */
  lemma {:induction false} DecimalReads(n: nat)
    ensures var s := Decimal(n);
      && Numeral(s) == n && (forall i | 0 <= i < |s| :: s[i] in "0123456789")
      && (s[0] == '0' ==> n == 0) && (n == 0 ==> s == "0")
  {
    var s := Decimal(n);
    assert s[..|s| - 1] == (if n < 10 then "" else Decimal(n / 10)) && s[|s| - 1] == Digit(n % 10);
    assert "0123456789"[n % 10] == Digit(n % 10);
    if n >= 10 {
      DecimalReads(n / 10);
      assert s[0] == Decimal(n / 10)[0];
    }
  }

  const INTERNAL := "__internal__"

  function InternalName(k: nat): string {
    INTERNAL + Decimal(k)
  }

  /** The names are a prefix and the number, and the counter wraps at 2^64. */
  lemma FirstNames(k: nat)
    ensures InternalName(k) == "__internal__" + Decimal(k)
    ensures InternalName(0) == "__internal__0" && InternalName(10) == "__internal__10"
    ensures Succ(0xFFFF_FFFF_FFFF_FFFF) == 0
  {
    DecimalReads(0);
    assert Decimal(10) == Decimal(1) + "0" && Decimal(1) == "1";
  }

  lemma NamesDiffer(a: nat, b: nat)
    requires InternalName(a) == InternalName(b)
    ensures a == b
  {
    assert InternalName(a)[|INTERNAL|..] == Decimal(a) && InternalName(b)[|INTERNAL|..] == Decimal(b);
    DecimalInjective(a, b);
  }

  /** The names of the first `n` numbers are as many. */
  lemma {:induction false} NameCount(n: nat)
    ensures |set k: nat | k < n :: InternalName(k)| == n
  {
    if n > 0 {
      var before := set k: nat | k < n - 1 :: InternalName(k);
      NameCount(n - 1);
      if InternalName(n - 1) in before {
        var k: nat :| k < n - 1 && InternalName(k) == InternalName(n - 1);
        NamesDiffer(k, n - 1);
      }
      assert (set k: nat | k < n :: InternalName(k)) == before + {InternalName(n - 1)};
    }
  }

  /** Fewer names taken than the counter has values: one is free. */
  lemma SomeNameIsFree(taken: set<string>)
    requires |taken| < SIZE_LIMIT
    ensures exists k: nat :: k < SIZE_LIMIT && InternalName(k) !in taken
  {
    NameCount(SIZE_LIMIT);
    var all := set k: nat | k < SIZE_LIMIT :: InternalName(k);
    if all <= taken {
      SubsetSize(all, taken);
    }
    var name :| name in all && name !in taken;
  }

  ghost function FreeNumber(taken: set<string>): (k: nat)
    requires |taken| < SIZE_LIMIT
    ensures k < SIZE_LIMIT && InternalName(k) !in taken
  {
    SomeNameIsFree(taken);
    var k: nat :| k < SIZE_LIMIT && InternalName(k) !in taken;
    k
  }

  function Succ(n: nat): nat {
    (n + 1) % SIZE_LIMIT
  }

  /** How far the counter has to go to a number. */
  ghost function Distance(n: nat, k: nat): nat {
    (k - n) % SIZE_LIMIT
  }

  lemma Closer(n: nat, k: nat)
    requires n < SIZE_LIMIT && k < SIZE_LIMIT && n != k
    ensures Distance(Succ(n), k) == Distance(n, k) - 1
  {
  }

  /** The first number from `n` on, in the order of the wrapping counter,
      whose name is free. */
  function FirstFree(taken: set<string>, n: nat): (k: nat)
    requires |taken| < SIZE_LIMIT && n < SIZE_LIMIT
    ensures k < SIZE_LIMIT && InternalName(k) !in taken
    ensures forall j: nat | j < SIZE_LIMIT && Distance(n, j) < Distance(n, k) :: InternalName(j) in taken
    decreases Distance(n, FreeNumber(taken))
  {
    if InternalName(n) !in taken then n
    else
      Closer(n, FreeNumber(taken));
      var k := FirstFree(taken, Succ(n));
      TakenBefore(taken, n, k);
      k
  }

  lemma TakenBefore(taken: set<string>, n: nat, k: nat)
    requires n < SIZE_LIMIT && k < SIZE_LIMIT && InternalName(n) in taken && InternalName(k) !in taken
    requires forall j: nat | j < SIZE_LIMIT && Distance(Succ(n), j) < Distance(Succ(n), k) :: InternalName(j) in taken
    ensures forall j: nat | j < SIZE_LIMIT && Distance(n, j) < Distance(n, k) :: InternalName(j) in taken
  {
    forall j: nat | j < SIZE_LIMIT && Distance(n, j) < Distance(n, k)
      ensures InternalName(j) in taken
    {
      if j != n {
        Closer(n, j);
        Closer(n, k);
      }
    }
  }
}
