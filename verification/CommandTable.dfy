/** Registered command keys: the table a trie stands for, and what a linear scan
    of the registrations finds. */
module CommandTable {
  import opened Wrappers

  /** A service, by identity. */
  type Service = nat

  /** `size_t` wraps here. */
  const SIZE_LIMIT := 0x1_0000_0000_0000_0000

  /** `std::tolower` in the default locale. */
  function LowerChar(c: char): char {
    if 'A' <= c <= 'Z' then ((c as int) + 32) as char else c
  }

  function Lower(s: string): (r: string)
    ensures |r| == |s|
    ensures forall i | 0 <= i < |s| :: r[i] == LowerChar(s[i])
  {
    if s == "" then "" else [LowerChar(s[0])] + Lower(s[1..])
  }

  /** One is the capital of the other. */
  predicate IsCapital(c: char, d: char) {
    exists k | 0 <= k < 26 :: c == "ABCDEFGHIJKLMNOPQRSTUVWXYZ"[k] && d == "abcdefghijklmnopqrstuvwxyz"[k]
  }

  /** The same text up to the case of its letters. */
  predicate SameButCase(a: string, b: string) {
    |a| == |b| && forall i | 0 <= i < |a| :: a[i] == b[i] || IsCapital(a[i], b[i]) || IsCapital(b[i], a[i])
  }

  lemma CapitalIs(c: char, d: char)
    ensures IsCapital(c, d) <==> 'A' <= c <= 'Z' && d as int == c as int + 32
  {
    var upper, lower := "ABCDEFGHIJKLMNOPQRSTUVWXYZ", "abcdefghijklmnopqrstuvwxyz";
    assert forall k | 0 <= k < 26 :: upper[k] as int == 65 + k && lower[k] as int == 97 + k;
    if 'A' <= c <= 'Z' && d as int == c as int + 32 {
      var k := c as int - 65;
      assert c == upper[k] && d == lower[k];
    }
  }

  /** Two texts are the same in lower case exactly if they are the same up to
      the case of their letters. */
  lemma LowerIsButCase(a: string, b: string)
    ensures Lower(a) == Lower(b) <==> SameButCase(a, b)
  {
    hide Lower, IsCapital;
    if |a| == |b| {
      forall i | 0 <= i < |a|
        ensures LowerChar(a[i]) == LowerChar(b[i]) <==> a[i] == b[i] || IsCapital(a[i], b[i]) || IsCapital(b[i], a[i])
      {
        CapitalIs(a[i], b[i]);
        CapitalIs(b[i], a[i]);
      }
      if Lower(a) == Lower(b) {
        forall i | 0 <= i < |a|
          ensures LowerChar(a[i]) == LowerChar(b[i])
        {
          assert Lower(a)[i] == Lower(b)[i];
        }
      }
    }
  }

  /** Lower case changes capitals only. */
  lemma LowerAlphabet(c: char)
    ensures Lower("ABCDEFGHIJKLMNOPQRSTUVWXYZ") == "abcdefghijklmnopqrstuvwxyz"
    ensures c !in "ABCDEFGHIJKLMNOPQRSTUVWXYZ" ==> LowerChar(c) == c
  {
    hide Lower;
    var upper := "ABCDEFGHIJKLMNOPQRSTUVWXYZ";
    assert forall k | 0 <= k < 26 :: upper[k] as int == 65 + k;
    if 'A' <= c <= 'Z' {
      assert c == upper[c as int - 65];
    }
  }

  function Reversed(s: string): (r: string)
    ensures |r| == |s|
    ensures forall i | 0 <= i < |s| :: r[i] == s[|s| - 1 - i]
  {
    if s == "" then "" else Reversed(s[1..]) + [s[0]]
  }

  /** What a key is registered with. A key read from the back has the
      negated size, in `size_t`. */
  datatype Command = Command(service: Service, size: nat)

  function SizeOf(n: nat, fromBack: bool): nat {
    if fromBack then (SIZE_LIMIT - n % SIZE_LIMIT) % SIZE_LIMIT else n
  }

  datatype Registration = Registration(key: string, service: Service)

  /** The key as it is walked. */
  function Walked(key: string, fromBack: bool): string {
    Lower(if fromBack then Reversed(key) else key)
  }

  /** The first registration of a key wins. */
  function Register(m: map<string, Command>, r: Registration, fromBack: bool): map<string, Command> {
    var path := Walked(r.key, fromBack);
    if path in m then m else m[path := Command(r.service, SizeOf(|r.key|, fromBack))]
  }

  function RegisterAll(rs: seq<Registration>, fromBack: bool): map<string, Command> {
    if rs == [] then map[] else Register(RegisterAll(rs[..|rs| - 1], fromBack), rs[|rs| - 1], fromBack)
  }

  /** The longest key that begins the text, not longer than `n`. */
  function Longest(m: map<string, Command>, text: string, n: nat): Option<Command>
    requires n <= |text|
  {
    if n == 0 then None
    else if text[..n] in m then Some(m[text[..n]])
    else Longest(m, text, n - 1)
  }

  /** The shortest key that begins the text, longer than `n`. */
  function Shortest(m: map<string, Command>, text: string, n: nat): Option<Command>
    requires n <= |text|
    decreases |text| - n
  {
    if n == |text| then None
    else if text[..n + 1] in m then Some(m[text[..n + 1]])
    else Shortest(m, text, n + 1)
  }

  // ----- The linear scan -----

  /** A registered key that is not empty and begins (or ends) the text, up to
      the case of letters. */
  ghost predicate Begins(key: string, text: string, fromBack: bool) {
    && key != "" && |key| <= |text|
    && SameButCase(key, if fromBack then text[|text| - |key|..] else text[..|key|])
  }

  /** Registration `i` is the one a linear scan prefers: of the longest (or
      shortest) key that matches, the first. */
  ghost predicate Preferred(rs: seq<Registration>, text: string, fromBack: bool, longest: bool, i: int) {
    && 0 <= i < |rs| && Begins(rs[i].key, text, fromBack)
    && forall j | 0 <= j < |rs| && Begins(rs[j].key, text, fromBack) ::
         || (if longest then |rs[j].key| < |rs[i].key| else |rs[i].key| < |rs[j].key|)
         || (|rs[j].key| == |rs[i].key| && i <= j)
  }

  ghost predicate NoneBegins(rs: seq<Registration>, text: string, fromBack: bool) {
    forall i | 0 <= i < |rs| :: !Begins(rs[i].key, text, fromBack)
  }

  lemma {:induction false} LowerTake(s: string, n: nat)
    requires n <= |s|
    ensures Lower(s)[..n] == Lower(s[..n])
  {
    hide Lower;
  }

  lemma {:induction false} LowerReversed(s: string)
    ensures Lower(Reversed(s)) == Reversed(Lower(s))
  {
    hide *;
    forall i | 0 <= i < |s|
      ensures Lower(Reversed(s))[i] == Reversed(Lower(s))[i]
    {
    }
  }

  lemma {:induction false} ReversedTwice(s: string)
    ensures Reversed(Reversed(s)) == s
  {
    hide *;
    forall i | 0 <= i < |s|
      ensures Reversed(Reversed(s))[i] == s[i]
    {
      assert Reversed(s)[|s| - 1 - i] == s[i];
    }
  }

  lemma {:induction false} ReversedTake(s: string, n: nat)
    requires n <= |s|
    ensures Reversed(s)[..n] == Reversed(s[|s| - n..])
  {
    hide Reversed;
    var t := s[|s| - n..];
    forall i | 0 <= i < n
      ensures Reversed(s)[i] == Reversed(t)[i]
    {
      assert t[n - 1 - i] == s[|s| - 1 - i];
    }
  }

  lemma SameBackwards(a: string, b: string)
    ensures Lower(Reversed(a)) == Lower(Reversed(b)) <==> Lower(a) == Lower(b)
  {
    hide *;
    LowerReversed(a);
    LowerReversed(b);
    ReversedTwice(Lower(a));
    ReversedTwice(Lower(b));
  }

  /** The key begins the walked text exactly if it matches. */
  lemma BeginsIsPrefix(key: string, text: string, fromBack: bool)
    requires key != ""
    ensures |Walked(key, fromBack)| == |key| && |Walked(text, fromBack)| == |text|
    ensures Begins(key, text, fromBack) <==> |key| <= |text| && Walked(text, fromBack)[..|key|] == Walked(key, fromBack)
  {
    hide Lower, Reversed, SameButCase;
    if |key| <= |text| {
      LowerIsButCase(key, if fromBack then text[|text| - |key|..] else text[..|key|]);
      if fromBack {
        LowerTake(Reversed(text), |key|);
        ReversedTake(text, |key|);
        SameBackwards(key, text[|text| - |key|..]);
      } else {
        LowerTake(text, |key|);
      }
    }
  }

  /** Registration `i` is the first that walks this path. */
  ghost predicate First(rs: seq<Registration>, fromBack: bool, path: string, i: int) {
    && 0 <= i < |rs| && Walked(rs[i].key, fromBack) == path
    && forall j | 0 <= j < i :: Walked(rs[j].key, fromBack) != path
  }

  /** The table holds each key with its first registration. */
  lemma {:induction false} FirstWins(rs: seq<Registration>, fromBack: bool, path: string) returns (i: int)
    ensures path in RegisterAll(rs, fromBack) ==>
      First(rs, fromBack, path, i)
        && RegisterAll(rs, fromBack)[path] == Command(rs[i].service, SizeOf(|rs[i].key|, fromBack))
    ensures path !in RegisterAll(rs, fromBack) ==> forall j | 0 <= j < |rs| :: Walked(rs[j].key, fromBack) != path
  {
    hide Walked, SizeOf;
    i := 0;
    if rs != [] {
      var front, last := rs[..|rs| - 1], rs[|rs| - 1];
      i := FirstWins(front, fromBack, path);
      forall j | 0 <= j < |front|
        ensures rs[j] == front[j]
      {
      }
      if path !in RegisterAll(front, fromBack) {
        i := |front|;
      }
    }
  }

  lemma {:induction false} LongestIs(m: map<string, Command>, text: string, n: nat) returns (k: nat)
    requires n <= |text|
    ensures k <= n && forall l | k < l <= n :: text[..l] !in m
    ensures k == 0 <==> Longest(m, text, n).None?
    ensures k > 0 ==> text[..k] in m && Longest(m, text, n) == Some(m[text[..k]])
  {
    if n == 0 || text[..n] in m {
      k := n;
    } else {
      k := LongestIs(m, text, n - 1);
    }
  }

  lemma {:induction false} ShortestIs(m: map<string, Command>, text: string, n: nat) returns (k: nat)
    requires n <= |text|
    ensures n < k && forall l | n < l < k && l <= |text| :: text[..l] !in m
    ensures k > |text| <==> Shortest(m, text, n).None?
    ensures k <= |text| ==> text[..k] in m && Shortest(m, text, n) == Some(m[text[..k]])
    decreases |text| - n
  {
    if n == |text| || text[..n + 1] in m {
      k := n + 1;
    } else {
      k := ShortestIs(m, text, n + 1);
    }
  }

  /** The first registration whose key has length `k`, if no key of a better
      length matches. */
  lemma BestLength(rs: seq<Registration>, text: string, fromBack: bool, longest: bool, k: nat) returns (i: int)
    requires var t := Walked(text, fromBack);
      && 0 < k <= |t| && t[..k] in RegisterAll(rs, fromBack)
      && forall l | 0 < l <= |t| && (if longest then k < l else l < k) :: t[..l] !in RegisterAll(rs, fromBack)
    ensures Preferred(rs, text, fromBack, longest, i)
    ensures RegisterAll(rs, fromBack)[Walked(text, fromBack)[..k]]
      == Command(rs[i].service, SizeOf(|rs[i].key|, fromBack))
  {
    hide Lower, Reversed, RegisterAll, Begins, Walked, SizeOf;
    var t, m := Walked(text, fromBack), RegisterAll(rs, fromBack);
    i := FirstWins(rs, fromBack, t[..k]);
    WalkedLength(rs[i].key, fromBack);
    BeginsIsPrefix(rs[i].key, text, fromBack);
    forall j | 0 <= j < |rs| && Begins(rs[j].key, text, fromBack)
      ensures (if longest then |rs[j].key| < k else k < |rs[j].key|) || (|rs[j].key| == k && i <= j)
    {
      MatchIsInTable(rs, text, fromBack, j);
    }
  }

  lemma MatchIsInTable(rs: seq<Registration>, text: string, fromBack: bool, j: int)
    requires 0 <= j < |rs| && Begins(rs[j].key, text, fromBack)
    ensures var t, n := Walked(text, fromBack), |rs[j].key|;
      0 < n <= |t| && t[..n] == Walked(rs[j].key, fromBack) && t[..n] in RegisterAll(rs, fromBack)
  {
    hide Lower, Reversed, RegisterAll, Begins, Walked;
    BeginsNotEmpty(rs[j].key, text, fromBack);
    BeginsIsPrefix(rs[j].key, text, fromBack);
    var i := FirstWins(rs, fromBack, Walked(rs[j].key, fromBack));
  }

  /** Looking up the longest key answers what a linear scan of all
      registrations answers, forwards and from the back. */
  lemma LongestIsLinearScan(rs: seq<Registration>, text: string, fromBack: bool)
    ensures var t := Walked(text, fromBack);
      var r := Longest(RegisterAll(rs, fromBack), t, |t|);
      && (r.None? <==> NoneBegins(rs, text, fromBack))
      && (r.Some? ==> exists i ::
            Preferred(rs, text, fromBack, true, i) && r.value == Command(rs[i].service, SizeOf(|rs[i].key|, fromBack)))
  {
    hide Lower, Reversed, RegisterAll, Begins, Walked, Longest, SizeOf;
    var t, m := Walked(text, fromBack), RegisterAll(rs, fromBack);
    var k := LongestIs(m, t, |t|);
    forall i | 0 <= i < |rs| && Begins(rs[i].key, text, fromBack)
      ensures k > 0
    {
      MatchIsInTable(rs, text, fromBack, i);
    }
    if k > 0 {
      var i := BestLength(rs, text, fromBack, true, k);
    }
  }

  /** The same for the shortest key. */
  lemma ShortestIsLinearScan(rs: seq<Registration>, text: string, fromBack: bool)
    ensures var r := Shortest(RegisterAll(rs, fromBack), Walked(text, fromBack), 0);
      && (r.None? <==> NoneBegins(rs, text, fromBack))
      && (r.Some? ==> exists i ::
            Preferred(rs, text, fromBack, false, i) && r.value == Command(rs[i].service, SizeOf(|rs[i].key|, fromBack)))
  {
    hide Lower, Reversed, RegisterAll, Begins, Walked, Shortest, SizeOf;
    var t, m := Walked(text, fromBack), RegisterAll(rs, fromBack);
    var k := ShortestIs(m, t, 0);
    forall i | 0 <= i < |rs| && Begins(rs[i].key, text, fromBack)
      ensures k <= |t|
    {
      MatchIsInTable(rs, text, fromBack, i);
    }
    if k <= |t| {
      var i := BestLength(rs, text, fromBack, false, k);
    }
  }

  /** The case of a message's letters does not matter. */
  lemma CaseDoesNotMatter(rs: seq<Registration>, a: string, b: string, fromBack: bool)
    requires SameButCase(a, b)
    ensures var s, t, table := Walked(a, fromBack), Walked(b, fromBack), RegisterAll(rs, fromBack);
      Longest(table, s, |s|) == Longest(table, t, |t|) && Shortest(table, s, 0) == Shortest(table, t, 0)
  {
    hide Lower, Reversed, SameButCase, RegisterAll;
    LowerIsButCase(a, b);
    SameBackwards(a, b);
  }

  lemma BeginsNotEmpty(key: string, text: string, fromBack: bool)
    requires Begins(key, text, fromBack)
    ensures key != ""
  {
  }

  lemma WalkedLength(key: string, fromBack: bool)
    ensures |Walked(key, fromBack)| == |key|
  {
  }
}
