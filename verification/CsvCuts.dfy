/** Reading a list of records in two parts: when a line feed at the cut would
    have swallowed an empty line behind it. */
module CsvCuts {
  import opened CsvRoundTrip

  /** The line feeds that end the text of the records. */
  function TrailingFeeds(records: seq<seq<string>>): (n: nat)
    ensures n <= |records|
  {
    if records == [] then 0
    else if Blank(records[|records| - 1]) then 1 + TrailingFeeds(records[..|records| - 1])
    else 1
  }

  /** The line feeds, which are empty lines, that begin it. */
  function LeadingFeeds(records: seq<seq<string>>): nat {
    if records == [] || !Blank(records[0]) then 0 else 1 + LeadingFeeds(records[1..])
  }

  /** Between `a` and `b` a line feed is separated from the one it would
      swallow: there are oddly many on both sides. */
  predicate CutsLine(a: seq<seq<string>>, b: seq<seq<string>>) {
    TrailingFeeds(a) % 2 == 1 && LeadingFeeds(b) % 2 == 1
  }

  /** The last line feed of the records ends a row that has not yet swallowed
      one. */
  function Open(records: seq<seq<string>>): bool
    decreases |records|
  {
    if records == [] then false
    else if |records| == 1 then true
    else Open(AfterFirst(records, "\n"))
  }

  lemma AfterFirstAppend(a: seq<seq<string>>, b: seq<seq<string>>)
    requires |a| > 1
    ensures AfterFirst(a + b, "\n") == AfterFirst(a, "\n") + b
  {
    hide Blank;
    assert (a + b)[1] == a[1];
    assert (a + b)[1..] == a[1..] + b && (a + b)[2..] == a[2..] + b;
  }

  lemma AfterOne(x: seq<string>, b: seq<seq<string>>)
    ensures AfterFirst([x] + b, "\n") == if b != [] && Blank(b[0]) then b[1..] else b
  {
    hide Blank;
    assert ([x] + b)[1..] == b;
    assert b != [] ==> ([x] + b)[1] == b[0] && ([x] + b)[2..] == b[1..];
  }

  lemma {:induction false} OpenAppend(a: seq<seq<string>>, r: seq<string>)
    requires a != []
    ensures Open(a + [r]) <==> (Blank(r) ==> !Open(a))
    decreases |a|
  {
    hide Blank, AfterFirst;
    if |a| == 1 {
      AfterOne(a[0], [r]);
      assert a == [a[0]];
    } else {
      AfterFirstAppend(a, [r]);
      FewerRecords(a, "\n");
      var rest := AfterFirst(a, "\n");
      if rest != [] {
        OpenAppend(rest, r);
      } else {
        assert rest + [r] == [r];
      }
    }
  }

  lemma {:induction false} OpenIsOdd(a: seq<seq<string>>)
    ensures Open(a) <==> TrailingFeeds(a) % 2 == 1
  {
    if a != [] {
      var front, r := a[..|a| - 1], a[|a| - 1];
      OpenIsOdd(front);
      assert a == front + [r];
      if front != [] {
        OpenAppend(front, r);
      }
    }
  }

  lemma {:induction false} ReadBackInTwo(a: seq<seq<string>>, b: seq<seq<string>>)
    ensures var rest := if Open(a) && b != [] && Blank(b[0]) then b[1..] else b;
      ReadBack(a + b, "\n") == ReadBack(a, "\n") + ReadBack(rest, "\n")
    decreases |a|
  {
    hide Blank, AfterFirst, Normal;
    if a == [] {
      assert a + b == b;
    } else {
      FewerRecords(a, "\n");
      var rest := AfterFirst(a, "\n");
      if |a| == 1 {
        AfterOne(a[0], b);
        assert a == [a[0]] && rest == [];
      } else {
        AfterFirstAppend(a, b);
        ReadBackInTwo(rest, b);
      }
    }
  }

  /** An empty line more or less in front makes a difference exactly if there
      are oddly many. */
  lemma {:induction false} OneFeedLess(b: seq<seq<string>>)
    requires b != [] && Blank(b[0])
    ensures |ReadBack(b, "\n")| == |ReadBack(b[1..], "\n")| + LeadingFeeds(b) % 2
    ensures LeadingFeeds(b) % 2 == 0 ==> ReadBack(b, "\n") == ReadBack(b[1..], "\n")
    decreases |b|
  {
    hide Blank;
    if |b| > 1 && Blank(b[1]) {
      var c := b[2..];
      assert b[1..][1..] == c;
      BlankIsEmpty(b[0]);
      BlankIsEmpty(b[1]);
      assert |b| > 2 ==> b[1..][1] == c[0] && b[1..][2..] == c[1..];
      if c != [] && Blank(c[0]) {
        OneFeedLess(c);
      }
    }
  }

  lemma BlankIsEmpty(record: seq<string>)
    requires Blank(record)
    ensures Normal(record) == [""]
  {
  }

  /** Reading in two parts gives the rows of reading at once, unless a line is
      cut, and then one row more. */
  lemma CutAdds(a: seq<seq<string>>, b: seq<seq<string>>)
    ensures !CutsLine(a, b) ==> ReadBack(a, "\n") + ReadBack(b, "\n") == ReadBack(a + b, "\n")
    ensures CutsLine(a, b) ==> |ReadBack(a, "\n") + ReadBack(b, "\n")| == |ReadBack(a + b, "\n")| + 1
  {
    hide ReadBack, Open, TrailingFeeds;
    OpenIsOdd(a);
    ReadBackInTwo(a, b);
    if b != [] && Blank(b[0]) {
      OneFeedLess(b);
    }
  }
}
