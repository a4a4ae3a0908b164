/** A source shorter than the standard window ends with its first window,
    whatever that holds. */
module CsvSmallSource {
  import opened CsvFormat
  import opened CsvState
  import opened CsvRoundTrip
  import opened CsvParts
  import opened CsvCuts
  import opened CsvWindow

  /** The last record that makes a row: not an empty line that the line feed
      before it swallows. */
  function LastRead(records: seq<seq<string>>): (d: nat)
    requires records != []
    ensures d < |records|
  {
    if TrailingFeeds(records) % 2 == 1 then |records| - 1 else |records| - 2
  }

  /** How many characters of the text have to be there: of the last row that is
      read everything but its line feed and a closing quote before that; of an
      empty line its line feed. */
  function Needed(fmt: Format, records: seq<seq<string>>): nat
    requires records != []
  {
    var d := LastRead(records);
    |Text(fmt, records[..d], "\n")| + if Blank(records[d]) then 1 else RowReach(fmt, records[d])
  }

  lemma NeededInside(fmt: Format, records: seq<seq<string>>, n: nat)
    requires records != [] && LastRead(records) < n <= |records|
    ensures Needed(fmt, records) <= |Text(fmt, records[..n], "\n")|
  {
    hide Text, LastRead, RowReach;
    var d := LastRead(records);
    OneMoreText(fmt, records, d);
    TextCut(fmt, records[..n], d + 1);
    assert records[..n][..d + 1] == records[..d + 1];
  }

  lemma NeededBeyond(fmt: Format, records: seq<seq<string>>, n: nat, length: nat)
    requires records != [] && n < LastRead(records)
    requires length < |Text(fmt, records[..n], "\n")| + |RowText(fmt, records[n], "\n")|
    ensures length < Needed(fmt, records)
  {
    hide Text, LastRead, RowReach, RowText;
    var d := LastRead(records);
    OneMoreText(fmt, records, n);
    TextCut(fmt, records[..d], n + 1);
    assert records[..d][..n + 1] == records[..n + 1];
  }

  lemma {:induction false} RowReachIs(fmt: Format, values: seq<string>)
    requires values != []
    ensures RowReach(fmt, values) == |Joined(fmt, values)| - if NeedsQuotes(fmt, values[|values| - 1]) then 1 else 0
  {
    hide Escaped, NeedsQuotes;
    if |values| == 1 {
      EscapedIs(fmt, values[0]);
    } else {
      RowReachIs(fmt, values[1..]);
    }
  }

  /** For a last record that is no empty line: all but one character of the
      source, or but two if its last field is quoted. */
  lemma NeededIs(fmt: Format, records: seq<seq<string>>)
    requires records != [] && !Blank(records[|records| - 1])
    ensures var last := records[|records| - 1];
      Needed(fmt, records) == |Text(fmt, records, "\n")| - if NeedsQuotes(fmt, last[|last| - 1]) then 2 else 1
  {
    hide Text, Joined, NeedsQuotes, RowReach;
    var n := |records| - 1;
    OneMoreText(fmt, records, n);
    assert records[..n + 1] == records;
    RowReachIs(fmt, records[n]);
  }

  /** Where the records in front and those from index `n` on are read apart. */
  lemma InTwo(records: seq<seq<string>>, n: nat)
    requires n < |records|
    ensures var a, b := records[..n], records[n..];
      && a + b == records && b[0] == records[n]
      && (Blank(b[0]) ==> ReadBack(records, "\n") == ReadBack(a, "\n") + ReadBack(if Open(a) then b[1..] else b, "\n"))
      && (!Blank(b[0]) ==> ReadBack(records, "\n") == ReadBack(a, "\n") + [b[0]] + ReadBack(AfterFirst(b, "\n"), "\n"))
  {
    hide Open, AfterFirst;
    var a, b := records[..n], records[n..];
    assert a + b == records;
    ReadBackInTwo(a, b);
    ReadBackSplits(b);
    assert !Blank(b[0]) ==> Normal(b[0]) == b[0];
    AppendFirst(ReadBack(a, "\n"), b[0], ReadBack(AfterFirst(b, "\n"), "\n"));
  }

  lemma OpenUpTo(records: seq<seq<string>>, n: nat)
    requires n < |records|
    ensures Open(records[..n + 1]) <==> (n > 0 && Blank(records[n]) ==> !Open(records[..n]))
  {
    hide Blank;
    assert records[..n + 1] == records[..n] + [records[n]];
    if n > 0 {
      OpenAppend(records[..n], records[n]);
    }
  }

  lemma OpenLast(records: seq<seq<string>>)
    requires records != []
    ensures var d := LastRead(records);
      && d == (if Open(records) then |records| - 1 else |records| - 2)
      && (d == |records| - 2 ==> Open(records[..d + 1]) && Blank(records[d + 1]))
      && (d == |records| - 1 && Blank(records[d]) ==> !Open(records[..d]))
  {
    hide Open, Blank, TrailingFeeds;
    OpenIsOdd(records);
    assert records[..|records|] == records;
    OpenUpTo(records, |records| - 1);
    NoneOpen(records[..0]);
  }

  lemma NoneOpen(a: seq<seq<string>>)
    requires a == []
    ensures !Open(a)
  {
  }

  /** What the rows in front leave to be read. */
  lemma LeftToRead(records: seq<seq<string>>, n: nat)
    requires n < |records|
    ensures var a, d, b := records[..n], LastRead(records), records[n..];
      && (n > d ==> ReadBack(a, "\n") == ReadBack(records, "\n"))
      && (n <= d && Blank(b[0]) ==> |ReadBack(a, "\n")| < |ReadBack(records, "\n")|)
      && (n == d && !Blank(b[0]) ==> ReadBack(records, "\n") == ReadBack(a, "\n") + [b[0]])
      && (n < d && !Blank(b[0]) ==> |ReadBack(a, "\n")| + 1 < |ReadBack(records, "\n")|)
  {
    hide Open, LastRead, ReadBack, Blank;
    var a, d, b := records[..n], LastRead(records), records[n..];
    InTwo(records, n);
    OpenLast(records);
    NotEmptyRead(b);
    NotEmptyRead(b[1..]);
    NotEmptyRead(AfterFirst(b, "\n"));
    NothingRead();
    if n == d {
      assert d == |records| - 2 ==> b[1] == records[d + 1];
      assert AfterFirst(b, "\n") == [];
      var front := ReadBack(a, "\n") + [b[0]];
      assert front + [] == front;
    } else if n < d && |b| == 2 {
      assert b[1] == records[d] && !Blank(b[0]) ==> !Blank(b[1]) by {
        OpenUpTo(records, n);
        assert records[..n + 1] == records[..d];
      }
    }
  }

  lemma NotEmptyRead(b: seq<seq<string>>)
    ensures b != [] ==> ReadBack(b, "\n") != []
  {
  }

  lemma NothingRead()
    ensures ReadBack([], "\n") == []
  {
  }

  lemma DeliveredIs(fmt: Format, data: string, st: State, rows: seq<seq<string>>)
    ensures OutIs(fmt, [] + Deliver(data, st), rows) <==> RowsAre(fmt, data, st.fields, st.records, rows)
  {
    hide RowIs;
    var out := [] + Deliver(data, st);
    assert |out| == |st.records|;
    forall k | 0 <= k < |out|
      ensures out[k] == CSVRow(data, st.fields, st.records[k])
    {
    }
  }

  /** What the end of the input makes of a block that ends in front of record
      `n` or inside it. */
  lemma EndOfSource(fmt: Format, data: string, m: State, records: seq<seq<string>>, n: nat)
    requires fmt.Valid() && AtRow(m) && m.Placed() && m.dataPos <= |data| && n < |records|
    requires data <= Text(fmt, records, "\n") && m.dataPos == |Text(fmt, records[..n], "\n")|
    requires RowsAre(fmt, data, m.fields, m.records, ReadBack(records[..n], "\n"))
    requires Normal(records[n]) != [] && data[m.dataPos..] <= Joined(fmt, Normal(records[n]))
    ensures var r, a := EndFeed(fmt, data, Run(fmt, data, m)), ReadBack(records[..n], "\n");
      && (Blank(records[n]) ==> RowsAre(fmt, data, r.fields, r.records, a))
      && (!Blank(records[n]) ==>
            && |a| <= |r.records| <= |a| + 1
            && (|data| - m.dataPos >= RowReach(fmt, records[n])
                <==> RowsAre(fmt, data, r.fields, r.records, a + [records[n]])))
  {
    hide Run, EndFeed, Text, RowReach, Joined, ReadBack, RowIs, AtField, ParseFlag;
    var r, a := EndFeed(fmt, data, Run(fmt, data, m)), ReadBack(records[..n], "\n");
    BeforeRow(fmt, data, m.dataPos, records, n);
    EndOfPart(fmt, data, m, Normal(records[n]));
    RowsStay(fmt, data, m.fields, r.fields, m.records, a);
    OneMore(fmt, data, r, m.records, a, records[n]);
  }

  lemma OneMore(fmt: Format, data: string, r: State, rows: seq<Row>, a: seq<seq<string>>, record: seq<string>)
    requires RowsAre(fmt, data, r.fields, rows, a) && rows <= r.records && |r.records| <= |rows| + 1
    ensures RowsAre(fmt, data, r.fields, r.records, a + [record])
       <==> |r.records| > |rows| && RowIs(fmt, data, r.fields, r.records[|rows|], record)
    ensures r.records == rows ==> RowsAre(fmt, data, r.fields, r.records, a)
  {
    hide RowIs;
    if RowsAre(fmt, data, r.fields, r.records, a + [record]) {
      assert RowIs(fmt, data, r.fields, r.records[|rows|], (a + [record])[|rows|]);
    }
  }

  /** A row begins at the beginning or after a line feed. */
  lemma BeforeRow(fmt: Format, data: string, p: nat, records: seq<seq<string>>, n: nat)
    requires fmt.Valid() && n < |records| && p == |Text(fmt, records[..n], "\n")| && p <= |data|
    requires data <= Text(fmt, records, "\n")
    ensures p == 0 || ParseFlag(fmt, data[p - 1]) != Delimiter
  {
    hide Text;
    if p > 0 {
      var t := Text(fmt, records[..n], "\n");
      NoText(fmt, "\n");
      TextEnds(fmt, records[..n], "\n");
      TextCut(fmt, records, n);
      assert data[p - 1] == t[p - 1];
    }
  }

  lemma OnlyRows(fmt: Format, data: string, r: State, a: seq<seq<string>>, b: seq<seq<string>>)
    requires RowsAre(fmt, data, r.fields, r.records, a)
    ensures RowsAre(fmt, data, r.fields, r.records, b) <==> a == b
  {
    hide RowIs;
    if RowsAre(fmt, data, r.fields, r.records, b) {
      RowsAreUnique(fmt, data, r.fields, r.records, a, b);
    }
  }

  /** A source shorter than the standard window ends with its first window, and
      all its rows come out if and only if that window holds what is needed of
      the last one. */
  lemma SmallSource(fmt: Format, records: seq<seq<string>>, bytes: nat)
    requires fmt.Valid() && records != [] && !(BOM <= Text(fmt, records, "\n"))
      && |Text(fmt, records, "\n")| < 10_000_000
    ensures var next := NextBlock(fmt, Text(fmt, records, "\n"), START, bytes);
      next.eof && (OutIs(fmt, next.out, ReadBack(records, "\n")) <==> bytes >= Needed(fmt, records))
  {
    hide Text, Run, EndFeed, RowIs, RowsAre, OutIs, Fit, ReadBack, Begin;
    hide Deliver, RowReach, Joined, Normal, AtField, LastRead, Blank, Needed, RowText;
    var source := Text(fmt, records, "\n");
    NoTextBefore(fmt, records);
    assert records[0..] == records;
    var data := Block(fmt, records, START, 0, bytes);
    var st := Begin(data, false, false);
    NoMark(source, START, data);
    BlockBegins(data, false, false);
    var m := BlockRows(fmt, data, st, records);
    RowPlaced(m);
    var final := EndFeed(fmt, data, Run(fmt, data, st));
    DeliveredIs(fmt, data, final, ReadBack(records, "\n"));
    FinalRows(fmt, data, m, records);
    FitAll(fmt, records, |data|);
    FitAll(fmt, records, |source|);
    NeededInside(fmt, records, |records|);
    assert records[..|records|] == records;
  }

  lemma RowPlaced(m: State)
    requires AtRow(m)
    ensures m.Placed()
  {
  }

  lemma FinalRows(fmt: Format, data: string, m: State, records: seq<seq<string>>)
    requires fmt.Valid() && AtRow(m) && m.Placed() && records != [] && data <= Text(fmt, records, "\n")
    requires var n := Fit(fmt, records, |data|);
      && m.dataPos == |Text(fmt, records[..n], "\n")| <= |data|
      && RowsAre(fmt, data, m.fields, m.records, ReadBack(records[..n], "\n"))
      && (n == |records| ==> Run(fmt, data, m) == m)
      && (n < |records| ==> Normal(records[n]) != [] && data[m.dataPos..] <= Joined(fmt, Normal(records[n])))
    ensures var r := EndFeed(fmt, data, Run(fmt, data, m));
      RowsAre(fmt, data, r.fields, r.records, ReadBack(records, "\n")) <==> |data| >= Needed(fmt, records)
  {
    hide Text, Run, EndFeed, RowIs, RowsAre, Fit, ReadBack, RowReach, Joined, Normal, AtField, LastRead, RowText, Blank;
    var n, d := Fit(fmt, records, |data|), LastRead(records);
    FitAll(fmt, records, |data|);
    FitIsMost(fmt, records, |data|);
    if n == |records| {
      assert records[..n] == records;
      EndOfBlock(fmt, records, data, m);
      NeededInside(fmt, records, n);
    } else {
      var r, a := EndFeed(fmt, data, Run(fmt, data, m)), ReadBack(records[..n], "\n");
      EndOfSource(fmt, data, m, records, n);
      LeftToRead(records, n);
      if n > d {
        NeededInside(fmt, records, n);
        SwallowedAtEnd(records, n);
      } else if n < d {
        NeededBeyond(fmt, records, n, |data|);
      } else if Blank(records[n]) {
        BlankText(fmt, records[n]);
      }
      if Blank(records[n]) {
        OnlyRows(fmt, data, r, a, ReadBack(records, "\n"));
      } else if n < d {
        RowCount(fmt, data, r, ReadBack(records, "\n"));
      }
    }
  }

  lemma SwallowedAtEnd(records: seq<seq<string>>, n: nat)
    requires records != [] && LastRead(records) < n < |records|
    ensures Blank(records[n])
  {
    OpenLast(records);
  }

  lemma RowCount(fmt: Format, data: string, r: State, rows: seq<seq<string>>)
    ensures RowsAre(fmt, data, r.fields, r.records, rows) ==> |r.records| == |rows|
  {
  }
}
