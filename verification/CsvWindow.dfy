/** Reading a long text through a moving window that restarts at the first row
    it did not hold completely. */
module CsvWindow {
  import opened CsvFormat
  import opened CsvState
  import opened CsvRoundTrip
  import opened CsvParts
  import opened CsvCuts

  // ----- A window over whole rows -----

  /** How many of the rows in front fit into so many characters. */
  function Fit(fmt: Format, rest: seq<seq<string>>, room: nat): (n: nat)
    ensures n <= |rest|
  {
    if rest == [] || |RowText(fmt, rest[0], "\n")| > room then 0
    else 1 + Fit(fmt, rest[1..], room - |RowText(fmt, rest[0], "\n")|)
  }

  /** They fit, and one row more does not. */
  lemma {:induction false} FitIsMost(fmt: Format, rest: seq<seq<string>>, room: nat)
    ensures var n := Fit(fmt, rest, room);
      && |Text(fmt, rest[..n], "\n")| <= room
      && (n < |rest| ==> room < |Text(fmt, rest[..n], "\n")| + |RowText(fmt, rest[n], "\n")|)
    decreases |rest|
  {
    hide RowText;
    if rest != [] && |RowText(fmt, rest[0], "\n")| <= room {
      var k := room - |RowText(fmt, rest[0], "\n")|;
      FitIsMost(fmt, rest[1..], k);
      var n := Fit(fmt, rest, room);
      assert rest[..n][1..] == rest[1..][..n - 1];
    }
  }

  /** The whole first row lies in the data, which is the beginning of the
      remaining text; and whether its line feed swallows the next. */
  lemma FirstRowInside(fmt: Format, data: string, p: nat, rest: seq<seq<string>>)
    requires fmt.Valid() && rest != []
    requires p + |RowText(fmt, rest[0], "\n")| <= |data| && data[p..] <= Text(fmt, rest, "\n")
    ensures var end := p + |RowText(fmt, rest[0], "\n")|;
      && Next(data, p, RowText(fmt, Normal(rest[0]), "\n"))
      && RowText(fmt, Normal(rest[0]), "\n") == RowText(fmt, rest[0], "\n") && Normal(rest[0]) != []
      && data[end..] <= Text(fmt, rest[1..], "\n")
      && (end < |data| && ParseFlag(fmt, data[end]) == Newline <==> end < |data| && |rest| > 1 && Blank(rest[1]))
  {
    hide RowText, ParseFlag, Blank;
    var text, more := RowText(fmt, rest[0], "\n"), Text(fmt, rest[1..], "\n");
    var end := p + |text|;
    NormalText(fmt, rest[0], "\n");
    assert Text(fmt, rest, "\n") == text + more;
    Beyond(data[p..], text, more);
    assert data[p..end] == data[p..][..|text|] == text;
    assert data[end..] == data[p..][|text|..];
    assert more[0..] == more;
    NextLineBegins(fmt, more, 0, rest[1..]);
    if end < |data| {
      assert data[end] == data[end..][0] == more[0];
    }
  }

  /** The text of an empty line. */
  lemma BlankText(fmt: Format, record: seq<string>)
    ensures Blank(record) ==> RowText(fmt, record, "\n") == "\n"
  {
  }

  /** How many rows are used up by reading one: two, if an empty line follows
      and is in the data. */
  function UsedUp(fmt: Format, rest: seq<seq<string>>, room: nat): (u: nat)
    requires rest != []
    ensures 1 <= u <= |rest|
  {
    if |rest| > 1 && Blank(rest[1]) && |RowText(fmt, rest[0], "\n")| < room then 2 else 1
  }

  /** What fits after the first row. */
  lemma FitAfter(fmt: Format, rest: seq<seq<string>>, room: nat)
    requires rest != [] && |RowText(fmt, rest[0], "\n")| <= room
    ensures var u, n := UsedUp(fmt, rest, room), Fit(fmt, rest, room);
      var used := |RowText(fmt, rest[0], "\n")| + u - 1;
      && u <= |rest| && used <= room && n == u + Fit(fmt, rest[u..], room - used)
      && AfterFirst(rest[..n], "\n") == rest[u..][..n - u]
      && |Text(fmt, rest[..n], "\n")| == used + |Text(fmt, rest[u..][..n - u], "\n")|
  {
    hide RowText, Blank;
    var n, left := Fit(fmt, rest, room), room - |RowText(fmt, rest[0], "\n")|;
    assert rest[..n][1..] == rest[1..][..n - 1];
    if |rest| > 1 && Blank(rest[1]) {
      BlankText(fmt, rest[1]);
      if left > 0 {
        assert rest[1..][1..] == rest[2..] && rest[1..][0] == rest[1];
        assert Fit(fmt, rest[1..], left) == 1 + Fit(fmt, rest[2..], left - 1);
        assert rest[..n][2..] == rest[2..][..n - 2] == rest[1..][..n - 1][1..];
      }
    }
  }

  /** A window that begins with the rows `rest` reads those of them it holds
      completely, and stands in front of the first it does not. */
  lemma {:induction false} WindowRows(fmt: Format, data: string, st: State, done: seq<seq<string>>,
                                      rest: seq<seq<string>>)
    returns (r: State)
    requires fmt.Valid() && AtRow(st) && st.dataPos <= |data| && st.row.dataStart == st.dataPos
    requires data[st.dataPos..] <= Text(fmt, rest, "\n") && RowsAre(fmt, data, st.fields, st.records, done)
    ensures var n := Fit(fmt, rest, |data| - st.dataPos);
      && RowsAre(fmt, data, r.fields, r.records, done + ReadBack(rest[..n], "\n"))
      && r.dataPos == st.dataPos + |Text(fmt, rest[..n], "\n")| && r.dataPos <= |data|
      && data[r.dataPos..] <= Text(fmt, rest[n..], "\n")
    ensures AtRow(r) && r.row.dataStart == r.dataPos && Run(fmt, data, st) == Run(fmt, data, r)
    decreases |rest|
  {
    hide Run, RowsAre, RowText, AtRow, Text, ReadBack, Fit, Normal, UsedUp;
    var room := |data| - st.dataPos;
    if rest == [] || |RowText(fmt, rest[0], "\n")| > room {
      r := st;
      NoneFits(fmt, rest, room);
      assert done + [] == done;
    } else {
      FitAfter(fmt, rest, room);
      var u, n := UsedUp(fmt, rest, room), Fit(fmt, rest, room);
      var m := FirstRow(fmt, data, st, done, rest);
      r := WindowRows(fmt, data, m, done + [Normal(rest[0])], rest[u..]);
      ReadBackSplits(rest[..n]);
      AppendFirst(done, Normal(rest[0]), ReadBack(rest[u..][..n - u], "\n"));
      assert rest[u..][n - u..] == rest[n..];
    }
  }

  lemma NoneFits(fmt: Format, rest: seq<seq<string>>, room: nat)
    requires rest == [] || |RowText(fmt, rest[0], "\n")| > room
    ensures Fit(fmt, rest, room) == 0 && ReadBack(rest[..0], "\n") == [] && Text(fmt, rest[..0], "\n") == ""
      && rest[0..] == rest
  {
  }

  lemma ReadBackSplits(rest: seq<seq<string>>)
    requires rest != []
    ensures ReadBack(rest, "\n") == [Normal(rest[0])] + ReadBack(AfterFirst(rest, "\n"), "\n")
  {
  }

  lemma FirstRow(fmt: Format, data: string, st: State, done: seq<seq<string>>, rest: seq<seq<string>>)
      returns (m: State)
    requires fmt.Valid() && AtRow(st) && st.dataPos <= |data| && rest != []
    requires data[st.dataPos..] <= Text(fmt, rest, "\n") && RowsAre(fmt, data, st.fields, st.records, done)
    requires |RowText(fmt, rest[0], "\n")| <= |data| - st.dataPos
    ensures var u := UsedUp(fmt, rest, |data| - st.dataPos);
      && u <= |rest| && m.dataPos == st.dataPos + |RowText(fmt, rest[0], "\n")| + u - 1 && m.dataPos <= |data|
      && data[m.dataPos..] <= Text(fmt, rest[u..], "\n")
    ensures AtRow(m) && m.row.dataStart == m.dataPos && Run(fmt, data, st) == Run(fmt, data, m)
    ensures RowsAre(fmt, data, m.fields, m.records, done + [Normal(rest[0])])
  {
    hide Run, RowsAre, RowText, Text, Normal, Blank, ParseFlag, AtField, Next, RowIs;
    FirstRowInside(fmt, data, st.dataPos, rest);
    m := ReadRow(fmt, data, st, Normal(rest[0]), "\n");
    OneRowMore(fmt, data, st, m, done, Normal(rest[0]));
    var end := st.dataPos + |RowText(fmt, rest[0], "\n")|;
    if end < |data| && |rest| > 1 && Blank(rest[1]) {
      BlankText(fmt, rest[1]);
      TextCut(fmt, rest[1..], 1);
      assert rest[1..][1..] == rest[2..] && rest[1..][..1] == [rest[1]];
      OneText(fmt, rest[1]);
      Beyond(data[end..], "\n", Text(fmt, rest[2..], "\n"));
      assert data[m.dataPos..] == data[end..][1..];
    }
  }

  lemma OneText(fmt: Format, record: seq<string>)
    ensures Text(fmt, [record], "\n") == RowText(fmt, record, "\n")
  {
    assert [record][1..] == [];
  }

  lemma OneRowMore(fmt: Format, data: string, st: State, m: State, done: seq<seq<string>>, record: seq<string>)
    requires RowsAre(fmt, data, st.fields, st.records, done)
    requires st.fields <= m.fields && |m.records| == |st.records| + 1 && st.records <= m.records
    requires RowIs(fmt, data, m.fields, m.records[|st.records|], record)
    ensures RowsAre(fmt, data, m.fields, m.records, done + [record])
  {
    hide RowIs;
    RowsStay(fmt, data, st.fields, m.fields, st.records, done);
  }

  lemma {:induction false} TextCut(fmt: Format, records: seq<seq<string>>, k: nat)
    requires k <= |records|
    ensures Text(fmt, records, "\n") == Text(fmt, records[..k], "\n") + Text(fmt, records[k..], "\n")
    decreases k
  {
    hide RowText;
    if k == 0 {
      assert records[0..] == records;
    } else {
      TextCut(fmt, records[1..], k - 1);
      assert records[..k][1..] == records[1..][..k - 1];
      assert records[k..] == records[1..][k - 1..];
    }
  }

  /** All rows fit exactly if their text does. */
  lemma FitAll(fmt: Format, rest: seq<seq<string>>, room: nat)
    ensures Fit(fmt, rest, room) == |rest| <==> |Text(fmt, rest, "\n")| <= room
  {
    hide Text, Fit, RowText;
    FitIsMost(fmt, rest, room);
    var n := Fit(fmt, rest, room);
    assert rest[..|rest|] == rest;
    if n < |rest| {
      OneMoreText(fmt, rest, n);
      TextCut(fmt, rest, n + 1);
    }
  }

  lemma OneMoreText(fmt: Format, rest: seq<seq<string>>, n: nat)
    requires n < |rest|
    ensures Text(fmt, rest[..n + 1], "\n") == Text(fmt, rest[..n], "\n") + RowText(fmt, rest[n], "\n")
  {
    hide RowText, Text;
    assert rest[..n + 1] == rest[..n] + [rest[n]];
    TextAppend(fmt, rest[..n], rest[n], "\n");
  }

  /** The part of a row that the window still holds. */
  lemma PartAhead(fmt: Format, data: string, p: nat, rest: seq<seq<string>>, n: nat)
    requires p <= |data| && n < |rest| && data[p..] <= Text(fmt, rest[n..], "\n")
      && |data| - p < |RowText(fmt, rest[n], "\n")|
    ensures Normal(rest[n]) != [] && data[p..] <= Joined(fmt, Normal(rest[n]))
    ensures RowText(fmt, Normal(rest[n]), "\n") == Joined(fmt, Normal(rest[n])) + "\n" == RowText(fmt, rest[n], "\n")
  {
    hide Joined;
    NormalText(fmt, rest[n], "\n");
    assert Text(fmt, rest[n..], "\n") == Joined(fmt, Normal(rest[n])) + "\n" + Text(fmt, rest[n..][1..], "\n");
  }

  /** A block that begins with the rows `rest`: what it leaves the parser with. */
  lemma BlockRows(fmt: Format, data: string, st: State, rest: seq<seq<string>>) returns (m: State)
    requires fmt.Valid() && AtRow(st) && st.dataPos == 0 && st.row.dataStart == 0 && st.records == []
    requires data <= Text(fmt, rest, "\n")
    ensures var n, run := Fit(fmt, rest, |data|), Run(fmt, data, st);
      && RowsAre(fmt, data, run.fields, run.records, ReadBack(rest[..n], "\n"))
      && run.row.dataStart == |Text(fmt, rest[..n], "\n")| <= |data|
      && (n == |rest| ==> run == m)
    ensures var n := Fit(fmt, rest, |data|);
      && AtRow(m) && Run(fmt, data, st) == Run(fmt, data, m) && m.dataPos == |Text(fmt, rest[..n], "\n")|
      && RowsAre(fmt, data, m.fields, m.records, ReadBack(rest[..n], "\n"))
      && (n < |rest| ==> Normal(rest[n]) != [] && data[m.dataPos..] <= Joined(fmt, Normal(rest[n])))
  {
    hide Run, RowsAre, RowText, Text, ReadBack, Fit, Joined, Normal;
    var n := Fit(fmt, rest, |data|);
    assert data[0..] == data;
    NoRowsYet(fmt, data, st);
    m := WindowRows(fmt, data, st, [], rest);
    assert [] + ReadBack(rest[..n], "\n") == ReadBack(rest[..n], "\n");
    FitIsMost(fmt, rest, |data|);
    if n == |rest| {
      assert rest[n..] == [];
      NothingAhead(fmt, data, m);
    } else {
      PartAhead(fmt, data, m.dataPos, rest, n);
      PartKeepsRows(fmt, data, m, ReadBack(rest[..n], "\n"), Normal(rest[n]));
    }
  }

  lemma PartKeepsRows(fmt: Format, data: string, m: State, done: seq<seq<string>>, values: seq<string>)
    requires fmt.Valid() && AtField(m) && m.Placed() && m.dataPos <= |data| && values != []
      && data[m.dataPos..] <= Joined(fmt, values)
    requires RowsAre(fmt, data, m.fields, m.records, done)
    ensures var run := Run(fmt, data, m);
      RowsAre(fmt, data, run.fields, run.records, done) && run.row.dataStart == m.row.dataStart
  {
    hide *;
    var j, k := PartRow(fmt, data, m, values);
    PartRowKeeps(fmt, data, m, Run(fmt, data, m), values, j, k);
    SameRecords(fmt, data, m, Run(fmt, data, m), done);
  }

  lemma PartRowKeeps(fmt: Format, data: string, m: State, r: State, values: seq<string>, j: nat, k: nat)
    requires PartRowIs(fmt, data, m, r, values, j, k)
    ensures m.fields <= r.fields && r.records == m.records && r.row.dataStart == m.row.dataStart
  {
  }

  lemma NothingAhead(fmt: Format, data: string, m: State)
    requires AtRow(m) && m.dataPos <= |data| && data[m.dataPos..] <= Text(fmt, [], "\n")
    ensures Run(fmt, data, m) == m
  {
    RunEnds(fmt, data, m);
  }

  lemma SameRecords(fmt: Format, data: string, m: State, r: State, done: seq<seq<string>>)
    requires m.fields <= r.fields && r.records == m.records && RowsAre(fmt, data, m.fields, m.records, done)
    ensures RowsAre(fmt, data, r.fields, r.records, done)
  {
    hide *;
    RowsStay(fmt, data, m.fields, r.fields, m.records, done);
  }

  lemma NoRowsYet(fmt: Format, data: string, st: State)
    requires st.records == []
    ensures RowsAre(fmt, data, st.fields, st.records, [])
  {
  }

  // ----- The moving window -----

  const ITERATION_CHUNK_SIZE := 10000000

  /** A row as it is delivered: with the block it was read from. */
  datatype CSVRow = CSVRow(data: string, fields: seq<RawField>, row: Row)

  /** The reader between two windows. */
  datatype Reader = Reader(pos: nat, eof: bool, bomScan: bool, doubleQuote: bool, out: seq<CSVRow>)

  function Deliver(data: string, st: State): seq<CSVRow> {
    seq(|st.records|, i requires 0 <= i < |st.records| => CSVRow(data, st.fields, st.records[i]))
  }

  function Min(a: nat, b: nat): nat {
    if a < b then a else b
  }

  /** `MmapParser::next` on a window of at most `bytes`. A source shorter than
      the standard window is taken to end with the first window. */
  function NextBlock(fmt: Format, source: string, r: Reader, bytes: nat): (next: Reader)
    requires r.pos <= |source|
    ensures r.pos <= next.pos <= |source|
  {
    var length := Min(|source| - r.pos, bytes);
    var data := source[r.pos..r.pos + length];
    var run := Run(fmt, data, Begin(data, r.bomScan, r.doubleQuote));
    var last := r.pos + length == |source| || |source| < ITERATION_CHUNK_SIZE;
    var done := if last then EndFeed(fmt, data, run) else run;
    Reader(r.pos + run.row.dataStart, r.eof || last, r.bomScan || length >= 3, done.fieldHasDoubleQuote,
           r.out + Deliver(data, done))
  }

  /** Every delivered row lies in its own block. */
  ghost predicate OutSound(out: seq<CSVRow>) {
    forall k | 0 <= k < |out| :: RowSound(out[k].data, out[k].fields, out[k].row)
  }

  /** Any source, any windows: what is delivered are slices of its blocks. */
  lemma NextBlockSound(fmt: Format, source: string, r: Reader, bytes: nat)
    requires r.pos <= |source| && OutSound(r.out)
    ensures OutSound(NextBlock(fmt, source, r, bytes).out)
  {
    hide Sound, RowSound, EndFeed, Begin, Run;
    var data := source[r.pos..r.pos + Min(|source| - r.pos, bytes)];
    var st := Begin(data, r.bomScan, r.doubleQuote);
    BeginSound(data, r.bomScan, r.doubleQuote);
    RunSound(fmt, data, st);
    var run := Run(fmt, data, st);
    EndFeedSound(fmt, data, run);
    SoundRecords(data, run);
  }

  lemma SoundRecords(data: string, st: State)
    requires Sound(data, st)
    ensures forall k | 0 <= k < |st.records| :: RowSound(data, st.fields, st.records[k])
  {
  }

  ghost predicate OutIs(fmt: Format, out: seq<CSVRow>, records: seq<seq<string>>) {
    |out| == |records| && forall k | 0 <= k < |out| :: RowIs(fmt, out[k].data, out[k].fields, out[k].row, records[k])
  }

  /** The source is long enough for the end of the file to be told from the
      end of a window, or the window holds all of it. */
  predicate TellsEnd(source: string, bytes: nat) {
    |source| >= 10_000_000 || bytes >= |source|
  }

  /** The window can hold every row. */
  ghost predicate HoldsRows(fmt: Format, records: seq<seq<string>>, bytes: nat) {
    forall k | 0 <= k < |records| :: |RowText(fmt, records[k], "\n")| <= bytes
  }

  /** The block that lies in the window. */
  lemma Block(fmt: Format, records: seq<seq<string>>, r: Reader, k: nat, bytes: nat) returns (data: string)
    requires k <= |records| && r.pos == |Text(fmt, records[..k], "\n")|
    ensures var source := Text(fmt, records, "\n");
      && r.pos <= |source|
      && var length := Min(|source| - r.pos, bytes);
      && data == source[r.pos..r.pos + length] && data <= Text(fmt, records[k..], "\n")
      && |source| - r.pos == |Text(fmt, records[k..], "\n")|
      && Fit(fmt, records[k..], length) == Fit(fmt, records[k..], bytes)
  {
    hide Text, RowText, Fit;
    var source, rest := Text(fmt, records, "\n"), records[k..];
    TextCut(fmt, records, k);
    assert source[r.pos..] == Text(fmt, rest, "\n");
    data := source[r.pos..r.pos + Min(|source| - r.pos, bytes)];
    assert data == source[r.pos..][..|data|];
    FitAll(fmt, rest, |source| - r.pos);
    FitAll(fmt, rest, bytes);
  }

  lemma NoMark(source: string, r: Reader, data: string)
    requires r.pos + |data| <= |source| && data == source[r.pos..r.pos + |data|]
    requires r.bomScan || (r.pos == 0 && !(BOM <= source))
    ensures Begin(data, r.bomScan, r.doubleQuote).dataPos == 0
  {
    if BOM <= data && r.pos == 0 {
      assert source[..3] == data[..3];
    }
  }

  lemma Delivered(fmt: Format, data: string, st: State, out: seq<CSVRow>, before: seq<seq<string>>,
                  now: seq<seq<string>>)
    requires OutIs(fmt, out, before) && RowsAre(fmt, data, st.fields, st.records, now)
    ensures OutIs(fmt, out + Deliver(data, st), before + now)
  {
    hide RowIs;
  }

  /** Where `n` more records reach to. */
  lemma Places(fmt: Format, records: seq<seq<string>>, k: nat, n: nat)
    requires k + n <= |records|
    ensures |Text(fmt, records[..k + n], "\n")|
      == |Text(fmt, records[..k], "\n")| + |Text(fmt, records[k..][..n], "\n")|
    ensures |Text(fmt, records[..k + n], "\n")| <= |Text(fmt, records, "\n")|
    ensures records[k..][n..] == records[k + n..]
  {
    hide Text;
    TextCut(fmt, records[..k + n], k);
    assert records[..k + n][..k] == records[..k] && records[..k + n][k..] == records[k..][..n];
    TextCut(fmt, records, k + n);
  }

  /** One window delivers what the rows it holds completely read back as,
      moves behind them, and ends the file exactly when none is left. */
  lemma NextDelivers(fmt: Format, records: seq<seq<string>>, r: Reader, k: nat, done: seq<seq<string>>, bytes: nat)
    requires fmt.Valid() && k <= |records| && r.pos == |Text(fmt, records[..k], "\n")| && !r.eof
      && OutIs(fmt, r.out, done)
    requires var source := Text(fmt, records, "\n");
      r.pos <= |source| && TellsEnd(source, bytes) && (r.bomScan || (r.pos == 0 && bytes >= 3 && !(BOM <= source)))
    ensures var next, n := NextBlock(fmt, Text(fmt, records, "\n"), r, bytes), Fit(fmt, records[k..], bytes);
      && next.pos == |Text(fmt, records[..k + n], "\n")| && next.pos <= |Text(fmt, records, "\n")|
      && OutIs(fmt, next.out, done + ReadBack(records[k..][..n], "\n"))
      && (next.eof <==> k + n == |records|)
      && (next.bomScan || next.eof)
  {
    hide Text, Run, RowsAre, RowIs, RowText, OutIs, EndFeed, Fit, ReadBack, AtField, Begin, Joined, Normal;
    var source := Text(fmt, records, "\n");
    var data := Block(fmt, records, r, k, bytes);
    var rest := records[k..];
    var st := Begin(data, r.bomScan, r.doubleQuote);
    NoMark(source, r, data);
    BlockBegins(data, r.bomScan, r.doubleQuote);
    var m := BlockRows(fmt, data, st, rest);
    var n, run := Fit(fmt, rest, bytes), Run(fmt, data, st);
    Places(fmt, records, k, n);
    FitAll(fmt, rest, bytes);
    if n == |rest| {
      EndOfBlock(fmt, rest, data, m);
    }
    Delivered(fmt, data, run, r.out, done, ReadBack(rest[..n], "\n"));
  }

  lemma BlockBegins(data: string, bomScan: bool, doubleQuote: bool)
    ensures var st := Begin(data, bomScan, doubleQuote);
      AtRow(st) && st.row.dataStart == 0 && st.records == []
  {
  }

  lemma EndOfBlock(fmt: Format, rest: seq<seq<string>>, data: string, m: State)
    requires fmt.Valid() && AtRow(m) && data == Text(fmt, rest, "\n")
    ensures EndFeed(fmt, data, m) == m
  {
    hide Text, EndFeed;
    if rest == [] {
      NoText(fmt, "\n");
    } else {
      TextEnds(fmt, rest, "\n");
    }
    NothingLeft(fmt, data, m);
  }

  /** Reading on, window after window, until the end of the file. */
  function ReadOn(fmt: Format, source: string, r: Reader, windows: seq<nat>): Reader
    requires r.pos <= |source|
    decreases |windows|
  {
    if r.eof || windows == [] then r else ReadOn(fmt, source, NextBlock(fmt, source, r, windows[0]), windows[1..])
  }

  const START := Reader(0, false, false, false, [])

  /** What reading through windows gives: of the rows in each what they read
      back as. */
  function WindowedReadBack(fmt: Format, records: seq<seq<string>>, windows: seq<nat>): seq<seq<string>>
    decreases |windows|
  {
    if records == [] || windows == [] then []
    else
      var n := Fit(fmt, records, windows[0]);
      ReadBack(records[..n], "\n") + WindowedReadBack(fmt, records[n..], windows[1..])
  }

  /** How many windows end between a line feed and the one it would swallow. */
  function LinesCut(fmt: Format, records: seq<seq<string>>, windows: seq<nat>): nat
    decreases |windows|
  {
    if records == [] || windows == [] then 0
    else
      var n := Fit(fmt, records, windows[0]);
      (if CutsLine(records[..n], records[n..]) then 1 else 0) + LinesCut(fmt, records[n..], windows[1..])
  }

  /** Windows that each hold every row. */
  ghost predicate WindowsFit(fmt: Format, records: seq<seq<string>>, windows: seq<nat>) {
    forall i | 0 <= i < |windows| :: HoldsRows(fmt, records, windows[i])
  }

  ghost predicate WindowsTellEnd(source: string, windows: seq<nat>) {
    forall i | 0 <= i < |windows| :: TellsEnd(source, windows[i])
  }

  /** The first window takes at least one row; the others hold the rest. */
  lemma WindowsFitRest(fmt: Format, records: seq<seq<string>>, windows: seq<nat>)
    requires records != [] && windows != [] && WindowsFit(fmt, records, windows)
    ensures var n := Fit(fmt, records, windows[0]); n > 0 && WindowsFit(fmt, records[n..], windows[1..])
  {
    hide RowText;
    var n := Fit(fmt, records, windows[0]);
    assert HoldsRows(fmt, records, windows[0]);
    forall i | 0 <= i < |windows| - 1
      ensures HoldsRows(fmt, records[n..], windows[1..][i])
    {
      assert HoldsRows(fmt, records, windows[i + 1]);
      forall k | 0 <= k < |records[n..]|
        ensures |RowText(fmt, records[n..][k], "\n")| <= windows[i + 1]
      {
        assert records[n..][k] == records[n + k];
      }
    }
  }

  lemma {:induction false} ReadOnDelivers(fmt: Format, records: seq<seq<string>>, r: Reader, k: nat,
                                          done: seq<seq<string>>, windows: seq<nat>)
    requires fmt.Valid() && k < |records| && r.pos == |Text(fmt, records[..k], "\n")| && !r.eof
      && OutIs(fmt, r.out, done)
    requires WindowsFit(fmt, records[k..], windows) && WindowsTellEnd(Text(fmt, records, "\n"), windows)
      && |windows| >= |records| - k
    requires var source := Text(fmt, records, "\n");
      r.pos <= |source| && (r.bomScan || (r.pos == 0 && windows[0] >= 3 && !(BOM <= source)))
    ensures var r' := ReadOn(fmt, Text(fmt, records, "\n"), r, windows);
      && r'.eof && r'.pos == |Text(fmt, records, "\n")|
      && OutIs(fmt, r'.out, done + WindowedReadBack(fmt, records[k..], windows))
    decreases |windows|
  {
    hide Text, NextBlock, OutIs, HoldsRows, TellsEnd, Fit, ReadBack;
    var source := Text(fmt, records, "\n");
    var next, n := NextBlock(fmt, source, r, windows[0]), Fit(fmt, records[k..], windows[0]);
    NextDelivers(fmt, records, r, k, done, windows[0]);
    WindowsFitRest(fmt, records[k..], windows);
    assert records[k..][n..] == records[k + n..];
    var now, later := ReadBack(records[k..][..n], "\n"), WindowedReadBack(fmt, records[k + n..], windows[1..]);
    assert done + (now + later) == done + now + later;
    if next.eof {
      assert records[..k + n] == records && records[k + n..] == [];
      assert done + now + [] == done + now;
    } else {
      forall i | 0 <= i < |windows[1..]|
        ensures TellsEnd(source, windows[1..][i])
      {
        assert windows[1..][i] == windows[i + 1];
      }
      ReadOnDelivers(fmt, records, next, k + n, done + now, windows[1..]);
    }
  }

  /** A cut line adds a row; nothing else makes a difference. */
  lemma {:induction false} CutsAdd(fmt: Format, records: seq<seq<string>>, windows: seq<nat>)
    requires WindowsFit(fmt, records, windows) && |windows| >= |records|
    ensures var w, whole := WindowedReadBack(fmt, records, windows), ReadBack(records, "\n");
      && |w| == |whole| + LinesCut(fmt, records, windows)
      && (LinesCut(fmt, records, windows) == 0 ==> w == whole)
    decreases |windows|
  {
    hide *;
    if records == [] {
      NoWindow(fmt, windows);
    } else {
      OneWindow(fmt, records, windows);
      var n := Fit(fmt, records, windows[0]);
      var a, b := records[..n], records[n..];
      WindowsFitRest(fmt, records, windows);
      CutsAdd(fmt, b, windows[1..]);
      CutAdds(a, b);
      assert a + b == records;
      AddUp(ReadBack(records, "\n"), ReadBack(a, "\n"), ReadBack(b, "\n"),
            WindowedReadBack(fmt, b, windows[1..]), CutsLine(a, b), LinesCut(fmt, b, windows[1..]));
    }
  }

  lemma NoWindow(fmt: Format, windows: seq<nat>)
    ensures WindowedReadBack(fmt, [], windows) == ReadBack([], "\n") && LinesCut(fmt, [], windows) == 0
  {
  }

  lemma OneWindow(fmt: Format, records: seq<seq<string>>, windows: seq<nat>)
    requires records != [] && windows != []
    ensures var n := Fit(fmt, records, windows[0]);
      && WindowedReadBack(fmt, records, windows)
         == ReadBack(records[..n], "\n") + WindowedReadBack(fmt, records[n..], windows[1..])
      && LinesCut(fmt, records, windows)
      == (if CutsLine(records[..n], records[n..]) then 1 else 0) + LinesCut(fmt, records[n..], windows[1..])
  {
  }

  lemma AddUp<T>(whole: seq<T>, ra: seq<T>, rb: seq<T>, wb: seq<T>, cut: bool, l: nat)
    requires if cut then |ra + rb| == |whole| + 1 else ra + rb == whole
    requires |wb| == |rb| + l && (l == 0 ==> wb == rb)
    ensures |ra + wb| == |whole| + l + (if cut then 1 else 0)
    ensures !cut && l == 0 ==> ra + wb == whole
  {
  }

  /** Reading any list of records through windows that hold every row, in at
      most one call a row: the whole source is read, and a row comes out more
      than of one whole parse for every window that cuts a line; so the rows
      are the same exactly if none does. */
  lemma WindowedRead(fmt: Format, records: seq<seq<string>>, windows: seq<nat>)
    requires fmt.Valid() && records != [] && !(BOM <= Text(fmt, records, "\n"))
    requires WindowsFit(fmt, records, windows) && WindowsTellEnd(Text(fmt, records, "\n"), windows)
    requires |windows| >= |records| && windows[0] >= 3
    ensures var source := Text(fmt, records, "\n");
      var r, whole := ReadOn(fmt, source, START, windows), ParseWhole(fmt, source);
      && r.eof && r.pos == |source|
      && OutIs(fmt, r.out, WindowedReadBack(fmt, records, windows))
      && RowsAre(fmt, source, whole.fields, whole.records, ReadBack(records, "\n"))
      && |r.out| == |whole.records| + LinesCut(fmt, records, windows)
      && (OutIs(fmt, r.out, ReadBack(records, "\n")) <==> LinesCut(fmt, records, windows) == 0)
  {
    hide Text, ReadOn, ParseWhole, RowIs, WindowsFit, WindowsTellEnd, ReadBack, WindowedReadBack, LinesCut;
    assert records[0..] == records;
    NoTextBefore(fmt, records);
    ReadOnDelivers(fmt, records, START, 0, [], windows);
    var w := WindowedReadBack(fmt, records, windows);
    assert [] + w == w;
    CutsAdd(fmt, records, windows);
    WrittenReadsBack(fmt, records, "\n", Text(fmt, records, "\n"));
  }

  /** Lists that read back as themselves are never cut, so through any windows
      they come out unchanged. */
  lemma {:induction false} NeverCut(fmt: Format, records: seq<seq<string>>, windows: seq<nat>)
    requires Faithful(records, "\n") && WindowsFit(fmt, records, windows)
    ensures LinesCut(fmt, records, windows) == 0
    decreases |windows|
  {
    if records != [] && windows != [] {
      hide Fit, WindowsFit, Blank;
      var n := Fit(fmt, records, windows[0]);
      var rest := records[n..];
      WindowsFitRest(fmt, records, windows);
      forall i | 0 <= i < |rest|
        ensures rest[i] != [] && !Blank(rest[i])
      {
        assert rest[i] == records[n + i];
      }
      NeverCut(fmt, rest, windows[1..]);
    }
  }

  lemma NoTextBefore(fmt: Format, records: seq<seq<string>>)
    ensures |Text(fmt, records[..0], "\n")| == 0
  {
  }
}
