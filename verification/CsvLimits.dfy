/** Texts that are not read through windows as they are read at once. */
module CsvLimits {
  import opened CsvFormat
  import opened CsvState
  import opened CsvRoundTrip
  import opened CsvCuts
  import opened CsvParts
  import opened CsvWindow
  import opened CsvStray

  /** Three short rows through a window of four characters: the third is
      lost. */
  lemma SmallSourceLosesRow(fmt: Format, windows: seq<nat>)
    requires fmt == Format(',', '"') && |windows| > 0 && windows[0] == 4
    ensures var records := [["a"], ["b"], ["c"]];
      var r := ReadOn(fmt, Text(fmt, records, "\n"), START, windows);
      HoldsRows(fmt, records, 4) && r.eof && |r.out| == 2
  {
    hide Run, EndFeed;
    var records := [["a"], ["b"], ["c"]];
    var first := [["a"], ["b"]];
    var source, data := Text(fmt, records, "\n"), Text(fmt, first, "\n");
    assert Escaped(fmt, "a") == "a" && Escaped(fmt, "b") == "b" && Escaped(fmt, "c") == "c";
    assert records[1..] == [["b"], ["c"]] && records[1..][1..] == [["c"]] && first[1..] == [["b"]];
    assert data == "a\nb\n" && source == "a\nb\nc\n";
    assert source[0..4] == data && data[0] == 'a' && BOM[0] != 'a';
    RoundTrip(fmt, first, "\n", data);
    var next := NextBlock(fmt, source, START, 4);
    assert |next.out| == 2;
  }

  /** A row and an empty line read back as the row. */
  lemma SwallowedLine(fmt: Format)
    requires fmt == Format(',', '"')
    ensures var records := [["a"], [""]];
      var text := Text(fmt, records, "\n");
      var r := ParseWhole(fmt, text);
      RowsAre(fmt, text, r.fields, r.records, [["a"]]) && !RowsAre(fmt, text, r.fields, r.records, records)
  {
    hide ParseWhole, RowsAre;
    var records := [["a"], [""]];
    var text := Text(fmt, records, "\n");
    assert Escaped(fmt, "a") == "a" && records[1..] == [[""]];
    assert text[0] == 'a' && BOM[0] != 'a';
    WrittenReadsBack(fmt, records, "\n", text);
    RoundTrip(fmt, records, "\n", text);
    assert AfterFirst(records, "\n") == [] && ReadBack(records, "\n") == [["a"]];
    assert Blank(records[1]) && !Faithful(records, "\n");
  }

  // ----- A flag that outlives its window -----

  const STALE_LINE := "a\"b\"c,\"x\"\"y\"\n"

  lemma StaleLineIs()
    ensures |STALE_LINE| == 13 && STALE_LINE == "a\"b\"c" + "," + "\"x\"\"y\"" + "\n"
    ensures STALE_LINE[..11] == "a\"b\"c" + "," + "\"x\"\"y"
  {
  }

  /** The first window: the row `r`, and the second row up to behind its
      doubled quote. */
  lemma FirstWindow(fmt: Format, data: string) returns (r: State)
    requires fmt == Format(',', '"') && data == "r\n" + STALE_LINE[..11]
    ensures r == Run(fmt, data, Begin(data, false, false)) && |r.records| == 1
    ensures r.row.dataStart == 2 && r.fieldHasDoubleQuote
  {
    hide Run, RowIs, AtRow, LineOk, LineText, ParseFlag;
    StaleLineIs();
    assert data == "r\na\"b\"c,\"x\"\"y";
    assert data[0] == 'r' && BOM[0] != 'r';
    var first := [Bare("r")];
    FirstLine(fmt, data);
    var a := ReadLine(fmt, data, Begin(data, false, false), first, "\n");
    var b := FirstField(fmt, data, a);
    r := CutField(fmt, data, b);
  }

  lemma FirstLine(fmt: Format, data: string)
    requires fmt == Format(',', '"') && data == "r\na\"b\"c,\"x\"\"y"
    ensures LineOk(fmt, [Bare("r")]) && LineText(fmt, [Bare("r")]) == "r" && Next(data, 0, "r" + "\n")
    ensures AtRow(Begin(data, false, false)) && Begin(data, false, false).dataPos == 0
    ensures ParseFlag(fmt, data[2]) != Newline
  {
    assert data[0..2] == "r\n" && data[0] == 'r' && BOM[0] != 'r';
    assert SourceOk(fmt, [Bare("r")][0]);
  }

  /** The bare field of the second row, and its delimiter. */
  lemma FirstField(fmt: Format, data: string, a: State) returns (r: State)
    requires fmt == Format(',', '"') && data == "r\na\"b\"c,\"x\"\"y"
    requires AtRow(a) && !a.fieldHasDoubleQuote && a.dataPos == 2 && a.row.dataStart == 2
    ensures AtField(r) && r.dataPos == 8 && r.row.dataStart == 2 && r.records == a.records
    ensures Run(fmt, data, a) == Run(fmt, data, r)
  {
    hide Run, Meaning, PendingIs;
    var bare := Bare("a\"b\"c");
    assert data[2..7] == "a\"b\"c" && SourceOk(fmt, bare);
    var b := ReadSource(fmt, data, a, bare);
    PendingIsOutside(fmt, data, b, Meaning(fmt, bare));
    RunDelimiter(fmt, data, b);
    r := b.PushField().(dataPos := 8);
  }

  /** The quoted field, up to where the window ends. */
  lemma CutField(fmt: Format, data: string, c: State) returns (r: State)
    requires fmt == Format(',', '"') && data == "r\na\"b\"c,\"x\"\"y"
    requires AtField(c) && c.dataPos == 8 && c.row.dataStart == 2
    ensures r == Run(fmt, data, c) && r.records == c.records && r.row == c.row && r.fieldHasDoubleQuote
  {
    hide Run;
    RunOpen(fmt, data, c);
    var d := c.(quoteEscape := true, dataPos := 9, fieldStart := 7);
    RunPlain(fmt, data, d);
    var e := d.(dataPos := 10, fieldLength := 1);
    RunPair(fmt, data, e);
    var f := e.(dataPos := 12, fieldLength := 3, fieldHasDoubleQuote := true);
    RunPlain(fmt, data, f);
    r := f.(dataPos := 13, fieldLength := 4);
    AtEnd(fmt, data, r);
  }

  lemma AtEnd(fmt: Format, data: string, st: State)
    requires st.Placed() && st.dataPos >= |data|
    ensures Run(fmt, data, st) == st
  {
  }

  /** The second window, with the flag the first one left behind: its first
      field is pushed with it. */
  lemma FlaggedField(fmt: Format, data: string) returns (r: State)
    requires fmt == Format(',', '"') && data == "a\"b\"c,\"x\"\"y\"\n"
    ensures AtField(r) && r.dataPos == 6 && !r.fieldHasDoubleQuote && r.records == []
    ensures r.fields == [RawField(0, 5, true)] && r.row == Row(0, 0, 1)
    ensures Run(fmt, data, Begin(data, true, true)) == Run(fmt, data, r)
  {
    hide Run;
    var st := Begin(data, true, true);
    RunPlain(fmt, data, st);
    var a := st.(dataPos := 1, fieldStart := 0, fieldLength := 1);
    assert data[1..5] == "\"b\"c";
    BareRun(fmt, data, a, "\"b\"c");
    var b := a.(dataPos := 5, fieldLength := 5);
    RunDelimiter(fmt, data, b);
    r := b.PushField().(dataPos := 6);
  }

  lemma SecondWindow(fmt: Format, data: string) returns (r: State)
    requires fmt == Format(',', '"') && data == STALE_LINE
    ensures r == Run(fmt, data, Begin(data, true, true)) && |r.records| == 1 && r.row.dataStart == 13
    ensures RowIs(fmt, data, r.fields, r.records[0], ["a\"bc", "x\"y"])
  {
    hide Run, RowIs, Decode, SourceOk, Meaning, PendingIs;
    StaleLineIs();
    assert data == "a\"b\"c,\"x\"\"y\"\n";
    var record, quoted := ["a\"bc", "x\"y"], Quoted("x\"\"y");
    var c := FlaggedField(fmt, data);
    assert data[6..12] == "\"x\"\"y\"" == SourceText(fmt, quoted);
    StaleValues(fmt);
    var d := ReadSource(fmt, data, c, quoted);
    PendingIsOutside(fmt, data, d, "x\"y");
    RunNewline(fmt, data, d);
    r := d.(dataPos := 13).PushField().PushRow().NextRow();
    assert data[0..5] == "a\"b\"c";
    assert FieldIs(fmt, data, 0, c.fields[0], "a\"bc");
    assert d.fields[0..][0] == c.fields[0] && record[..1][0] == "a\"bc";
    LastPushed(fmt, data, Begin(data, true, true), d, r, record);
    AtEnd(fmt, data, r);
  }

  lemma StaleValues(fmt: Format)
    requires fmt == Format(',', '"')
    ensures Decode(fmt, "a\"b\"c", false) == "a\"bc"
    ensures SourceOk(fmt, Quoted("x\"\"y")) && Meaning(fmt, Quoted("x\"\"y")) == "x\"y"
    ensures SourceOk(fmt, Bare("a\"b\"c")) && Meaning(fmt, Bare("a\"b\"c")) == "a\"b\"c"
  {
    var a0, a1, a2, a3 := "a\"b\"c", "\"b\"c", "b\"c", "\"c";
    assert a0[1..] == a1 && a1[1..] == a2 && a2[1..] == a3 && a3[1..] == "c" && "c"[1..] == "";
    var b0, b1, b2, b3 := "x\"\"y", "\"\"y", "\"y", "y";
    assert b0[1..] == b1 && b1[1..] == b2 && b2[1..] == b3 && b1[2..] == b3 && b3[1..] == "";
  }

  /** A window that ends behind a doubled quote leaves its flag to the next
      one, which applies it to its first field: the bare field `a"b"c`, read as
      it stands elsewhere, loses its second quote. */
  lemma StaleFlag(fmt: Format, source: string)
    requires fmt == Format(',', '"') && |source| >= 10_000_000 && "r\n" + STALE_LINE <= source
    ensures var first := NextBlock(fmt, source, START, 13);
      var second := NextBlock(fmt, source, first, 13);
      && |first.out| == 1 && |second.out| == 2
      && RowIs(fmt, second.out[1].data, second.out[1].fields, second.out[1].row, ["a\"bc", "x\"y"])
    ensures var line := [Bare("a\"b\"c"), Quoted("x\"\"y")];
      && LineText(fmt, line) + "\n" == STALE_LINE && LineOk(fmt, line)
      && Meanings(fmt, line) == ["a\"b\"c", "x\"y"]
  {
    hide Run, RowIs, Meaning, SourceOk;
    StaleLineIs();
    StaleValues(fmt);
    var line := [Bare("a\"b\"c"), Quoted("x\"\"y")];
    assert line[1..] == [Quoted("x\"\"y")];
    assert source[0..13] == "r\n" + STALE_LINE[..11];
    assert source[2..15] == STALE_LINE;
    var a := FirstWindow(fmt, source[0..13]);
    var b := SecondWindow(fmt, source[2..15]);
    var first := NextBlock(fmt, source, START, 13);
    assert first.pos == 2 && first.doubleQuote && first.bomScan;
  }

  function Rows(n: nat, record: seq<string>): (r: seq<seq<string>>)
    ensures |r| == n
  {
    if n == 0 then [] else [record] + Rows(n - 1, record)
  }

  /** A row, `blanks` empty lines, and `n` more rows. */
  function Lines(blanks: nat, n: nat): (r: seq<seq<string>>)
    ensures |r| == 1 + blanks + n
  {
    [["aa"]] + (Rows(blanks, [""]) + Rows(n, ["b"]))
  }

  lemma {:induction false} RowsLength(fmt: Format, blanks: nat, n: nat)
    requires fmt == Format(',', '"')
    ensures |Text(fmt, Rows(blanks, [""]) + Rows(n, ["b"]), "\n")| == blanks + 2 * n
    ensures LeadingFeeds(Rows(blanks, [""]) + Rows(n, ["b"])) == blanks
  {
    var rows := Rows(blanks, [""]) + Rows(n, ["b"]);
    assert Escaped(fmt, "b") == "b";
    if blanks > 0 {
      RowsLength(fmt, blanks - 1, n);
      assert rows[1..] == Rows(blanks - 1, [""]) + Rows(n, ["b"]);
    } else if n > 0 {
      RowsLength(fmt, 0, n - 1);
      assert rows[1..] == Rows(0, [""]) + Rows(n - 1, ["b"]);
    }
  }

  lemma RowSizes(fmt: Format, blanks: nat, n: nat, bytes: nat)
    requires fmt == Format(',', '"') && bytes >= 3
    ensures HoldsRows(fmt, Lines(blanks, n), bytes)
    ensures Lines(blanks, n)[..1] == [["aa"]] && Lines(blanks, n)[1..] == Rows(blanks, [""]) + Rows(n, ["b"])
    ensures RowText(fmt, ["aa"], "\n") == "aa\n"
  {
    assert Escaped(fmt, "b") == "b" && Escaped(fmt, "aa") == "aa";
    RowsSame(blanks, [""]);
    RowsSame(n, ["b"]);
    hide Escaped;
    var lines := Lines(blanks, n);
    forall k | 0 <= k < |lines|
      ensures |RowText(fmt, lines[k], "\n")| <= bytes
    {
      assert lines[k] == ["aa"] || lines[k] == [""] || lines[k] == ["b"];
      assert Escaped(fmt, "") == "" by { EmptyField(fmt); }
    }
  }

  lemma {:induction false} RowsSame(n: nat, record: seq<string>)
    ensures forall k | 0 <= k < n :: Rows(n, record)[k] == record
  {
    if n > 0 {
      RowsSame(n - 1, record);
      assert Rows(n, record) == [record] + Rows(n - 1, record);
    }
  }

  lemma CutAtFirst(fmt: Format, blanks: nat, n: nat, windows: seq<nat>)
    requires fmt == Format(',', '"') && n > 0 && |windows| > 1 && windows[0] == 3 && windows[1] >= blanks + 2 * n
    ensures LinesCut(fmt, Lines(blanks, n), windows) == blanks % 2
  {
    hide Fit, Lines, RowText, Text;
    var lines, rest := Lines(blanks, n), Rows(blanks, [""]) + Rows(n, ["b"]);
    RowSizes(fmt, blanks, n, 3);
    assert lines != [] && lines[0] == lines[..1][0];
    assert Fit(fmt, lines, 3) == 1 by { OneFits(fmt, lines); }
    assert TrailingFeeds([["aa"]]) == 1;
    RowsLength(fmt, blanks, n);
    FitAll(fmt, rest, windows[1]);
    assert rest[..|rest|] == rest && rest[|rest|..] == [];
    assert LinesCut(fmt, rest, windows[1..]) == 0;
  }

  lemma OneFits(fmt: Format, lines: seq<seq<string>>)
    requires |lines| > 1 && |RowText(fmt, lines[0], "\n")| == 3
    ensures Fit(fmt, lines, 3) == 1
  {
    assert |RowText(fmt, lines[1..][0], "\n")| > 0;
  }

  /** A first window that ends after the line feed of the first row, with
      `blanks` empty lines behind it: the rows are those of one whole parse if
      and only if these lines are even in number; else there is one row more. */
  lemma LineCut(fmt: Format, blanks: nat, n: nat, windows: seq<nat>)
    requires fmt == Format(',', '"') && n >= 5000000 && |windows| > blanks + n && windows[0] == 3
    requires forall i | 1 <= i < |windows| :: windows[i] >= 3 + blanks + 2 * n
    ensures var records := Lines(blanks, n);
      var source, rows := Text(fmt, records, "\n"), ReadBack(records, "\n");
      var r := ReadOn(fmt, source, START, windows);
      && r.eof && r.pos == |source| && |r.out| == |rows| + blanks % 2
      && (OutIs(fmt, r.out, rows) <==> blanks % 2 == 0)
  {
    hide Fit, Lines, RowText, Text, HoldsRows, ReadOn, ReadBack, ParseWhole, RowIs, WindowedReadBack, LinesCut;
    var records := Lines(blanks, n);
    RowSizes(fmt, blanks, n, 3);
    RowsLength(fmt, blanks, n);
    TextCut(fmt, records, 1);
    OneText(fmt, ["aa"]);
    NoMarkInFront(fmt, records);
    forall i | 0 <= i < |windows|
      ensures HoldsRows(fmt, records, windows[i])
    {
      RowSizes(fmt, blanks, n, windows[i]);
    }
    CutAtFirst(fmt, blanks, n, windows);
    WindowedRead(fmt, records, windows);
  }

  lemma NoMarkInFront(fmt: Format, records: seq<seq<string>>)
    requires "aa\n" <= Text(fmt, records, "\n")
    ensures !(BOM <= Text(fmt, records, "\n"))
  {
    assert Text(fmt, records, "\n")[0] == 'a' && BOM[0] != 'a';
  }
}
