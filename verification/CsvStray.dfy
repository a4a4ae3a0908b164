/** Reading text that nobody wrote by the rules: quotes inside a field that
    has none around it, and single quotes inside one that has. */
module CsvStray {
  import opened CsvFormat
  import opened CsvState
  import opened CsvRoundTrip
  import Utf

  /** A field as it stands in the text, without quotes around it or with. */
  datatype Source = Bare(text: string) | Quoted(body: string)

  predicate Ends(fmt: Format, c: char) {
    c == fmt.delim || c == '\r' || c == '\n'
  }

  /** It does not begin with a quote, and nothing in it ends a field. */
  predicate BareOk(fmt: Format, t: string) {
    (t != "" ==> t[0] != fmt.quote) && forall i | 0 <= i < |t| :: !Ends(fmt, t[i])
  }

  /** Every quote is doubled, or stands before a character that ends no
      field. */
  predicate BodyOk(fmt: Format, b: string) {
    if b == "" then true
    else if b[0] != fmt.quote then BodyOk(fmt, b[1..])
    else if |b| == 1 then false
    else if b[1] == fmt.quote then BodyOk(fmt, b[2..])
    else !Ends(fmt, b[1]) && BodyOk(fmt, b[1..])
  }

  predicate HasPair(fmt: Format, b: string) {
    if b == "" then false
    else if b[0] != fmt.quote then HasPair(fmt, b[1..])
    else |b| > 1 && (b[1] == fmt.quote || HasPair(fmt, b[1..]))
  }

  predicate SourceOk(fmt: Format, f: Source) {
    match f
    case Bare(t) => BareOk(fmt, t)
    case Quoted(b) => BodyOk(fmt, b)
  }

  function SourceText(fmt: Format, f: Source): string {
    match f
    case Bare(t) => t
    case Quoted(b) => [fmt.quote] + (b + [fmt.quote])
  }

  /** What is read: a field that holds a doubled quote loses every second
      quote, and any other keeps all it has. */
  function Meaning(fmt: Format, f: Source): string {
    match f
    case Bare(t) => t
    case Quoted(b) => if HasPair(fmt, b) then Decode(fmt, b, false) else b
  }

  function Meanings(fmt: Format, fs: seq<Source>): (r: seq<string>)
    ensures |r| == |fs| && forall i | 0 <= i < |fs| :: r[i] == Meaning(fmt, fs[i])
  {
    if fs == [] then [] else [Meaning(fmt, fs[0])] + Meanings(fmt, fs[1..])
  }

  // ----- Single quotes are kept -----

  /** Doubled quotes stand for one, and single ones for themselves. */
  function Intended(fmt: Format, b: string): string {
    if b == "" then ""
    else if b[0] == fmt.quote && |b| > 1 && b[1] == fmt.quote then [b[0]] + Intended(fmt, b[2..])
    else [b[0]] + Intended(fmt, b[1..])
  }

  /** A single quote has an odd number of quotes before it; `odd` counts those
      before `b`. */
  predicate LoneAtEven(fmt: Format, b: string, odd: bool) {
    if b == "" then false
    else if b[0] != fmt.quote then LoneAtEven(fmt, b[1..], odd)
    else if |b| > 1 && b[1] == fmt.quote then LoneAtEven(fmt, b[2..], odd)
    else odd || LoneAtEven(fmt, b[1..], !odd)
  }

  lemma {:induction false} DecodeKeeps(fmt: Format, b: string, odd: bool)
    ensures |Decode(fmt, b, odd)| <= |Intended(fmt, b)|
    ensures Decode(fmt, b, odd) == Intended(fmt, b) <==> !LoneAtEven(fmt, b, odd)
  {
    if b != "" {
      if b[0] == fmt.quote && |b| > 1 && b[1] == fmt.quote {
        DecodeKeeps(fmt, b[2..], odd);
        assert b[1..][1..] == b[2..];
        assert Decode(fmt, b, odd) == [b[0]] + Decode(fmt, b[2..], odd);
        SameTail(b[0], Decode(fmt, b[2..], odd), Intended(fmt, b[2..]));
      } else if b[0] == fmt.quote && odd {
        DecodeKeeps(fmt, b[1..], false);
      } else {
        DecodeKeeps(fmt, b[1..], if b[0] == fmt.quote then true else odd);
        SameTail(b[0], Decode(fmt, b[1..], if b[0] == fmt.quote then true else odd), Intended(fmt, b[1..]));
      }
    }
  }

  lemma SameTail<T>(x: T, a: seq<T>, b: seq<T>)
    ensures [x] + a == [x] + b <==> a == b
  {
    assert ([x] + a)[1..] == a && ([x] + b)[1..] == b;
  }

  lemma {:induction false} NoPairIntended(fmt: Format, b: string)
    requires !HasPair(fmt, b)
    ensures Intended(fmt, b) == b
  {
    if b != "" {
      if b[0] != fmt.quote || |b| > 1 {
        NoPairIntended(fmt, b[1..]);
      }
      assert b == [b[0]] + b[1..];
    }
  }

  /** A quoted field keeps its single quotes exactly if it has no doubled ones,
      or an even number of quotes before each single one. */
  lemma MeaningIsIntended(fmt: Format, b: string)
    ensures Meaning(fmt, Quoted(b)) == Intended(fmt, b) <==> !(HasPair(fmt, b) && LoneAtEven(fmt, b, false))
  {
    if HasPair(fmt, b) {
      DecodeKeeps(fmt, b, false);
    } else {
      NoPairIntended(fmt, b);
    }
  }

  /** The second single quote of `"a"b""c"d"` is lost. */
  lemma LoneQuoteLost(fmt: Format)
    requires fmt == Format(',', '"')
    ensures BodyOk(fmt, "a\"b\"\"c\"d")
    ensures Meaning(fmt, Quoted("a\"b\"\"c\"d")) == "a\"b\"cd" != Intended(fmt, "a\"b\"\"c\"d")
  {
    var b0, b1, b2 := "a\"b\"\"c\"d", "\"b\"\"c\"d", "b\"\"c\"d";
    var b3, b5, b6, b7 := "\"\"c\"d", "c\"d", "\"d", "d";
    assert b0[1..] == b1 && b1[1..] == b2 && b2[1..] == b3 && b3[2..] == b5 && b5[1..] == b6 && b6[1..] == b7;
    assert b3[1..] == "\"c\"d" && b3[1..][1..] == b5 && b7[1..] == "";
  }

  // ----- One turn of the loop, case by case -----

  lemma RunStray(fmt: Format, data: string, st: State)
    requires st.Placed() && !st.quoteEscape && st.dataPos < |data| && data[st.dataPos] == fmt.quote
    requires st.fieldLength > 0
    ensures var r := st.(dataPos := st.dataPos + 1, fieldLength := st.fieldLength + 1);
      r.Placed() && Run(fmt, data, st) == Run(fmt, data, r)
  {
    hide Run;
    RunStep(fmt, data, st);
  }

  lemma RunLone(fmt: Format, data: string, st: State)
    requires st.Placed() && st.quoteEscape && st.dataPos + 1 < |data| && data[st.dataPos] == fmt.quote
    requires data[st.dataPos + 1] != fmt.quote && !Ends(fmt, data[st.dataPos + 1])
    ensures var r := st.(dataPos := st.dataPos + 1, fieldLength := st.fieldLength + 1);
      r.Placed() && Run(fmt, data, st) == Run(fmt, data, r)
  {
    hide Run;
    RunStep(fmt, data, st);
  }

  lemma NextHead(data: string, p: nat, s: string)
    requires s != "" && Next(data, p, s)
    ensures p < |data| && data[p] == s[0] && Next(data, p + 1, s[1..])
  {
    assert s == [s[0]] + s[1..];
    NextSplit(data, p, [s[0]], s[1..]);
    assert data[p] == data[p..p + 1][0];
  }

  // ----- One field -----

  /** The rest of a bare field, after its first character. */
  lemma {:induction false} BareRun(fmt: Format, data: string, st: State, t: string)
    requires fmt.Valid() && st.Placed() && !st.quoteEscape && st.fieldStart >= 0 && st.fieldLength > 0
    requires st.fieldLength == st.dataPos - (st.row.dataStart + st.fieldStart)
    requires Next(data, st.dataPos, t) && forall i | 0 <= i < |t| :: !Ends(fmt, t[i])
    ensures var r := st.(dataPos := st.dataPos + |t|, fieldLength := st.fieldLength + |t|);
      r.Placed() && Run(fmt, data, st) == Run(fmt, data, r)
    decreases |t|
  {
    hide Run;
    if t != "" {
      NextHead(data, st.dataPos, t);
      if t[0] == fmt.quote {
        RunStray(fmt, data, st);
      } else {
        assert !Ends(fmt, t[0]);
        RunPlain(fmt, data, st);
      }
      BareRun(fmt, data, st.(dataPos := st.dataPos + 1, fieldLength := st.fieldLength + 1), t[1..]);
    }
  }

  lemma ReadBare(fmt: Format, data: string, st: State, t: string) returns (r: State)
    requires fmt.Valid() && AtField(st) && !st.fieldHasDoubleQuote && BareOk(fmt, t) && Next(data, st.dataPos, t)
    ensures r.dataPos == st.dataPos + |t| && SameRows(st, r) && PendingIs(fmt, data, r, t)
    ensures Run(fmt, data, st) == Run(fmt, data, r)
  {
    hide Run;
    if t == "" {
      r := st;
    } else {
      NextHead(data, st.dataPos, t);
      assert !Ends(fmt, t[0]);
      RunPlain(fmt, data, st);
      var m := st.(dataPos := st.dataPos + 1, fieldStart := st.dataPos - st.row.dataStart, fieldLength := 1);
      BareRun(fmt, data, m, t[1..]);
      r := m.(dataPos := st.dataPos + |t|, fieldLength := |t|);
    }
  }

  lemma InQuotes(fmt: Format, st: State, c: char)
    ensures st.quoteEscape && c != fmt.quote ==> CompoundFlag(fmt, st, c) == NotSpecial
    ensures fmt.Valid() ==> (EndsField(fmt, c) <==> Ends(fmt, c))
  {
  }

  /** From inside quotes to the character after the closing quote. */
  lemma {:induction false} BodyRun(fmt: Format, data: string, st: State, b: string)
    requires fmt.Valid() && st.Placed() && st.quoteEscape && st.fieldStart >= 0 && BodyOk(fmt, b)
    requires st.fieldLength == st.dataPos - (st.row.dataStart + st.fieldStart)
    requires var end := st.dataPos + |b| + 1;
      Next(data, st.dataPos, b + [fmt.quote]) && end < |data| && Ends(fmt, data[end])
    ensures var r := st.(dataPos := st.dataPos + |b| + 1, quoteEscape := false, fieldLength := st.fieldLength + |b|,
                         fieldHasDoubleQuote := st.fieldHasDoubleQuote || HasPair(fmt, b));
      r.Placed() && Run(fmt, data, st) == Run(fmt, data, r)
    decreases |b|
  {
    hide Run, ParseFlag, EndsField, Next;
    var p := st.dataPos;
    NextHead(data, p, b + [fmt.quote]);
    InQuotes(fmt, st, data[p]);
    if b == "" {
      InQuotes(fmt, st, data[p + 1]);
      RunClose(fmt, data, st);
    } else {
      assert (b + [fmt.quote])[1..] == b[1..] + [fmt.quote];
      NextHead(data, p + 1, b[1..] + [fmt.quote]);
      if b[0] != fmt.quote {
        RunPlain(fmt, data, st);
        BodyRun(fmt, data, st.(dataPos := p + 1, fieldLength := st.fieldLength + 1), b[1..]);
      } else if b[1] == fmt.quote {
        assert (b[1..] + [fmt.quote])[1..] == b[2..] + [fmt.quote];
        RunPair(fmt, data, st);
        BodyRun(fmt, data, st.(dataPos := p + 2, fieldLength := st.fieldLength + 2, fieldHasDoubleQuote := true),
                b[2..]);
      } else {
        RunLone(fmt, data, st);
        BodyRun(fmt, data, st.(dataPos := p + 1, fieldLength := st.fieldLength + 1), b[1..]);
      }
    }
  }

  lemma ReadBody(fmt: Format, data: string, st: State, b: string) returns (r: State)
    requires fmt.Valid() && AtField(st) && !st.fieldHasDoubleQuote && BodyOk(fmt, b)
    requires Next(data, st.dataPos, SourceText(fmt, Quoted(b)))
    requires var end := st.dataPos + |b| + 2; end < |data| && Ends(fmt, data[end])
    ensures r.dataPos == st.dataPos + |b| + 2 && SameRows(st, r) && PendingIs(fmt, data, r, Meaning(fmt, Quoted(b)))
    ensures Run(fmt, data, st) == Run(fmt, data, r)
  {
    hide Run, Meaning, HasPair, BodyOk, PendingIs, Next, ParseFlag;
    var p := st.dataPos;
    assert SourceText(fmt, Quoted(b))[1..] == b + [fmt.quote];
    NextHead(data, p, SourceText(fmt, Quoted(b)));
    NextSplit(data, p + 1, b, [fmt.quote]);
    RunOpen(fmt, data, st);
    var open := st.(quoteEscape := true, dataPos := p + 1, fieldStart := p + 1 - st.row.dataStart);
    BodyRun(fmt, data, open, b);
    r := open.(dataPos := p + |b| + 2, quoteEscape := false, fieldLength := |b|,
      fieldHasDoubleQuote := HasPair(fmt, b));
    BodyIsPending(fmt, data, r, b, p + 1);
  }

  lemma BodyIsPending(fmt: Format, data: string, st: State, b: string, from: nat)
    requires st.Placed() && !st.quoteEscape && Next(data, from, b)
    requires st.fieldStart >= 0 && st.row.dataStart + st.fieldStart == from && st.fieldLength == |b|
    requires st.fieldHasDoubleQuote == HasPair(fmt, b)
    ensures PendingIs(fmt, data, st, Meaning(fmt, Quoted(b)))
  {
    hide Decode, HasPair;
  }

  lemma ReadSource(fmt: Format, data: string, st: State, f: Source) returns (r: State)
    requires fmt.Valid() && AtField(st) && !st.fieldHasDoubleQuote && SourceOk(fmt, f)
    requires Next(data, st.dataPos, SourceText(fmt, f))
    requires var end := st.dataPos + |SourceText(fmt, f)|; end < |data| && Ends(fmt, data[end])
    ensures r.dataPos == st.dataPos + |SourceText(fmt, f)| && SameRows(st, r)
    ensures PendingIs(fmt, data, r, Meaning(fmt, f))
    ensures Run(fmt, data, st) == Run(fmt, data, r)
  {
    hide Run, PendingIs, Next, AtField;
    match f {
      case Bare(t) => r := ReadBare(fmt, data, st, t);
      case Quoted(b) => r := ReadBody(fmt, data, st, b);
    }
  }

  // ----- One line -----

  function LineText(fmt: Format, fs: seq<Source>): string {
    if fs == [] then ""
    else if |fs| == 1 then SourceText(fmt, fs[0])
    else SourceText(fmt, fs[0]) + ([fmt.delim] + LineText(fmt, fs[1..]))
  }

  ghost predicate LineOk(fmt: Format, fs: seq<Source>) {
    fs != [] && forall i | 0 <= i < |fs| :: SourceOk(fmt, fs[i])
  }

  lemma {:induction false} ReadSources(fmt: Format, data: string, st: State, fs: seq<Source>) returns (r: State)
    requires fmt.Valid() && AtField(st) && !st.fieldHasDoubleQuote && LineOk(fmt, fs)
    requires Next(data, st.dataPos, LineText(fmt, fs))
    requires var end := st.dataPos + |LineText(fmt, fs)|; end < |data| && ParseFlag(fmt, data[end]) == Newline
    ensures r.dataPos == st.dataPos + |LineText(fmt, fs)| && r.records == st.records
    ensures r.row == st.row.(rowLength := st.row.rowLength + |fs| - 1)
    ensures |r.fields| == |st.fields| + |fs| - 1 && st.fields <= r.fields
    ensures FieldsAre(fmt, data, st.row.dataStart, r.fields, |st.fields|, Meanings(fmt, fs)[..|fs| - 1])
    ensures PendingIs(fmt, data, r, Meaning(fmt, fs[|fs| - 1]))
    ensures Run(fmt, data, st) == Run(fmt, data, r)
    decreases |fs|
  {
    hide Run, FieldIs, SourceText, Meaning, SourceOk;
    var p := st.dataPos;
    if |fs| == 1 {
      r := ReadSource(fmt, data, st, fs[0]);
    } else {
      var head, tail := SourceText(fmt, fs[0]), LineText(fmt, fs[1..]);
      NextSplit(data, p, head, [fmt.delim] + tail);
      NextSplit(data, p + |head|, [fmt.delim], tail);
      assert data[p + |head|] == data[p + |head|..p + |head| + 1][0];
      var m := ReadSource(fmt, data, st, fs[0]);
      RunDelimiter(fmt, data, m);
      var next := m.PushField().(dataPos := m.dataPos + 1);
      r := ReadSources(fmt, data, next, fs[1..]);
      assert Meanings(fmt, fs)[1..] == Meanings(fmt, fs[1..]);
      FieldsJoin(fmt, data, st.row.dataStart, st.fields, next.fields, r.fields, Meanings(fmt, fs));
    }
  }

  lemma PendingIsOutside(fmt: Format, data: string, st: State, f: string)
    requires PendingIs(fmt, data, st, f)
    ensures st.Placed() && !st.quoteEscape
  {
  }

  lemma NewlineAhead(fmt: Format, data: string, end: nat, newline: string)
    requires fmt.Valid() && newline in {"\n", "\r\n"} && Next(data, end, newline)
    ensures end < |data| && ParseFlag(fmt, data[end]) == Newline
    ensures newline == "\r\n" ==> end + 1 < |data| && ParseFlag(fmt, data[end + 1]) == Newline
  {
    assert forall i | 0 <= i < |newline| :: data[end..end + |newline|][i] == newline[i];
    assert data[end] == data[end..end + |newline|][0];
    if newline == "\r\n" {
      assert data[end + 1] == data[end..end + |newline|][1];
    }
  }

  /** The newline after the last field of a row. */
  lemma EndLine(fmt: Format, data: string, m: State, newline: string) returns (r: State)
    requires fmt.Valid() && newline in {"\n", "\r\n"} && Next(data, m.dataPos, newline)
    requires m.Placed() && !m.quoteEscape
    ensures AtRow(r) && !r.fieldHasDoubleQuote && r.row.dataStart == r.dataPos
    ensures var end := m.dataPos + |newline|;
      r.dataPos == if newline == "\n" && end < |data| && ParseFlag(fmt, data[end]) == Newline then end + 1 else end
    ensures r.fields == m.PushField().fields && r.records == m.PushField().PushRow().records
    ensures Run(fmt, data, m) == Run(fmt, data, r)
  {
    hide Run, ParseFlag, Next;
    var end := m.dataPos;
    NewlineAhead(fmt, data, end, newline);
    RunNewline(fmt, data, m);
    var next := if end + 1 < |data| && ParseFlag(fmt, data[end + 1]) == Newline then end + 2 else end + 1;
    r := m.(dataPos := next).PushField().PushRow().NextRow();
  }

  lemma ReadLine(fmt: Format, data: string, st: State, fs: seq<Source>, newline: string) returns (r: State)
    requires fmt.Valid() && AtRow(st) && !st.fieldHasDoubleQuote && LineOk(fmt, fs) && newline in {"\n", "\r\n"}
    requires Next(data, st.dataPos, LineText(fmt, fs) + newline)
    ensures AtRow(r) && !r.fieldHasDoubleQuote && r.row.dataStart == r.dataPos
    ensures var end := st.dataPos + |LineText(fmt, fs)| + |newline|;
      r.dataPos == if newline == "\n" && end < |data| && ParseFlag(fmt, data[end]) == Newline then end + 1 else end
    ensures st.fields <= r.fields && |r.records| == |st.records| + 1 && st.records <= r.records
    ensures RowIs(fmt, data, r.fields, r.records[|st.records|], Meanings(fmt, fs))
    ensures Run(fmt, data, st) == Run(fmt, data, r)
  {
    hide Run, FieldIs, LineText, FieldsAre, RowIs, LineOk, Meaning, ParseFlag, PendingIs, Next;
    var p, text := st.dataPos, LineText(fmt, fs);
    NextSplit(data, p, text, newline);
    NewlineAhead(fmt, data, p + |text|, newline);
    var m := ReadSources(fmt, data, st, fs);
    PendingIsOutside(fmt, data, m, Meaning(fmt, fs[|fs| - 1]));
    r := EndLine(fmt, data, m, newline);
    LastPushed(fmt, data, st, m, r, Meanings(fmt, fs));
  }

  // ----- The whole text -----

  function LinesText(fmt: Format, lines: seq<seq<Source>>, newline: string): string {
    if lines == [] then "" else LineText(fmt, lines[0]) + newline + LinesText(fmt, lines[1..], newline)
  }

  /** The lines can be read singly: with LF none but the first is empty. */
  ghost predicate LinesOk(fmt: Format, lines: seq<seq<Source>>, newline: string) {
    && (forall k | 0 <= k < |lines| :: LineOk(fmt, lines[k]))
    && (newline == "\n" ==> forall k | 1 <= k < |lines| :: LineText(fmt, lines[k]) != "")
  }

  function Records(fmt: Format, lines: seq<seq<Source>>): seq<seq<string>> {
    if lines == [] then [] else [Meanings(fmt, lines[0])] + Records(fmt, lines[1..])
  }

  lemma LineBegins(fmt: Format, fs: seq<Source>)
    requires fmt.Valid() && LineOk(fmt, fs) && LineText(fmt, fs) != ""
    ensures ParseFlag(fmt, LineText(fmt, fs)[0]) != Newline
  {
    var t := SourceText(fmt, fs[0]);
    assert SourceOk(fmt, fs[0]);
    if t != "" && fs[0].Bare? {
      assert !Ends(fmt, t[0]);
    }
  }

  /** The first line lies ahead, then the rest of the text, which does not
      begin with a newline a line feed would swallow. */
  lemma FirstLineAhead(fmt: Format, data: string, p: nat, lines: seq<seq<Source>>, newline: string)
    requires fmt.Valid() && lines != [] && LinesOk(fmt, lines, newline)
    requires p <= |data| && data[p..] == LinesText(fmt, lines, newline)
    ensures var text := LineText(fmt, lines[0]) + newline;
      var end := p + |text|;
      && Next(data, p, text) && end <= |data| && data[end..] == LinesText(fmt, lines[1..], newline)
      && (newline == "\n" && end < |data| ==> ParseFlag(fmt, data[end]) != Newline)
  {
    hide LineText, LineOk;
    var text, rest := LineText(fmt, lines[0]) + newline, lines[1..];
    var end := p + |text|;
    assert data[p..] == text + LinesText(fmt, rest, newline);
    assert data[p..end] == data[p..][..|text|];
    assert data[end..] == data[p..][|text|..];
    if newline == "\n" && rest != [] {
      LineBegins(fmt, rest[0]);
      assert data[end] == data[end..][0] == LineText(fmt, rest[0])[0];
    }
  }

  lemma LinesRest(fmt: Format, lines: seq<seq<Source>>, newline: string)
    requires lines != [] && LinesOk(fmt, lines, newline)
    ensures LineOk(fmt, lines[0]) && LinesOk(fmt, lines[1..], newline)
  {
    hide LineText, LineOk;
  }

  lemma OneMoreLine(fmt: Format, data: string, st: State, done: seq<seq<string>>, lines: seq<seq<Source>>,
                    newline: string)
    returns (r: State)
    requires fmt.Valid() && newline in {"\n", "\r\n"} && lines != [] && LinesOk(fmt, lines, newline)
    requires AtRow(st) && !st.fieldHasDoubleQuote && st.dataPos <= |data|
    requires data[st.dataPos..] == LinesText(fmt, lines, newline) && RowsAre(fmt, data, st.fields, st.records, done)
    ensures AtRow(r) && !r.fieldHasDoubleQuote && r.dataPos <= |data|
    ensures data[r.dataPos..] == LinesText(fmt, lines[1..], newline)
    ensures RowsAre(fmt, data, r.fields, r.records, done + [Meanings(fmt, lines[0])])
    ensures Run(fmt, data, st) == Run(fmt, data, r)
  {
    hide RowIs, LineText, LinesText, Run, AtRow, LineOk, LinesOk, Next, ParseFlag;
    FirstLineAhead(fmt, data, st.dataPos, lines, newline);
    LinesRest(fmt, lines, newline);
    r := ReadLine(fmt, data, st, lines[0], newline);
    RowsStay(fmt, data, st.fields, r.fields, st.records, done);
  }

  lemma {:induction false} ReadLines(fmt: Format, data: string, st: State, done: seq<seq<string>>,
                                     lines: seq<seq<Source>>, newline: string)
    returns (r: State)
    requires fmt.Valid() && newline in {"\n", "\r\n"} && LinesOk(fmt, lines, newline)
    requires AtRow(st) && !st.fieldHasDoubleQuote && st.dataPos <= |data|
    requires data[st.dataPos..] == LinesText(fmt, lines, newline) && RowsAre(fmt, data, st.fields, st.records, done)
    ensures AtRow(r) && r.dataPos == |data|
    ensures RowsAre(fmt, data, r.fields, r.records, done + Records(fmt, lines)) && Run(fmt, data, st) == r
    decreases |lines|
  {
    if lines == [] {
      r := st;
      assert done + Records(fmt, lines) == done;
    } else {
      hide RowsAre, LinesText, Run, AtRow, LinesOk, Meanings;
      var m := OneMoreLine(fmt, data, st, done, lines, newline);
      LinesRest(fmt, lines, newline);
      r := ReadLines(fmt, data, m, done + [Meanings(fmt, lines[0])], lines[1..], newline);
      AppendFirst(done, Meanings(fmt, lines[0]), Records(fmt, lines[1..]));
    }
  }

  lemma {:induction false} LinesEnd(fmt: Format, lines: seq<seq<Source>>, newline: string)
    requires newline in {"\n", "\r\n"} && lines != []
    ensures var t := LinesText(fmt, lines, newline); t != "" && t[|t| - 1] == '\n'
  {
    hide LineText;
    var front, rest := LineText(fmt, lines[0]) + newline, LinesText(fmt, lines[1..], newline);
    assert front[|front| - 1] == newline[|newline| - 1] == '\n';
    if |lines| > 1 {
      LinesEnd(fmt, lines[1..], newline);
      assert (front + rest)[|front + rest| - 1] == rest[|rest| - 1];
    }
  }

  /** What reading gives for lines of such fields, with LF or CRLF and with or
      without a byte order mark: every field's meaning, in the same rows. */
  lemma StrayReadsBack(fmt: Format, lines: seq<seq<Source>>, newline: string, data: string)
    requires fmt.Valid() && newline in {"\n", "\r\n"} && LinesOk(fmt, lines, newline)
    requires var text := LinesText(fmt, lines, newline);
      (data == text && !(BOM <= text)) || (data == BOM + text && lines != [])
    ensures var r := ParseWhole(fmt, data); RowsAre(fmt, data, r.fields, r.records, Records(fmt, lines))
  {
    hide LinesText, Run, RowIs, LinesOk;
    var st := Begin(data, false, false);
    assert data[st.dataPos..] == LinesText(fmt, lines, newline);
    var r := ReadLines(fmt, data, st, [], lines, newline);
    if lines != [] {
      LinesEnd(fmt, lines, newline);
      assert data[|data| - 1] == data[st.dataPos..][|data| - st.dataPos - 1];
    } else {
      assert data == "" by { NoLines(fmt, newline); }
    }
    NothingLeft(fmt, data, r);
    assert [] + Records(fmt, lines) == Records(fmt, lines);
  }

  lemma NoLines(fmt: Format, newline: string)
    ensures LinesText(fmt, [], newline) == ""
  {
  }

  // ----- The byte order mark -----

  /** The mark that is skipped is the UTF-8 encoding of U+FEFF. */
  lemma MarkIsUtf8()
    ensures var bytes := Utf.Encode8(0xFEFF);
      |BOM| == |bytes| == 3 && forall i | 0 <= i < 3 :: BOM[i] as int == bytes[i] as int
  {
  }
}
