/** Reading back what the writer wrote. */
module CsvRoundTrip {
  import opened CsvFormat
  import opened CsvState

  // ----- Field values -----

  /** `get_field` on a field with doubled quotes: every second quote goes. */
  function Decode(fmt: Format, s: string, prevQuote: bool): string {
    if s == "" then ""
    else if s[0] == fmt.quote then
      if prevQuote then Decode(fmt, s[1..], false) else [s[0]] + Decode(fmt, s[1..], true)
    else [s[0]] + Decode(fmt, s[1..], prevQuote)
  }

  lemma NothingDecoded(fmt: Format, prevQuote: bool)
    ensures Decode(fmt, "", prevQuote) == ""
  {
  }

  lemma QuoteFlag(fmt: Format, c: char)
    ensures ParseFlag(fmt, c) == Quote <==> c == fmt.quote
  {
  }

  lemma DecodeUnfolds(fmt: Format, s: string, prevQuote: bool)
    requires s != ""
    ensures Decode(fmt, s, prevQuote)
         == (if s[0] == fmt.quote && prevQuote then "" else [s[0]])
            + Decode(fmt, s[1..], if s[0] == fmt.quote then !prevQuote else prevQuote)
  {
  }

  ghost predicate Inside(data: string, base: nat, field: RawField) {
    base + field.start + field.length <= |data|
  }

  /** The value of a field of the row at `base`. */
  function FieldValue(fmt: Format, data: string, base: nat, field: RawField): string
    requires Inside(data, base, field)
  {
    var from := base + field.start;
    var raw := data[from..from + field.length];
    if field.hasDoubleQuote then Decode(fmt, raw, false) else raw
  }

  ghost predicate FieldIs(fmt: Format, data: string, base: nat, field: RawField, value: string) {
    Inside(data, base, field) && FieldValue(fmt, data, base, field) == value
  }

  /** The fields from index `from` on have these values. */
  ghost predicate FieldsAre(fmt: Format, data: string, base: nat, fields: seq<RawField>, from: nat,
                            values: seq<string>) {
    && from + |values| <= |fields|
    && forall i | 0 <= i < |values| :: FieldIs(fmt, data, base, fields[from..][i], values[i])
  }

  ghost predicate RowIs(fmt: Format, data: string, fields: seq<RawField>, row: Row, record: seq<string>) {
    row.rowLength == |record| && FieldsAre(fmt, data, row.dataStart, fields, row.fieldsStart, record)
  }

  ghost predicate RowsAre(fmt: Format, data: string, fields: seq<RawField>, rows: seq<Row>, records: seq<seq<string>>) {
    |rows| == |records| && forall k | 0 <= k < |rows| :: RowIs(fmt, data, fields, rows[k], records[k])
  }

  lemma {:induction false} DecodeDoubled(fmt: Format, s: string)
    ensures Decode(fmt, Doubled(fmt, s), false) == s
  {
    if s != "" {
      DecodeDoubled(fmt, s[1..]);
      var d := Doubled(fmt, s);
      if s[0] == fmt.quote {
        assert d[1..] == [fmt.quote] + Doubled(fmt, s[1..]);
        assert d[1..][1..] == Doubled(fmt, s[1..]);
      } else {
        assert d[1..] == Doubled(fmt, s[1..]);
      }
    }
  }

  lemma {:induction false} PlainStays(fmt: Format, s: string, prevQuote: bool)
    requires fmt.quote !in s
    ensures Decode(fmt, s, prevQuote) == s
    ensures Doubled(fmt, s) == s
  {
    if s != "" {
      PlainStays(fmt, s[1..], prevQuote);
    }
  }

  // ----- One field -----

  /** Between fields. */
  ghost predicate AtField(st: State) {
    st.Placed() && !st.quoteEscape && st.fieldStart == UNINITIALIZED_FIELD && st.fieldLength == 0
  }

  /** The text `s` comes next. */
  ghost predicate Next(data: string, p: nat, s: string) {
    p + |s| <= |data| && data[p..p + |s|] == s
  }

  lemma NextSplit(data: string, p: nat, a: string, b: string)
    requires Next(data, p, a + b)
    ensures Next(data, p, a) && Next(data, p + |a|, b)
  {
    assert data[p..p + |a|] == (a + b)[..|a|];
    assert data[p + |a|..p + |a| + |b|] == (a + b)[|a|..];
  }

  ghost predicate EndsField(fmt: Format, c: char) {
    ParseFlag(fmt, c) == Delimiter || ParseFlag(fmt, c) == Newline
  }

  // One turn of the loop, case by case.

  lemma RunStep(fmt: Format, data: string, st: State)
    requires st.Placed() && !Stops(fmt, data, st)
    ensures Run(fmt, data, st) == Run(fmt, data, StepState(fmt, data, st))
  {
  }

  lemma RunPlain(fmt: Format, data: string, st: State)
    requires st.Placed() && st.dataPos < |data| && CompoundFlag(fmt, st, data[st.dataPos]) == NotSpecial
    ensures var start := if st.fieldStart == UNINITIALIZED_FIELD then st.dataPos - st.row.dataStart else st.fieldStart;
      var r := st.(dataPos := st.dataPos + 1, fieldStart := start,
        fieldLength := st.dataPos + 1 - (start + st.row.dataStart));
      r.Placed() && Run(fmt, data, st) == Run(fmt, data, r)
  {
    hide Run;
    RunStep(fmt, data, st);
  }

  lemma RunOpen(fmt: Format, data: string, st: State)
    requires AtField(st) && st.dataPos + 1 < |data| && data[st.dataPos] == fmt.quote
    ensures var r := st.(quoteEscape := true, dataPos := st.dataPos + 1,
      fieldStart := st.dataPos + 1 - st.row.dataStart);
      r.Placed() && Run(fmt, data, st) == Run(fmt, data, r)
  {
    hide Run;
    RunStep(fmt, data, st);
  }

  lemma RunPair(fmt: Format, data: string, st: State)
    requires st.Placed() && st.quoteEscape && st.dataPos + 1 < |data|
    requires data[st.dataPos] == data[st.dataPos + 1] == fmt.quote
    ensures var r := st.(dataPos := st.dataPos + 2, fieldLength := st.fieldLength + 2, fieldHasDoubleQuote := true);
      r.Placed() && Run(fmt, data, st) == Run(fmt, data, r)
  {
    hide Run;
    RunStep(fmt, data, st);
  }

  lemma RunClose(fmt: Format, data: string, st: State)
    requires st.Placed() && st.quoteEscape && st.dataPos + 1 < |data|
    requires data[st.dataPos] == fmt.quote && EndsField(fmt, data[st.dataPos + 1])
    ensures var r := st.(dataPos := st.dataPos + 1, quoteEscape := false);
      r.Placed() && Run(fmt, data, st) == Run(fmt, data, r)
  {
    hide Run;
    RunStep(fmt, data, st);
  }

  lemma RunDelimiter(fmt: Format, data: string, st: State)
    requires st.Placed() && !st.quoteEscape && st.dataPos < |data| && ParseFlag(fmt, data[st.dataPos]) == Delimiter
    ensures var r := st.PushField().(dataPos := st.dataPos + 1);
      r.Placed() && Run(fmt, data, st) == Run(fmt, data, r)
  {
    hide Run;
    RunStep(fmt, data, st);
  }

  lemma RunNewline(fmt: Format, data: string, st: State)
    requires st.Placed() && !st.quoteEscape && st.dataPos < |data| && ParseFlag(fmt, data[st.dataPos]) == Newline
    ensures var p := st.dataPos;
      var next := if p + 1 < |data| && ParseFlag(fmt, data[p + 1]) == Newline then p + 2 else p + 1;
      var r := st.(dataPos := next).PushField().PushRow().NextRow();
      r.Placed() && Run(fmt, data, st) == Run(fmt, data, r)
  {
    hide Run;
    RunStep(fmt, data, st);
  }

  /** Ordinary characters are taken in one run. */
  lemma {:induction false} PlainRun(fmt: Format, data: string, st: State, end: nat)
    requires st.Placed() && st.dataPos < end <= |data|
    requires forall i | st.dataPos <= i < end :: CompoundFlag(fmt, st, data[i]) == NotSpecial
    ensures var start := if st.fieldStart == UNINITIALIZED_FIELD then st.dataPos - st.row.dataStart else st.fieldStart;
      var r := st.(dataPos := end, fieldStart := start, fieldLength := end - (start + st.row.dataStart));
      r.Placed() && Run(fmt, data, st) == Run(fmt, data, r)
    decreases end - st.dataPos
  {
    hide Run, ParseFlag;
    RunPlain(fmt, data, st);
    if st.dataPos + 1 < end {
      var start := if st.fieldStart == UNINITIALIZED_FIELD then st.dataPos - st.row.dataStart else st.fieldStart;
      PlainRun(fmt, data, st.(dataPos := st.dataPos + 1, fieldStart := start,
        fieldLength := st.dataPos + 1 - (start + st.row.dataStart)), end);
    }
  }

  /** From inside quotes to the character after the closing quote. */
  lemma {:induction false} QuotedRun(fmt: Format, data: string, st: State, g: string)
    requires fmt.Valid() && st.Placed() && st.quoteEscape && st.fieldStart >= 0
    requires st.fieldLength == st.dataPos - (st.row.dataStart + st.fieldStart)
    requires var end := st.dataPos + |Doubled(fmt, g)| + 1;
      Next(data, st.dataPos, Doubled(fmt, g) + [fmt.quote]) && end < |data| && EndsField(fmt, data[end])
    ensures var n := |Doubled(fmt, g)|;
      var r := st.(dataPos := st.dataPos + n + 1, quoteEscape := false, fieldLength := st.fieldLength + n,
                   fieldHasDoubleQuote := st.fieldHasDoubleQuote || fmt.quote in g);
      r.Placed() && Run(fmt, data, st) == Run(fmt, data, r)
    decreases |g|
  {
    hide Run, EndsField;
    var p := st.dataPos;
    if g == "" {
      assert data[p] == data[p..p + 1][0];
      RunClose(fmt, data, st);
    } else {
      var rest := g[1..];
      DoubledHead(fmt, data, p, g);
      assert g == [g[0]] + rest;
      if g[0] == fmt.quote {
        RunPair(fmt, data, st);
        QuotedRun(fmt, data, st.(dataPos := p + 2, fieldLength := st.fieldLength + 2, fieldHasDoubleQuote := true),
          rest);
      } else {
        RunPlain(fmt, data, st);
        QuotedRun(fmt, data, st.(dataPos := p + 1, fieldLength := st.fieldLength + 1), rest);
      }
    }
  }

  /** What the first character of a field looks like inside quotes. */
  lemma DoubledHead(fmt: Format, data: string, p: nat, g: string)
    requires g != "" && Next(data, p, Doubled(fmt, g) + [fmt.quote])
    ensures var n := if g[0] == fmt.quote then 2 else 1;
      && |Doubled(fmt, g)| == n + |Doubled(fmt, g[1..])| && p + n < |data|
      && data[p] == g[0] && data[p + n - 1] == g[0]
      && Next(data, p + n, Doubled(fmt, g[1..]) + [fmt.quote])
  {
    var head := if g[0] == fmt.quote then [g[0], g[0]] else [g[0]];
    assert Doubled(fmt, g) + [fmt.quote] == head + (Doubled(fmt, g[1..]) + [fmt.quote]);
    NextSplit(data, p, head, Doubled(fmt, g[1..]) + [fmt.quote]);
    assert data[p] == data[p..p + |head|][0] && data[p + |head| - 1] == data[p..p + |head|][|head| - 1];
  }

  /** The field being read has value `f` if it is pushed now. */
  ghost predicate PendingIs(fmt: Format, data: string, st: State, f: string) {
    && st.Placed() && !st.quoteEscape
    && var field := RawField(if st.fieldStart == UNINITIALIZED_FIELD then 0 else st.fieldStart, st.fieldLength,
                             st.fieldHasDoubleQuote);
      FieldIs(fmt, data, st.row.dataStart, field, f)
  }

  /** The parts of the state that reading one field does not touch. */
  ghost predicate SameRows(a: State, b: State) {
    a.fields == b.fields && a.row == b.row && a.records == b.records
  }

  lemma PlainField(fmt: Format, f: string)
    requires !NeedsQuotes(fmt, f)
    ensures fmt.quote !in f
  {
    forall i | 0 <= i < |f|
      ensures f[i] != fmt.quote
    {
      assert !IsSpecial(fmt, f[i]);
    }
  }

  lemma ReadQuoted(fmt: Format, data: string, st: State, f: string) returns (r: State)
    requires fmt.Valid() && AtField(st)
    requires Next(data, st.dataPos, [fmt.quote] + (Doubled(fmt, f) + [fmt.quote]))
    requires var end := st.dataPos + |Doubled(fmt, f)| + 2; end < |data| && EndsField(fmt, data[end])
    ensures r.dataPos == st.dataPos + |Doubled(fmt, f)| + 2 && SameRows(st, r) && PendingIs(fmt, data, r, f)
    ensures Run(fmt, data, st) == Run(fmt, data, r)
  {
    hide Run, Decode, ParseFlag, Doubled, EndsField;
    var p, n := st.dataPos, |Doubled(fmt, f)|;
    NextSplit(data, p, [fmt.quote], Doubled(fmt, f) + [fmt.quote]);
    NextSplit(data, p + 1, Doubled(fmt, f), [fmt.quote]);
    assert data[p] == data[p..p + 1][0];
    RunOpen(fmt, data, st);
    var open := st.(quoteEscape := true, dataPos := p + 1, fieldStart := p + 1 - st.row.dataStart);
    QuotedRun(fmt, data, open, f);
    r := open.(dataPos := p + n + 2, quoteEscape := false, fieldLength := n,
      fieldHasDoubleQuote := st.fieldHasDoubleQuote || fmt.quote in f);
    DecodeDoubled(fmt, f);
    if fmt.quote !in f {
      PlainStays(fmt, f, false);
    }
  }

  lemma PlainChars(fmt: Format, data: string, st: State, f: string)
    requires !st.quoteEscape && !NeedsQuotes(fmt, f) && Next(data, st.dataPos, f)
    ensures forall i | st.dataPos <= i < st.dataPos + |f| :: CompoundFlag(fmt, st, data[i]) == NotSpecial
  {
    var p := st.dataPos;
    forall i | p <= i < p + |f|
      ensures CompoundFlag(fmt, st, data[i]) == NotSpecial
    {
      assert data[i] == data[p..p + |f|][i - p];
      assert !IsSpecial(fmt, f[i - p]);
    }
  }

  lemma ReadUnquoted(fmt: Format, data: string, st: State, f: string) returns (r: State)
    requires AtField(st) && !NeedsQuotes(fmt, f) && Next(data, st.dataPos, f)
    ensures r.dataPos == st.dataPos + |f| && SameRows(st, r) && PendingIs(fmt, data, r, f) && r.fieldLength == |f|
    ensures Run(fmt, data, st) == Run(fmt, data, r)
  {
    hide Run, Decode, NeedsQuotes, ParseFlag;
    PlainField(fmt, f);
    PlainStays(fmt, f, false);
    var p, end := st.dataPos, st.dataPos + |f|;
    if f == "" {
      r := st;
    } else {
      PlainChars(fmt, data, st, f);
      PlainRun(fmt, data, st, end);
      r := st.(dataPos := end, fieldStart := p - st.row.dataStart, fieldLength := |f|);
    }
  }

  /** A written field is read back up to the character that ends it. */
  lemma ReadField(fmt: Format, data: string, st: State, f: string) returns (r: State)
    requires fmt.Valid() && AtField(st)
    requires Next(data, st.dataPos, Escaped(fmt, f))
    requires var end := st.dataPos + |Escaped(fmt, f)|; end < |data| && EndsField(fmt, data[end])
    ensures r.dataPos == st.dataPos + |Escaped(fmt, f)| && SameRows(st, r) && PendingIs(fmt, data, r, f)
    ensures Run(fmt, data, st) == Run(fmt, data, r)
  {
    hide *;
    EscapedIs(fmt, f);
    if NeedsQuotes(fmt, f) {
      r := ReadQuoted(fmt, data, st, f);
    } else {
      r := ReadUnquoted(fmt, data, st, f);
    }
  }

  lemma EscapedIs(fmt: Format, f: string)
    ensures NeedsQuotes(fmt, f) ==>
      Escaped(fmt, f) == [fmt.quote] + (Doubled(fmt, f) + [fmt.quote]) && |Escaped(fmt, f)| == |Doubled(fmt, f)| + 2
    ensures !NeedsQuotes(fmt, f) ==> Escaped(fmt, f) == f
  {
    hide Doubled, NeedsQuotes;
  }

  // ----- One row -----

  ghost predicate AtRow(st: State) {
    AtField(st) && st.row.fieldsStart == |st.fields| && st.row.rowLength == 0
  }

  /** The fields of a row up to the character that ends it; the last one is
      still pending. */
  lemma {:induction false} ReadFields(fmt: Format, data: string, st: State, values: seq<string>) returns (r: State)
    requires fmt.Valid() && AtField(st) && values != []
    requires Next(data, st.dataPos, Joined(fmt, values))
    requires var end := st.dataPos + |Joined(fmt, values)|; end < |data| && ParseFlag(fmt, data[end]) == Newline
    ensures r.dataPos == st.dataPos + |Joined(fmt, values)| && r.records == st.records
    ensures r.row == st.row.(rowLength := st.row.rowLength + |values| - 1)
    ensures |r.fields| == |st.fields| + |values| - 1 && st.fields <= r.fields
    ensures FieldsAre(fmt, data, st.row.dataStart, r.fields, |st.fields|, values[..|values| - 1])
    ensures PendingIs(fmt, data, r, values[|values| - 1])
    ensures Run(fmt, data, st) == Run(fmt, data, r)
    decreases |values|
  {
    hide Run, FieldIs, Escaped, ParseFlag;
    var p := st.dataPos;
    if |values| == 1 {
      EndsWithNewline(fmt, data, p + |Joined(fmt, values)|);
      r := ReadField(fmt, data, st, values[0]);
    } else {
      var head, tail := Escaped(fmt, values[0]), Joined(fmt, values[1..]);
      assert Joined(fmt, values) == head + ([fmt.delim] + tail);
      NextSplit(data, p, head, [fmt.delim] + tail);
      NextSplit(data, p + |head|, [fmt.delim], tail);
      assert data[p + |head|] == data[p + |head|..p + |head| + 1][0];
      DelimiterEnds(fmt);
      var m := ReadField(fmt, data, st, values[0]);
      RunDelimiter(fmt, data, m);
      var next := m.PushField().(dataPos := m.dataPos + 1);
      r := ReadFields(fmt, data, next, values[1..]);
      FieldsJoin(fmt, data, st.row.dataStart, st.fields, next.fields, r.fields, values);
    }
  }

  lemma DelimiterEnds(fmt: Format)
    requires fmt.Valid()
    ensures ParseFlag(fmt, fmt.delim) == Delimiter && EndsField(fmt, fmt.delim)
  {
  }

  lemma EndsWithNewline(fmt: Format, data: string, end: nat)
    requires end < |data| && ParseFlag(fmt, data[end]) == Newline
    ensures EndsField(fmt, data[end])
  {
  }

  /** The first field and the ones after it. */
  lemma FieldsJoin(fmt: Format, data: string, base: nat, before: seq<RawField>, next: seq<RawField>,
                   all: seq<RawField>, values: seq<string>)
    requires |values| > 1 && before <= next <= all && |next| == |before| + 1 && |all| == |before| + |values| - 1
    requires FieldIs(fmt, data, base, next[|before|], values[0])
    requires FieldsAre(fmt, data, base, all, |next|, values[1..][..|values| - 2])
    ensures FieldsAre(fmt, data, base, all, |before|, values[..|values| - 1])
  {
    hide FieldIs;
    var front := values[..|values| - 1];
    assert front[1..] == values[1..][..|values| - 2];
    assert all[|before|..][0] == next[|before|];
    forall i | 0 <= i < |front|
      ensures FieldIs(fmt, data, base, all[|before|..][i], front[i])
    {
      if i > 0 {
        assert all[|before|..][i] == all[|next|..][i - 1];
        assert front[i] == front[1..][i - 1];
      }
    }
  }

  // ----- All rows -----

  predicate IsNewline(c: char) {
    c == '\r' || c == '\n'
  }

  /** The text of a record that is no empty line does not begin with a
      newline, which the newline before it would swallow. */
  lemma RowBeginsPlainly(fmt: Format, record: seq<string>)
    requires fmt.Valid() && !Blank(record)
    ensures Joined(fmt, record) != "" && !IsNewline(Joined(fmt, record)[0])
  {
    var f := record[0];
    if NeedsQuotes(fmt, f) {
      assert Escaped(fmt, f)[0] == fmt.quote;
    } else if f != "" {
      assert !IsSpecial(fmt, f[0]);
    }
  }

  /** One row, from its first character to the first of the next row. A line
      feed swallows a newline that follows it. */
  lemma ReadRow(fmt: Format, data: string, st: State, record: seq<string>, newline: string) returns (r: State)
    requires fmt.Valid() && AtRow(st) && record != [] && newline in {"\n", "\r\n"}
    requires Next(data, st.dataPos, RowText(fmt, record, newline))
    ensures AtRow(r) && r.row.dataStart == r.dataPos
    ensures var end := st.dataPos + |RowText(fmt, record, newline)|;
      r.dataPos == if newline == "\n" && end < |data| && ParseFlag(fmt, data[end]) == Newline then end + 1 else end
    ensures st.fields <= r.fields && |r.records| == |st.records| + 1 && st.records <= r.records
    ensures RowIs(fmt, data, r.fields, r.records[|st.records|], record)
    ensures Run(fmt, data, st) == Run(fmt, data, r)
  {
    hide Run, FieldIs, Escaped, Joined, FieldsAre, RowIs;
    var p, text := st.dataPos, Joined(fmt, record);
    NextSplit(data, p, text, newline);
    var end := p + |text|;
    forall i | 0 <= i < |newline|
      ensures data[end + i] == newline[i]
    {
      assert data[end + i] == data[end..end + |newline|][i];
    }
    assert data[end] == newline[0];
    var m := ReadFields(fmt, data, st, record);
    RunNewline(fmt, data, m);
    var next := if end + 1 < |data| && ParseFlag(fmt, data[end + 1]) == Newline then end + 2 else end + 1;
    assert newline == "\r\n" ==> data[end + 1] == newline[1];
    r := m.(dataPos := next).PushField().PushRow().NextRow();
    LastPushed(fmt, data, st, m, r, record);
  }

  /** The row that is pushed has the fields pushed before and the pending one. */
  lemma LastPushed(fmt: Format, data: string, st: State, m: State, r: State, record: seq<string>)
    requires record != [] && AtRow(st) && PendingIs(fmt, data, m, record[|record| - 1])
    requires m.row == st.row.(rowLength := |record| - 1) && |m.fields| == |st.fields| + |record| - 1
      && m.records == st.records
    requires FieldsAre(fmt, data, st.row.dataStart, m.fields, |st.fields|, record[..|record| - 1])
    requires r.fields == m.PushField().fields && r.records == m.PushField().PushRow().records
    ensures |r.records| == |st.records| + 1 && RowIs(fmt, data, r.fields, r.records[|st.records|], record)
  {
    hide FieldIs;
    var row := r.records[|st.records|];
    forall i | 0 <= i < |record|
      ensures FieldIs(fmt, data, row.dataStart, r.fields[row.fieldsStart..][i], record[i])
    {
      if i < |record| - 1 {
        assert r.fields[row.fieldsStart..][i] == m.fields[|st.fields|..][i];
        assert record[i] == record[..|record| - 1][i];
      }
    }
  }

  /** Rows read earlier keep their values as fields are added. */
  lemma RowsStay(fmt: Format, data: string, fields: seq<RawField>, more: seq<RawField>, rows: seq<Row>,
                 records: seq<seq<string>>)
    requires fields <= more && RowsAre(fmt, data, fields, rows, records)
    ensures RowsAre(fmt, data, more, rows, records)
  {
    hide FieldIs;
    forall k | 0 <= k < |rows|
      ensures RowIs(fmt, data, more, rows[k], records[k])
    {
      assert RowIs(fmt, data, fields, rows[k], records[k]);
      var from := rows[k].fieldsStart;
      forall i | 0 <= i < |records[k]|
        ensures FieldIs(fmt, data, rows[k].dataStart, more[from..][i], records[k][i])
      {
        assert more[from..][i] == fields[from..][i];
      }
    }
  }

  /** A state from which the rows `records` lie ahead and nothing else. */
  ghost predicate Ahead(fmt: Format, data: string, st: State, records: seq<seq<string>>, newline: string) {
    AtRow(st) && st.dataPos <= |data| && data[st.dataPos..] == Text(fmt, records, newline)
  }

  /** A record written as an empty line. */
  predicate Blank(record: seq<string>) {
    record == [] || record == [""]
  }

  /** A record without fields reads back as one empty field. */
  function Normal(record: seq<string>): seq<string> {
    if record == [] then [""] else record
  }

  /** What is left after the first row: its line feed swallows an empty line
      after it. */
  function AfterFirst(records: seq<seq<string>>, newline: string): seq<seq<string>>
    requires records != []
  {
    if newline == "\n" && |records| > 1 && Blank(records[1]) then records[2..] else records[1..]
  }

  /** What any list of records reads back as. */
  function ReadBack(records: seq<seq<string>>, newline: string): seq<seq<string>> {
    if records == [] then [] else [Normal(records[0])] + ReadBack(AfterFirst(records, newline), newline)
  }

  /** The first row lies ahead, then the rest of the text. */
  lemma FirstRowAhead(fmt: Format, data: string, p: nat, records: seq<seq<string>>, newline: string)
    requires fmt.Valid() && records != []
    requires p <= |data| && data[p..] == Text(fmt, records, newline)
    ensures var end := p + |RowText(fmt, records[0], newline)|;
      && Next(data, p, RowText(fmt, Normal(records[0]), newline)) && end <= |data|
      && RowText(fmt, Normal(records[0]), newline) == RowText(fmt, records[0], newline)
      && data[end..] == Text(fmt, records[1..], newline)
  {
    hide RowText;
    var text, rest := RowText(fmt, records[0], newline), Text(fmt, records[1..], newline);
    var end := p + |text|;
    NormalText(fmt, records[0], newline);
    assert data[p..] == text + rest;
    assert data[p..end] == data[p..][..|text|];
    assert data[end..] == data[p..][|text|..];
  }

  lemma NormalText(fmt: Format, record: seq<string>, newline: string)
    ensures RowText(fmt, Normal(record), newline) == RowText(fmt, record, newline)
  {
  }

  /** After a line feed, the next text begins with a newline exactly if the
      next record is an empty line, and then the line feed of that one. */
  lemma NextLineBegins(fmt: Format, data: string, end: nat, rest: seq<seq<string>>)
    requires fmt.Valid() && end <= |data| && data[end..] == Text(fmt, rest, "\n")
    ensures (end < |data| && ParseFlag(fmt, data[end]) == Newline) <==> (rest != [] && Blank(rest[0]))
    ensures rest != [] && Blank(rest[0]) ==> data[end + 1..] == Text(fmt, rest[1..], "\n")
  {
    if rest != [] {
      assert data[end..] == Joined(fmt, rest[0]) + "\n" + Text(fmt, rest[1..], "\n");
      assert data[end] == data[end..][0];
      if Blank(rest[0]) {
        assert Joined(fmt, rest[0]) == "";
        assert data[end + 1..] == data[end..][1..];
      } else {
        RowBeginsPlainly(fmt, rest[0]);
        assert data[end] == Joined(fmt, rest[0])[0];
      }
    }
  }

  lemma OneMoreRow(fmt: Format, data: string, st: State, done: seq<seq<string>>, records: seq<seq<string>>,
                   newline: string)
    returns (r: State)
    requires fmt.Valid() && newline in {"\n", "\r\n"} && records != []
    requires Ahead(fmt, data, st, records, newline) && RowsAre(fmt, data, st.fields, st.records, done)
    ensures Ahead(fmt, data, r, AfterFirst(records, newline), newline)
      && RowsAre(fmt, data, r.fields, r.records, done + [Normal(records[0])])
    ensures r.row.dataStart == r.dataPos
    ensures AfterFirst(records, newline) == records[1..]
      ==> r.dataPos == st.dataPos + |RowText(fmt, records[0], newline)|
    ensures Run(fmt, data, st) == Run(fmt, data, r)
  {
    hide RowIs, RowText, Text, Run, AtField, Next;
    FirstRowAhead(fmt, data, st.dataPos, records, newline);
    r := ReadRow(fmt, data, st, Normal(records[0]), newline);
    if newline == "\n" {
      NextLineBegins(fmt, data, st.dataPos + |RowText(fmt, records[0], newline)|, records[1..]);
    }
    RowsStay(fmt, data, st.fields, r.fields, st.records, done);
  }

  /** Reading to the end of the text appends what the records read back as. */
  lemma {:induction false} ReadRows(fmt: Format, data: string, st: State, done: seq<seq<string>>,
                                    records: seq<seq<string>>, newline: string)
    returns (r: State)
    requires fmt.Valid() && newline in {"\n", "\r\n"}
    requires Ahead(fmt, data, st, records, newline) && RowsAre(fmt, data, st.fields, st.records, done)
    ensures AtRow(r) && r.dataPos == |data|
      && RowsAre(fmt, data, r.fields, r.records, done + ReadBack(records, newline))
    ensures Run(fmt, data, st) == r
    decreases |records|
  {
    if records == [] {
      r := st;
      assert done + ReadBack(records, newline) == done;
    } else {
      hide Text, RowsAre, Run, AtRow, AfterFirst, Normal;
      var m := OneMoreRow(fmt, data, st, done, records, newline);
      var rest := AfterFirst(records, newline);
      FewerRecords(records, newline);
      r := ReadRows(fmt, data, m, done + [Normal(records[0])], rest, newline);
      AppendFirst(done, Normal(records[0]), ReadBack(rest, newline));
    }
  }

  lemma AppendFirst<T>(a: seq<T>, x: T, b: seq<T>)
    ensures a + [x] + b == a + ([x] + b)
  {
  }

  lemma FewerRecords(records: seq<seq<string>>, newline: string)
    requires records != []
    ensures |AfterFirst(records, newline)| < |records|
  {
  }

  /** The records that read back as themselves: none without fields, and, with
      LF line ends, no empty line but the first. */
  predicate Faithful(records: seq<seq<string>>, newline: string) {
    && (forall k | 0 <= k < |records| :: records[k] != [])
    && (newline == "\n" ==> forall k | 1 <= k < |records| :: !Blank(records[k]))
  }

  lemma {:induction false} ReadBackIsShorter(records: seq<seq<string>>, newline: string)
    ensures |ReadBack(records, newline)| <= |records|
    decreases |records|
  {
    if records != [] {
      ReadBackIsShorter(AfterFirst(records, newline), newline);
    }
  }

  /** Reading back is the identity exactly on the faithful lists. */
  lemma {:induction false} ReadBackIdentity(records: seq<seq<string>>, newline: string)
    ensures ReadBack(records, newline) == records <==> Faithful(records, newline)
    decreases |records|
  {
    if records != [] {
      hide Faithful, AfterFirst, Normal;
      FewerRecords(records, newline);
      var rest := AfterFirst(records, newline);
      if rest == records[1..] {
        ReadBackIdentity(rest, newline);
        FaithfulRest(records, newline);
        SameFirst(records[0], Normal(records[0]), rest, ReadBack(rest, newline));
        assert records == [records[0]] + rest;
      } else {
        ReadBackIsShorter(rest, newline);
        Swallowed(records, newline);
      }
    }
  }

  lemma SameFirst<T>(x: T, y: T, a: seq<T>, b: seq<T>)
    ensures [y] + b == [x] + a <==> y == x && b == a
  {
    assert ([y] + b)[0] == y && ([y] + b)[1..] == b && ([x] + a)[0] == x && ([x] + a)[1..] == a;
  }

  lemma Swallowed(records: seq<seq<string>>, newline: string)
    requires records != [] && AfterFirst(records, newline) != records[1..]
    ensures |AfterFirst(records, newline)| == |records| - 2 && !Faithful(records, newline)
  {
  }

  lemma FaithfulRest(records: seq<seq<string>>, newline: string)
    requires records != [] && AfterFirst(records, newline) == records[1..]
    ensures Faithful(records, newline) <==> Normal(records[0]) == records[0] && Faithful(records[1..], newline)
  {
    assert |AfterFirst(records, newline)| == |records| - 1;
    if records[0] != [] && Faithful(records[1..], newline) {
      forall k | 0 <= k < |records|
        ensures records[k] != [] && (newline == "\n" && k >= 1 ==> !Blank(records[k]))
      {
        if k >= 1 {
          assert records[k] == records[1..][k - 1];
        }
      }
    }
  }

  // ----- The whole text -----

  const BOM := ['\U{EF}', '\U{BB}', '\U{BF}']

  /** The state a block begins in. A byte order mark is skipped once. */
  function Begin(data: string, bomScan: bool, doubleQuote: bool): (st: State)
    ensures st.Placed()
  {
    State(if !bomScan && BOM <= data then 3 else 0, false, UNINITIALIZED_FIELD, 0, doubleQuote, [], Row(0, 0, 0), [])
  }

  /** The data as one block. */
  function ParseWhole(fmt: Format, data: string): State {
    EndFeed(fmt, data, Run(fmt, data, Begin(data, false, false)))
  }

  lemma BeginSound(data: string, bomScan: bool, doubleQuote: bool)
    ensures Sound(data, Begin(data, bomScan, doubleQuote))
  {
  }

  /** Any data whatever: the rows of a whole parse are slices of it, those of
      a row in order and disjoint. */
  lemma ParseWholeSound(fmt: Format, data: string)
    ensures var r := ParseWhole(fmt, data);
      forall k | 0 <= k < |r.records| :: RowSound(data, r.fields, r.records[k])
  {
    hide Sound, RowSound, EndFeed, Begin;
    BeginSound(data, false, false);
    RunSound(fmt, data, Begin(data, false, false));
    EndFeedSound(fmt, data, Run(fmt, data, Begin(data, false, false)));
  }

  lemma {:induction false} TextEnds(fmt: Format, records: seq<seq<string>>, newline: string)
    requires newline in {"\n", "\r\n"} && records != []
    ensures var t := Text(fmt, records, newline); t != "" && t[|t| - 1] == '\n'
  {
    if |records| > 1 {
      TextEnds(fmt, records[1..], newline);
    }
  }

  /** At a row boundary nothing is left over. */
  lemma NothingLeft(fmt: Format, data: string, st: State)
    requires fmt.Valid() && AtRow(st) && (data == "" || data[|data| - 1] == '\n')
    ensures EndFeed(fmt, data, st) == st
  {
  }

  /** What reading written text gives, for every list of records, with LF or
      CRLF line ends and with or without a byte order mark. */
  lemma WrittenReadsBack(fmt: Format, records: seq<seq<string>>, newline: string, data: string)
    requires fmt.Valid() && newline in {"\n", "\r\n"}
    requires var text := Text(fmt, records, newline);
      (data == text && !(BOM <= text)) || (data == BOM + text && records != [])
    ensures var r := ParseWhole(fmt, data);
      RowsAre(fmt, data, r.fields, r.records, ReadBack(records, newline))
  {
    hide Text, Run, RowIs;
    var st := Begin(data, false, false);
    assert data[st.dataPos..] == Text(fmt, records, newline);
    var r := ReadRows(fmt, data, st, [], records, newline);
    if records != [] {
      TextEnds(fmt, records, newline);
      assert data[|data| - 1] == data[st.dataPos..][|data| - st.dataPos - 1];
    } else {
      assert data == "" by { NoText(fmt, newline); }
    }
    NothingLeft(fmt, data, r);
    assert [] + ReadBack(records, newline) == ReadBack(records, newline);
  }

  lemma {:induction false} RowsAreUnique(fmt: Format, data: string, fields: seq<RawField>, rows: seq<Row>,
                                         a: seq<seq<string>>, b: seq<seq<string>>)
    requires RowsAre(fmt, data, fields, rows, a) && RowsAre(fmt, data, fields, rows, b)
    ensures a == b
  {
    hide FieldValue;
    forall k | 0 <= k < |rows|
      ensures a[k] == b[k]
    {
      assert RowIs(fmt, data, fields, rows[k], a[k]) && RowIs(fmt, data, fields, rows[k], b[k]);
      forall i | 0 <= i < |a[k]|
        ensures a[k][i] == b[k][i]
      {
        var field := fields[rows[k].fieldsStart..][i];
        assert FieldIs(fmt, data, rows[k].dataStart, field, a[k][i])
          && FieldIs(fmt, data, rows[k].dataStart, field, b[k][i]);
      }
    }
  }

  /** The records without the three characters in front. */
  function Unmarked(records: seq<seq<string>>): seq<seq<string>>
    requires records != [] && records[0] != [] && |records[0][0]| >= 3
  {
    [[records[0][0][3..]] + records[0][1..]] + records[1..]
  }

  lemma PlainFirst(fmt: Format, record: seq<string>, newline: string)
    requires record != []
    ensures var f, t := record[0], RowText(fmt, record, newline);
      !NeedsQuotes(fmt, f) ==>
        f <= t && t[|f|..] == (if |record| == 1 then newline else [fmt.delim] + Joined(fmt, record[1..]) + newline)
  {
    hide NeedsQuotes;
    var f := record[0];
    if |record| > 1 && !NeedsQuotes(fmt, f) {
      assert RowText(fmt, record, newline) == f + ([fmt.delim] + Joined(fmt, record[1..]) + newline);
    }
  }

  /** What stands at the beginning of a row, or after a plain first field. */
  lemma FirstChars(fmt: Format, record: seq<string>, newline: string)
    requires newline in {"\n", "\r\n"}
    ensures var t := RowText(fmt, record, newline);
      && t != ""
      && (record == [] ==> t[0] == newline[0])
      && (record != [] && NeedsQuotes(fmt, record[0]) ==> t[0] == fmt.quote)
      && (record != [] && !NeedsQuotes(fmt, record[0]) ==>
            && record[0] <= t && |t| > |record[0]|
            && t[|record[0]|] in {newline[0], fmt.delim})
  {
    hide NeedsQuotes;
    var t := RowText(fmt, record, newline);
    if record != [] && !NeedsQuotes(fmt, record[0]) {
      PlainFirst(fmt, record, newline);
      var n := |record[0]|;
      assert t[n] == t[n..][0];
    }
  }

  lemma NotInMark(fmt: Format, newline: string)
    requires newline in {"\n", "\r\n"} && fmt.delim !in BOM && fmt.quote !in BOM
    ensures forall i | 0 <= i < 3 :: BOM[i] != newline[0] && BOM[i] != fmt.delim && BOM[i] != fmt.quote
  {
  }

  /** A row whose text begins with a byte order mark has it in its first
      field. */
  lemma MarkInField(fmt: Format, record: seq<string>, newline: string)
    requires newline in {"\n", "\r\n"} && fmt.delim !in BOM && fmt.quote !in BOM
    requires forall i | 0 <= i < 3 && i < |RowText(fmt, record, newline)| :: RowText(fmt, record, newline)[i] == BOM[i]
    ensures record != [] && |record[0]| >= 3 && BOM <= record[0] && !NeedsQuotes(fmt, record[0])
  {
    hide NeedsQuotes, Joined, RowText;
    var t := RowText(fmt, record, newline);
    FirstChars(fmt, record, newline);
    NotInMark(fmt, newline);
    assert record != [] && !NeedsQuotes(fmt, record[0]);
    assert |record[0]| >= 3;
    assert forall i | 0 <= i < 3 :: record[0][i] == t[i];
  }

  /** Text that begins with a byte order mark is the mark and the text of the
      records without it. */
  lemma MarkInFront(fmt: Format, records: seq<seq<string>>, newline: string)
    requires newline in {"\n", "\r\n"} && fmt.delim !in BOM && fmt.quote !in BOM && BOM <= Text(fmt, records, newline)
    ensures records != [] && records[0] != [] && |records[0][0]| >= 3
    ensures Text(fmt, records, newline) == BOM + Text(fmt, Unmarked(records), newline)
  {
    hide NeedsQuotes, RowText, Joined;
    if records != [] {
      var t, row := Text(fmt, records, newline), RowText(fmt, records[0], newline);
      assert forall i | 0 <= i < 3 && i < |row| :: row[i] == t[i];
      assert forall i | 0 <= i < 3 :: t[i] == BOM[i];
      MarkInField(fmt, records[0], newline);
      RowWithoutMark(fmt, records[0], newline);
      assert Unmarked(records)[1..] == records[1..];
    }
  }

  lemma RowWithoutMark(fmt: Format, record: seq<string>, newline: string)
    requires record != [] && |record[0]| >= 3 && BOM <= record[0] && !NeedsQuotes(fmt, record[0])
    ensures RowText(fmt, record, newline) == BOM + RowText(fmt, [record[0][3..]] + record[1..], newline)
  {
    hide NeedsQuotes, RowText, Joined;
    var f, g := record[0], record[0][3..];
    var short := [g] + record[1..];
    PlainEnd(fmt, f, 3);
    PlainFirst(fmt, record, newline);
    PlainFirst(fmt, short, newline);
    assert short[1..] == record[1..];
    WithMark(RowText(fmt, record, newline), RowText(fmt, short, newline), f, g);
  }

  lemma WithMark(a: string, b: string, f: string, g: string)
    requires f <= a && g <= b && a[|f|..] == b[|g|..] && BOM <= f && g == f[3..]
    ensures a == BOM + b
  {
    var tail := a[|f|..];
    assert a == f + tail && b == g + tail && f == BOM + g;
  }

  lemma PlainEnd(fmt: Format, f: string, k: nat)
    requires !NeedsQuotes(fmt, f) && k <= |f|
    ensures !NeedsQuotes(fmt, f[k..])
  {
    forall i | 0 <= i < |f[k..]|
      ensures !IsSpecial(fmt, f[k..][i])
    {
      assert f[k..][i] == f[i + k];
    }
  }

  /** Text with a byte order mark of its own reads back without it. */
  lemma MarkIsLost(fmt: Format, records: seq<seq<string>>, newline: string)
    requires fmt.Valid() && newline in {"\n", "\r\n"} && fmt.delim !in BOM && fmt.quote !in BOM
    requires BOM <= Text(fmt, records, newline)
    ensures var text := Text(fmt, records, newline);
      var r := ParseWhole(fmt, text);
      !RowsAre(fmt, text, r.fields, r.records, records)
  {
    hide Text, Run, RowsAre, ParseWhole;
    var text := Text(fmt, records, newline);
    var r := ParseWhole(fmt, text);
    MarkInFront(fmt, records, newline);
    var short := Unmarked(records);
    WrittenReadsBack(fmt, short, newline, text);
    assert ReadBack(short, newline)[0] == short[0] && short[0][0] != records[0][0];
    if RowsAre(fmt, text, r.fields, r.records, records) {
      RowsAreUnique(fmt, text, r.fields, r.records, records, ReadBack(short, newline));
    }
  }

  /** The round trip holds exactly for the faithful lists, and not if the text
      itself begins with a byte order mark. */
  lemma RoundTrip(fmt: Format, records: seq<seq<string>>, newline: string, data: string)
    requires fmt.Valid() && newline in {"\n", "\r\n"}
    requires var text := Text(fmt, records, newline);
      || (data == text && (BOM <= text ==> fmt.delim !in BOM && fmt.quote !in BOM))
      || (data == BOM + text && records != [])
    ensures var text := Text(fmt, records, newline);
      var r := ParseWhole(fmt, data);
      RowsAre(fmt, data, r.fields, r.records, records)
      <==> Faithful(records, newline) && !(data == text && BOM <= text)
  {
    hide Text, Run, RowsAre, ParseWhole, Faithful, ReadBack;
    var r, text := ParseWhole(fmt, data), Text(fmt, records, newline);
    if data == text && BOM <= text {
      MarkIsLost(fmt, records, newline);
    } else {
      WrittenReadsBack(fmt, records, newline, data);
      ReadBackIdentity(records, newline);
      if RowsAre(fmt, data, r.fields, r.records, records) {
        RowsAreUnique(fmt, data, r.fields, r.records, records, ReadBack(records, newline));
      }
    }
  }

  lemma NoText(fmt: Format, newline: string)
    ensures Text(fmt, [], newline) == ""
  {
  }
}
