/** Rows the data breaks off in, and what the end of the input makes of them. */
module CsvParts {
  import opened CsvFormat
  import opened CsvState
  import opened CsvRoundTrip

  lemma RunEnds(fmt: Format, data: string, st: State)
    requires st.Placed() && Stops(fmt, data, st)
    ensures Run(fmt, data, st) == st
  {
  }

  /** The field that would be pushed now. */
  function Pending(st: State): RawField
    requires st.Placed()
  {
    RawField(if st.fieldStart == UNINITIALIZED_FIELD then 0 else st.fieldStart, st.fieldLength, st.fieldHasDoubleQuote)
  }

  // ----- A field -----

  /** The state after the characters `g`, doubled, inside quotes. */
  function Quoted(fmt: Format, st: State, g: string): State {
    var n := |Doubled(fmt, g)|;
    st.(dataPos := st.dataPos + n, fieldLength := st.fieldLength + n,
        fieldHasDoubleQuote := st.fieldHasDoubleQuote || fmt.quote in g)
  }

  /** From inside quotes to the end of the data: the characters that are there
      completely are taken. */
  lemma {:induction false} QuotedPart(fmt: Format, data: string, st: State, g: string) returns (k: nat)
    requires fmt.Valid() && st.Placed() && st.quoteEscape && st.fieldStart >= 0
    requires st.fieldLength == st.dataPos - (st.row.dataStart + st.fieldStart)
    requires st.dataPos <= |data| && data[st.dataPos..] <= Doubled(fmt, g) + [fmt.quote]
    ensures k <= |g| && (k == |g| <==> |data| - st.dataPos >= |Doubled(fmt, g)|)
    ensures Doubled(fmt, g[..k]) <= data[st.dataPos..]
    ensures Run(fmt, data, st) == Quoted(fmt, st, g[..k])
    decreases |g|
  {
    hide Run, Doubled, Quoted, Stops;
    if Stops(fmt, data, st) {
      k := 0;
      RunEnds(fmt, data, st);
      BreaksOff(fmt, data, st, g);
    } else {
      OneTaken(fmt, data, st, g);
      var rest := g[1..];
      var next := Quoted(fmt, st, [g[0]]);
      var m := QuotedPart(fmt, data, next, rest);
      k := m + 1;
      assert g[..k] == [g[0]] + rest[..m];
      TwoParts(fmt, data, st, [g[0]], rest[..m]);
    }
  }

  /** A prefix of two parts that covers the first. */
  lemma Beyond(s: string, a: string, b: string)
    requires s <= a + b && |a| <= |s|
    ensures a <= s && s[|a|..] <= b
  {
    assert s == (a + b)[..|s|];
  }

  /** The data that is left has more than one character, or none that is the
      first of a doubled quote. */
  lemma NotLone(fmt: Format, s: string, g: string)
    requires s <= Doubled(fmt, g) + [fmt.quote] && s != "" && s != [fmt.quote]
    ensures g != "" && s[0] == g[0] && (g[0] == fmt.quote ==> |s| >= 2)
  {
    var text := Doubled(fmt, g) + [fmt.quote];
    assert s[0] == text[0];
    assert |s| == 1 ==> s == [s[0]];
  }

  /** The first character, doubled, of the data that is left. */
  lemma DoubledPrefix(fmt: Format, s: string, g: string)
    requires s <= Doubled(fmt, g) + [fmt.quote] && s != "" && s != [fmt.quote]
    ensures g != "" && s[0] == g[0] && Doubled(fmt, [g[0]]) <= s
    ensures var n := |Doubled(fmt, [g[0]])|;
      && n == (if g[0] == fmt.quote then 2 else 1) && (n == 2 ==> s[1] == fmt.quote)
      && s[n..] <= Doubled(fmt, g[1..]) + [fmt.quote] && |Doubled(fmt, g)| == n + |Doubled(fmt, g[1..])|
  {
    NotLone(fmt, s, g);
    hide Doubled;
    OneDoubled(fmt, g);
    var a, b := Doubled(fmt, [g[0]]), Doubled(fmt, g[1..]) + [fmt.quote];
    assert Doubled(fmt, g) + [fmt.quote] == a + b;
    Beyond(s, a, b);
  }

  lemma OneTaken(fmt: Format, data: string, st: State, g: string)
    requires fmt.Valid() && st.Placed() && st.quoteEscape && st.fieldStart >= 0 && !Stops(fmt, data, st)
    requires st.fieldLength == st.dataPos - (st.row.dataStart + st.fieldStart)
    requires st.dataPos <= |data| && data[st.dataPos..] <= Doubled(fmt, g) + [fmt.quote]
    ensures g != ""
    ensures var next := Quoted(fmt, st, [g[0]]);
      && next.Placed() && next.quoteEscape && next.fieldStart >= 0
      && next.fieldLength == next.dataPos - (next.row.dataStart + next.fieldStart)
      && next.dataPos <= |data| && data[next.dataPos..] <= Doubled(fmt, g[1..]) + [fmt.quote]
      && next.dataPos + |Doubled(fmt, g[1..])| == st.dataPos + |Doubled(fmt, g)|
      && Doubled(fmt, [g[0]]) <= data[st.dataPos..]
      && Run(fmt, data, st) == Run(fmt, data, next)
  {
    hide Run, Doubled;
    var p := st.dataPos;
    var s := data[p..];
    assert data[p] == s[0];
    DoubledPrefix(fmt, s, g);
    var n := |Doubled(fmt, [g[0]])|;
    assert data[p + n..] == s[n..];
    if n == 2 {
      assert data[p + 1] == s[1];
      RunPair(fmt, data, st);
    } else {
      RunPlain(fmt, data, st);
    }
  }

  lemma BreaksOff(fmt: Format, data: string, st: State, g: string)
    requires fmt.Valid() && st.Placed() && st.quoteEscape && Stops(fmt, data, st)
    requires st.dataPos <= |data| && data[st.dataPos..] <= Doubled(fmt, g) + [fmt.quote]
    ensures g == "" <==> |data| - st.dataPos >= |Doubled(fmt, g)|
    ensures g[..0] == "" && Doubled(fmt, "") == "" && Quoted(fmt, st, "") == st
  {
    if g != "" && st.dataPos < |data| {
      OneDoubled(fmt, g);
      assert data[st.dataPos] == data[st.dataPos..][0] == (Doubled(fmt, g) + [fmt.quote])[0];
    }
  }

  lemma OneDoubled(fmt: Format, g: string)
    requires g != ""
    ensures var head := if g[0] == fmt.quote then [g[0], g[0]] else [g[0]];
      Doubled(fmt, [g[0]]) == head && Doubled(fmt, g) == head + Doubled(fmt, g[1..])
  {
    assert [g[0]][1..] == "";
  }

  lemma TwoParts(fmt: Format, data: string, st: State, a: string, b: string)
    requires var next := Quoted(fmt, st, a);
      && next.dataPos <= |data| && Doubled(fmt, a) <= data[st.dataPos..] && Doubled(fmt, b) <= data[next.dataPos..]
    ensures Quoted(fmt, Quoted(fmt, st, a), b) == Quoted(fmt, st, a + b)
    ensures Doubled(fmt, a + b) <= data[st.dataPos..]
  {
    hide Doubled;
    DoubledAppend(fmt, a, b);
    var n := |Doubled(fmt, a)|;
    assert data[st.dataPos..] == data[st.dataPos..][..n] + data[st.dataPos + n..];
  }

  /** What is pending after part of a field: its first `k` characters. */
  ghost predicate PartIs(fmt: Format, data: string, st: State, f: string, k: nat) {
    && k <= |f| && st.Placed()
    && FieldIs(fmt, data, st.row.dataStart, Pending(st), f[..k])
    && (st.fieldLength > 0 <==> k > 0)
  }

  /** How many characters of a field have to be there. */
  function FieldReach(fmt: Format, f: string): nat {
    if NeedsQuotes(fmt, f) then 1 + |Doubled(fmt, f)| else |f|
  }

  lemma PartUnquoted(fmt: Format, data: string, st: State, f: string)
    requires AtField(st) && st.dataPos <= |data| && !NeedsQuotes(fmt, f) && data[st.dataPos..] <= f
    ensures SameRows(st, Run(fmt, data, st)) && PartIs(fmt, data, Run(fmt, data, st), f, |data| - st.dataPos)
  {
    hide Run, ParseFlag, NeedsQuotes, FieldValue;
    var g := f[..|data| - st.dataPos];
    PlainPrefix(fmt, f, |data| - st.dataPos);
    assert data[st.dataPos..st.dataPos + |g|] == data[st.dataPos..] == g;
    var r := ReadUnquoted(fmt, data, st, g);
    RunEnds(fmt, data, r);
  }

  lemma PlainPrefix(fmt: Format, f: string, k: nat)
    requires !NeedsQuotes(fmt, f) && k <= |f|
    ensures !NeedsQuotes(fmt, f[..k])
  {
    forall i | 0 <= i < k ensures !IsSpecial(fmt, f[..k][i]) {
      assert f[..k][i] == f[i];
    }
  }

  lemma PartOpened(fmt: Format, data: string, st: State, f: string) returns (k: nat)
    requires fmt.Valid() && AtField(st) && st.dataPos + 1 < |data| && data[st.dataPos] == fmt.quote
    requires data[st.dataPos + 1..] <= Doubled(fmt, f) + [fmt.quote]
    ensures SameRows(st, Run(fmt, data, st)) && PartIs(fmt, data, Run(fmt, data, st), f, k)
    ensures k == |f| <==> |data| - st.dataPos >= 1 + |Doubled(fmt, f)|
  {
    hide Run, Doubled, Decode;
    RunOpen(fmt, data, st);
    var open := st.(quoteEscape := true, dataPos := st.dataPos + 1, fieldStart := st.dataPos + 1 - st.row.dataStart);
    k := QuotedPart(fmt, data, open, f);
    var r := Quoted(fmt, open, f[..k]);
    var n := |Doubled(fmt, f[..k])|;
    assert data[open.dataPos..open.dataPos + n] == data[open.dataPos..][..n] == Doubled(fmt, f[..k]);
    DoubledLength(fmt, f[..k]);
    DecodeDoubled(fmt, f[..k]);
    if !r.fieldHasDoubleQuote {
      PlainStays(fmt, f[..k], false);
    }
  }

  lemma DoubledLength(fmt: Format, s: string)
    ensures |Doubled(fmt, s)| > 0 <==> s != ""
  {
  }

  /** A field the data breaks off in, or right after. */
  lemma PartField(fmt: Format, data: string, st: State, f: string) returns (k: nat)
    requires fmt.Valid() && AtField(st) && st.dataPos <= |data| && data[st.dataPos..] <= Escaped(fmt, f)
    ensures SameRows(st, Run(fmt, data, st)) && PartIs(fmt, data, Run(fmt, data, st), f, k)
    ensures k == |f| <==> |data| - st.dataPos >= FieldReach(fmt, f)
  {
    hide Run, Doubled, NeedsQuotes, ParseFlag, PartIs;
    var p := st.dataPos;
    EscapedIs(fmt, f);
    if !NeedsQuotes(fmt, f) {
      k := |data| - p;
      PartUnquoted(fmt, data, st, f);
    } else {
      QuotedNotEmpty(fmt, f);
      if |data| <= p + 1 {
        k := 0;
        assert p < |data| ==> data[p] == data[p..][0] == fmt.quote;
        NoField(fmt, data, st, f);
      } else {
        assert data[p] == data[p..][0] == fmt.quote;
        assert data[p + 1..] == data[p..][1..] && Escaped(fmt, f)[1..] == Doubled(fmt, f) + [fmt.quote];
        k := PartOpened(fmt, data, st, f);
      }
    }
  }

  lemma QuotedNotEmpty(fmt: Format, f: string)
    requires NeedsQuotes(fmt, f)
    ensures f != "" && |Doubled(fmt, f)| > 0
  {
  }

  lemma NoField(fmt: Format, data: string, st: State, f: string)
    requires AtField(st) && st.dataPos <= |data| <= st.dataPos + 1
    requires st.dataPos < |data| ==> data[st.dataPos] == fmt.quote
    ensures SameRows(st, Run(fmt, data, st)) && PartIs(fmt, data, Run(fmt, data, st), f, 0)
  {
    if st.dataPos == |data| {
      RunEnds(fmt, data, st);
    } else {
      var next := StepState(fmt, data, st);
      assert Run(fmt, data, st) == Run(fmt, data, next);
      RunEnds(fmt, data, next);
    }
  }

  // ----- A row -----

  /** How many characters of a row have to be there. */
  function RowReach(fmt: Format, values: seq<string>): (n: nat)
    requires values != []
    ensures n <= |Joined(fmt, values)|
  {
    if |values| == 1 then FieldReach(fmt, values[0])
    else |Escaped(fmt, values[0])| + 1 + RowReach(fmt, values[1..])
  }

  predicate EndsInDelimiter(fmt: Format, data: string) {
    data != "" && ParseFlag(fmt, data[|data| - 1]) == Delimiter
  }

  /** Of a row the data breaks off in: `j` whole fields are pushed, and the
      first `k` characters of the next are pending. */
  ghost predicate PartRowIs(fmt: Format, data: string, st: State, r: State, values: seq<string>, j: nat, k: nat) {
    && j < |values| && r.records == st.records && r.row == st.row.(rowLength := st.row.rowLength + j)
    && st.fields <= r.fields && |r.fields| == |st.fields| + j
    && FieldsAre(fmt, data, st.row.dataStart, r.fields, |st.fields|, values[..j])
    && PartIs(fmt, data, r, values[j], k)
    && (j > 0 && values[j] == "" ==> EndsInDelimiter(fmt, data))
  }

  lemma {:induction false} PartRow(fmt: Format, data: string, st: State, values: seq<string>) returns (j: nat, k: nat)
    requires fmt.Valid() && AtField(st) && st.dataPos <= |data| && values != []
    requires data[st.dataPos..] <= Joined(fmt, values)
    ensures PartRowIs(fmt, data, st, Run(fmt, data, st), values, j, k)
    ensures j == |values| - 1 && k == |values[j]| <==> |data| - st.dataPos >= RowReach(fmt, values)
    ensures j == 0 && values[0] == "" ==> st.dataPos == |data|
    decreases |values|
  {
    hide Run, Escaped, PartIs, FieldReach, FieldIs, ParseFlag;
    var p, head := st.dataPos, Escaped(fmt, values[0]);
    if |values| == 1 || |data| - p <= |head| {
      assert data[p..] <= head;
      j := 0;
      k := PartField(fmt, data, st, values[0]);
      EmptyField(fmt);
    } else {
      var tail := Joined(fmt, values[1..]);
      assert Joined(fmt, values) == head + [fmt.delim] + tail;
      assert data[p..p + |head|] == data[p..][..|head|] == head;
      assert data[p + |head|] == data[p..][|head|] == fmt.delim;
      assert data[p + |head| + 1..] == data[p..][|head| + 1..];
      DelimiterEnds(fmt);
      var m := ReadField(fmt, data, st, values[0]);
      RunDelimiter(fmt, data, m);
      var next := m.PushField().(dataPos := m.dataPos + 1);
      PushedIs(fmt, data, m, values[0]);
      var i;
      i, k := PartRow(fmt, data, next, values[1..]);
      j := i + 1;
      OneFieldMore(fmt, data, st, next, Run(fmt, data, next), values, i, k);
    }
  }

  lemma EmptyField(fmt: Format)
    ensures Escaped(fmt, "") == ""
  {
  }

  lemma PushedIs(fmt: Format, data: string, m: State, f: string)
    requires PendingIs(fmt, data, m, f)
    ensures m.PushField().fields == m.fields + [Pending(m)] && FieldIs(fmt, data, m.row.dataStart, Pending(m), f)
  {
  }

  lemma OneFieldMore(fmt: Format, data: string, st: State, next: State, r: State, values: seq<string>, i: nat, k: nat)
    requires |values| > 1 && PartRowIs(fmt, data, next, r, values[1..], i, k)
    requires next.dataPos > 0 && next.dataPos <= |data| && ParseFlag(fmt, data[next.dataPos - 1]) == Delimiter
    requires |next.fields| == |st.fields| + 1 && st.fields <= next.fields && next.records == st.records
    requires next.row == st.row.(rowLength := st.row.rowLength + 1)
    requires FieldIs(fmt, data, st.row.dataStart, next.fields[|st.fields|], values[0])
    requires i == 0 && values[1] == "" ==> next.dataPos == |data|
    ensures PartRowIs(fmt, data, st, r, values, i + 1, k)
  {
    hide FieldIs, PartIs, ParseFlag;
    var front := values[..i + 1];
    forall x | 0 <= x < |front|
      ensures FieldIs(fmt, data, st.row.dataStart, r.fields[|st.fields|..][x], front[x])
    {
      if x == 0 {
        assert r.fields[|st.fields|..][0] == next.fields[|st.fields|];
      } else {
        assert r.fields[|st.fields|..][x] == r.fields[|next.fields|..][x - 1];
        assert front[x] == values[1..][..i][x - 1];
      }
    }
  }

  // ----- The end of the input -----

  /** The end of the input makes a row of what is there of a record, and it is
      that record if and only if enough of it is there. Of an empty line
      nothing is left. */
  lemma EndOfPart(fmt: Format, data: string, st: State, values: seq<string>)
    requires fmt.Valid() && AtRow(st) && st.dataPos <= |data| && values != []
      && data[st.dataPos..] <= Joined(fmt, values)
    requires st.dataPos == 0 || ParseFlag(fmt, data[st.dataPos - 1]) != Delimiter
    ensures var r := EndFeed(fmt, data, Run(fmt, data, st));
      && st.fields <= r.fields && st.records <= r.records && |r.records| <= |st.records| + 1
      && (Blank(values) ==> r.records == st.records)
      && (!Blank(values) ==>
            (|data| - st.dataPos >= RowReach(fmt, values)
             <==> |r.records| > |st.records| && RowIs(fmt, data, r.fields, r.records[|st.records|], values)))
  {
    hide Run, Joined, FieldIs, RowReach, ParseFlag;
    var j, k := PartRow(fmt, data, st, values);
    var m := Run(fmt, data, st);
    if Blank(values) {
      BlankEnds(fmt, data, st);
    } else {
      PartEnds(fmt, data, st, m, values, j, k);
    }
  }

  lemma BlankEnds(fmt: Format, data: string, st: State)
    requires AtRow(st) && st.dataPos <= |data| && data[st.dataPos..] <= Joined(fmt, [""])
    requires st.dataPos == 0 || ParseFlag(fmt, data[st.dataPos - 1]) != Delimiter
    ensures EndFeed(fmt, data, Run(fmt, data, st)) == st
  {
    RunEnds(fmt, data, st);
  }

  lemma PartEnds(fmt: Format, data: string, st: State, m: State, values: seq<string>, j: nat, k: nat)
    requires AtRow(st) && !Blank(values) && PartRowIs(fmt, data, st, m, values, j, k)
    ensures var r := EndFeed(fmt, data, m);
      && st.fields <= r.fields && st.records <= r.records && |r.records| <= |st.records| + 1
      && (j == |values| - 1 && k == |values[j]|
          <==> |r.records| > |st.records| && RowIs(fmt, data, r.fields, r.records[|st.records|], values))
  {
    hide FieldValue, ParseFlag;
    var r := EndFeed(fmt, data, m);
    var pushed := m.fieldLength > 0 || EndsInDelimiter(fmt, data);
    if |r.records| > |st.records| {
      var row := r.records[|st.records|];
      assert row.fieldsStart == |st.fields| && row.rowLength == if pushed then j + 1 else j;
      if pushed {
        assert r.fields[|st.fields|..][j] == Pending(m);
      }
      if pushed && j == |values| - 1 {
        assert RowIs(fmt, data, r.fields, row, values) ==> FieldIs(fmt, data, row.dataStart, Pending(m), values[j]);
        if k == |values[j]| {
          assert values[j][..k] == values[j];
          forall i | 0 <= i < |values|
            ensures FieldIs(fmt, data, row.dataStart, r.fields[|st.fields|..][i], values[i])
          {
            if i < j {
              assert r.fields[|st.fields|..][i] == m.fields[|st.fields|..][i];
              assert values[i] == values[..j][i];
            }
          }
        }
      }
    }
  }
}
