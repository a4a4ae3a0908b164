/** Delimiter-separated text: its characters and how a record is written. */
module CsvFormat {

  /** The delimiter and the quote character of a format. */
  datatype Format = Format(delim: char, quote: char) {
    /** Quote, delimiter, CR and LF are different characters. */
    ghost predicate Valid() {
      delim != quote && delim !in {'\r', '\n'} && quote !in {'\r', '\n'}
    }
  }

  /** What a character means outside quotes. */
  datatype Flag = QuoteEscapeQuote | Quote | NotSpecial | Delimiter | Newline

  function ParseFlag(fmt: Format, c: char): Flag {
    if c == fmt.quote then Quote
    else if c == fmt.delim then Delimiter
    else if c == '\r' || c == '\n' then Newline
    else NotSpecial
  }

  /** `quote_escape_flag`: inside quotes only the quote keeps a meaning. */
  function QuoteEscapeFlag(flag: Flag, quoteEscape: bool): Flag {
    if !quoteEscape then flag
    else if flag == Quote || flag == QuoteEscapeQuote then QuoteEscapeQuote
    else NotSpecial
  }

  function Bits(flag: Flag): bv3 {
    match flag
    case QuoteEscapeQuote => 0
    case Quote => 3
    case NotSpecial => 4
    case Delimiter => 6
    case Newline => 7
  }

  /** The flag is computed by masking bits, and delimiters and newlines are
      recognised by comparing them. */
  lemma FlagsAreBits(flag: Flag, quoteEscape: bool)
    ensures Bits(QuoteEscapeFlag(flag, quoteEscape)) == Bits(flag) & !(if quoteEscape then 3 else 0)
    ensures Bits(flag) >= Bits(Delimiter) <==> flag == Delimiter || flag == Newline
  {
  }

  predicate IsSpecial(fmt: Format, c: char) {
    ParseFlag(fmt, c) != NotSpecial
  }

  predicate NeedsQuotes(fmt: Format, field: string) {
    exists i | 0 <= i < |field| :: IsSpecial(fmt, field[i])
  }

  /** Doubles every quote. */
  function Doubled(fmt: Format, s: string): string {
    if s == "" then ""
    else (if s[0] == fmt.quote then [s[0], s[0]] else [s[0]]) + Doubled(fmt, s[1..])
  }

  /** A field as section 2 of RFC 4180 has it: quoted only if it has to be. */
  function Escaped(fmt: Format, field: string): string {
    if NeedsQuotes(fmt, field) then [fmt.quote] + Doubled(fmt, field) + [fmt.quote] else field
  }

  /** A field is quoted exactly if it holds a quote, a delimiter, a CR or an
      LF. */
  lemma QuotedIfSpecial(fmt: Format, field: string)
    requires fmt.Valid()
    ensures var special := exists i | 0 <= i < |field| :: field[i] in {fmt.quote, fmt.delim, '\r', '\n'};
      Escaped(fmt, field) == if special then [fmt.quote] + Doubled(fmt, field) + [fmt.quote] else field
  {
    hide Doubled;
    if i: int :| 0 <= i < |field| && field[i] in {fmt.quote, fmt.delim, '\r', '\n'} {
      assert IsSpecial(fmt, field[i]);
    }
  }

  /** The fields of a record, separated by the delimiter. */
  function Joined(fmt: Format, record: seq<string>): string {
    if record == [] then ""
    else if |record| == 1 then Escaped(fmt, record[0])
    else Escaped(fmt, record[0]) + [fmt.delim] + Joined(fmt, record[1..])
  }

  function RowText(fmt: Format, record: seq<string>, newline: string): string {
    Joined(fmt, record) + newline
  }

  /** All records, each followed by the line terminator. */
  function Text(fmt: Format, records: seq<seq<string>>, newline: string): string {
    if records == [] then "" else RowText(fmt, records[0], newline) + Text(fmt, records[1..], newline)
  }

  lemma {:induction false} DoubledAppend(fmt: Format, s: string, t: string)
    ensures Doubled(fmt, s + t) == Doubled(fmt, s) + Doubled(fmt, t)
  {
    if s == "" {
      assert s + t == t;
    } else {
      assert (s + t)[1..] == s[1..] + t;
      DoubledAppend(fmt, s[1..], t);
    }
  }

  lemma {:induction false} JoinedAppend(fmt: Format, a: seq<string>, f: string)
    requires a != []
    ensures Joined(fmt, a + [f]) == Joined(fmt, a) + [fmt.delim] + Escaped(fmt, f)
  {
    if |a| == 1 {
      assert (a + [f])[1..] == [f];
    } else {
      assert (a + [f])[1..] == a[1..] + [f];
      JoinedAppend(fmt, a[1..], f);
    }
  }

  lemma JoinedStep(fmt: Format, record: seq<string>, i: nat)
    requires i < |record|
    ensures Joined(fmt, record[..i + 1])
         == (if i == 0 then "" else Joined(fmt, record[..i]) + [fmt.delim]) + Escaped(fmt, record[i])
  {
    hide Escaped;
    assert record[..i + 1] == record[..i] + [record[i]];
    if i > 0 {
      JoinedAppend(fmt, record[..i], record[i]);
    }
  }

  lemma {:induction false} TextAppend(fmt: Format, a: seq<seq<string>>, r: seq<string>, newline: string)
    ensures Text(fmt, a + [r], newline) == Text(fmt, a, newline) + RowText(fmt, r, newline)
  {
    if a == [] {
      assert a + [r] == [r] && [r][1..] == [];
    } else {
      assert (a + [r])[1..] == a[1..] + [r];
      TextAppend(fmt, a[1..], r, newline);
    }
  }

  // ----- The writer -----

  /** `DelimWriter` with minimal quoting, over an output stream. */
  class DelimWriter {
    const fmt: Format
    var out: string

    constructor (fmt: Format)
      ensures this.fmt == fmt && out == ""
    {
      this.fmt := fmt;
      out := "";
    }

    method CsvEscape(field: string) returns (ret: string)
      ensures ret == Escaped(fmt, field)
    {
      var quoteEscape := false;
      var k := 0;
      while k < |field|
        invariant 0 <= k <= |field| && !quoteEscape
        invariant forall i | 0 <= i < k :: !IsSpecial(fmt, field[i])
      {
        var c := field[k];
        if c == fmt.quote || c == fmt.delim || c == '\r' || c == '\n' {
          quoteEscape := true;
          break;
        }
        k := k + 1;
      }
      if !quoteEscape {
        return field;
      }
      assert IsSpecial(fmt, field[k]);
      ret := [fmt.quote];
      for i := 0 to |field|
        invariant ret == [fmt.quote] + Doubled(fmt, field[..i])
      {
        DoubledAppend(fmt, field[..i], [field[i]]);
        assert field[..i + 1] == field[..i] + [field[i]];
        if field[i] == fmt.quote {
          ret := ret + [fmt.quote, fmt.quote];
        } else {
          ret := ret + [field[i]];
        }
      }
      assert field[..|field|] == field;
      ret := ret + [fmt.quote];
    }

    /** `operator<<`: one record and a line feed. */
    method WriteRow(record: seq<string>)
      modifies this`out
      ensures out == old(out) + RowText(fmt, record, "\n")
    {
      for i := 0 to |record|
        invariant out == old(out)
          + (if i == |record| || i == 0 then Joined(fmt, record[..i]) else Joined(fmt, record[..i]) + [fmt.delim])
      {
        hide Joined, Escaped;
        var field := CsvEscape(record[i]);
        JoinedStep(fmt, record, i);
        out := out + field;
        if i + 1 != |record| {
          out := out + [fmt.delim];
        }
      }
      assert record[..|record|] == record;
      out := out + "\n";
    }

    method WriteAll(records: seq<seq<string>>)
      modifies this`out
      ensures out == old(out) + Text(fmt, records, "\n")
    {
      for i := 0 to |records|
        invariant out == old(out) + Text(fmt, records[..i], "\n")
      {
        TextAppend(fmt, records[..i], records[i], "\n");
        assert records[..i + 1] == records[..i] + [records[i]];
        WriteRow(records[i]);
      }
      assert records[..|records|] == records;
    }
  }
}
