/** The reader over a long source and the rows it hands out. */
module CsvReader {
  import opened Wrappers
  import opened CsvFormat
  import opened CsvState
  import opened CsvRoundTrip
  import opened CsvParser
  import opened CsvWindow

  /** `MmapParser`: every window becomes a block of its own. */
  class MmapParser {
    const fmt: Format
    const source: string
    const parser: Parser
    var mmapPos: nat
    var eof: bool
    ghost var out: seq<CSVRow>

    /** The reader as its specification sees it. */
    ghost function Now(): Reader
      reads this, parser
    {
      Reader(mmapPos, eof, parser.unicodeBomScan, parser.fieldHasDoubleQuote, out)
    }

    ghost predicate Valid()
      reads this, parser
    {
      parser.fmt == fmt && mmapPos <= |source|
    }

    constructor (fmt: Format, source: string)
      ensures Valid() && this.fmt == fmt && this.source == source && Now() == START && fresh(parser)
    {
      this.fmt := fmt;
      this.source := source;
      parser := new Parser(fmt);
      mmapPos, eof, out := 0, false, [];
    }

    /** Puts the parser before a new block. */
    method Map(length: nat)
      requires Valid() && mmapPos + length <= |source|
      modifies this`mmapPos, parser
      ensures Valid() && mmapPos == old(mmapPos) + length
      ensures parser.Valid() && parser.data == source[old(mmapPos)..mmapPos]
      ensures parser.fields.contents == [] && parser.records == [] && parser.currentRow == Row(0, 0, 0)
      ensures parser.fieldStart == UNINITIALIZED_FIELD && parser.fieldLength == 0
      ensures parser.unicodeBomScan == old(parser.unicodeBomScan)
        && parser.fieldHasDoubleQuote == old(parser.fieldHasDoubleQuote)
      ensures fresh(parser.fields) && fresh(parser.fields.Pages())
    {
      hide FieldList.Valid;
      parser.fieldStart := UNINITIALIZED_FIELD;
      parser.fieldLength := 0;
      parser.fields := new FieldList(170);
      parser.data := source[mmapPos..mmapPos + length];
      parser.currentRow, parser.records := Row(0, 0, 0), [];
      parser.dataPos := 0;
      mmapPos := mmapPos + length;
    }

    /** Parses the block; the last one is fed to its end. */
    method ParseBlock() returns (remainder: nat)
      requires Valid() && parser.Valid() && |parser.data| < 0x8000_0000
      requires parser.fields.contents == [] && parser.records == [] && parser.currentRow == Row(0, 0, 0)
      requires parser.fieldStart == UNINITIALIZED_FIELD && parser.fieldLength == 0
      modifies this`eof, parser, parser.fields, parser.fields.buffers
      ensures Valid() && parser.data == old(parser.data)
      ensures eof == (old(eof) || mmapPos == |source| || |source| < ITERATION_CHUNK_SIZE)
      ensures parser.unicodeBomScan == (old(parser.unicodeBomScan) || |parser.data| >= 3)
      ensures var run := Run(fmt, parser.data,
        Begin(parser.data, old(parser.unicodeBomScan), old(parser.fieldHasDoubleQuote)));
        var done := if mmapPos == |source| || |source| < ITERATION_CHUNK_SIZE
          then CsvState.EndFeed(fmt, parser.data, run) else run;
        && remainder == run.row.dataStart
        && parser.fields.contents == done.fields && parser.records == done.records
        && parser.fieldHasDoubleQuote == done.fieldHasDoubleQuote
    {
      hide Run, FieldList.Valid, CsvState.EndFeed, Begin;
      remainder := parser.Parse();
      if mmapPos == |source| || |source| < ITERATION_CHUNK_SIZE {
        eof := true;
        parser.EndFeed();
      }
    }

    /** Maps the next window, parses it and steps back to its last row that
        was not complete. A block is shorter than 2^31. */
    method Next(bytes: nat)
      requires Valid() && bytes < 0x8000_0000
      modifies this, parser
      ensures Valid() && Now() == NextBlock(fmt, source, old(Now()), bytes)
    {
      hide Run, FieldList.Valid, CsvState.EndFeed, Deliver, Begin;
      var length := if |source| - mmapPos < bytes then |source| - mmapPos else bytes;
      Map(length);
      assert forall i | 0 <= i < |parser.fields.buffers| :: parser.fields.buffers[i] in parser.fields.Pages();
      var remainder := ParseBlock();
      ghost var run := Run(fmt, parser.data,
        Begin(parser.data, old(parser.unicodeBomScan), old(parser.fieldHasDoubleQuote)));
      ghost var done := if mmapPos == |source| || |source| < ITERATION_CHUNK_SIZE
        then CsvState.EndFeed(fmt, parser.data, run) else run;
      DeliverSame(parser.data, done, parser.State());
      out := out + Deliver(parser.data, parser.State());
      mmapPos := mmapPos - (length - remainder);
      ghost var next := NextBlock(fmt, source, old(Now()), bytes);
      assert mmapPos == next.pos;
      assert eof == next.eof;
      assert parser.unicodeBomScan == next.bomScan;
      assert parser.fieldHasDoubleQuote == next.doubleQuote;
      assert out == next.out;
    }
  }

  lemma DeliverSame(data: string, a: State, b: State)
    requires a.fields == b.fields && a.records == b.records
    ensures Deliver(data, a) == Deliver(data, b)
  {
  }

  /** `RawCSVData` of one finished block, with the values of its fields that
      hold doubled quotes decoded on first use. Field `i` belongs to a row at
      `baseOf(i)`. */
  class CsvData {
    const fmt: Format
    const data: string
    const fields: FieldList
    var doubleQuoteFields: map<nat, string>
    ghost const baseOf: nat -> nat

    ghost predicate Valid()
      reads this, fields, fields.buffers
    {
      && fields.Valid()
      && forall i | i in doubleQuoteFields && doubleQuoteFields[i] != "" ::
           && i < |fields.contents| && fields.contents[i].hasDoubleQuote
           && FieldIs(fmt, data, baseOf(i), fields.contents[i], doubleQuoteFields[i])
    }

    constructor (fmt: Format, data: string, fields: FieldList, ghost baseOf: nat -> nat)
      requires fields.Valid()
      ensures Valid() && this.fmt == fmt && this.data == data && this.fields == fields && this.baseOf == baseOf
    {
      this.fmt, this.data, this.fields, this.baseOf := fmt, data, fields, baseOf;
      doubleQuoteFields := map[];
    }

    /** The loop that drops every second quote. */
    method DecodeField(raw: string) returns (value: string)
      ensures value == Decode(fmt, raw, false)
    {
      hide *;
      value := "";
      var prevQuote := false;
      ghost var rest := Decode(fmt, raw, false);
      assert raw[0..] == raw;
      for i := 0 to |raw|
        invariant rest == Decode(fmt, raw[i..], prevQuote) && value + rest == Decode(fmt, raw, false)
      {
        assert raw[i..][0] == raw[i] && raw[i..][1..] == raw[i + 1..];
        DecodeUnfolds(fmt, raw[i..], prevQuote);
        QuoteFlag(fmt, raw[i]);
        if ParseFlag(fmt, raw[i]) == Quote {
          if prevQuote {
            prevQuote := false;
            rest := Decode(fmt, raw[i + 1..], false);
            continue;
          }
          prevQuote := true;
        }
        rest := Decode(fmt, raw[i + 1..], prevQuote);
        assert value + ([raw[i]] + rest) == (value + [raw[i]]) + rest;
        value := value + [raw[i]];
      }
      NothingDecoded(fmt, prevQuote);
    }

    /** `get_field`: no value if the row has no such field. */
    method GetField(row: Row, index: nat) returns (value: Option<string>)
      requires Valid() && row.fieldsStart + row.rowLength <= |fields.contents|
      requires index < row.rowLength ==> baseOf(row.fieldsStart + index) == row.dataStart
      requires index < row.rowLength ==> Inside(data, row.dataStart, fields.contents[row.fieldsStart + index])
      modifies this`doubleQuoteFields
      ensures Valid()
      ensures value.None? <==> index >= row.rowLength
      ensures value.Some? ==> FieldIs(fmt, data, row.dataStart, fields.contents[row.fieldsStart + index], value.value)
    {
      hide FieldList.Valid;
      if index >= row.rowLength {
        return None;
      }
      var fieldIndex := row.fieldsStart + index;
      var field := fields.Get(fieldIndex);
      var from := row.dataStart + field.start;
      if field.hasDoubleQuote {
        if fieldIndex !in doubleQuoteFields || doubleQuoteFields[fieldIndex] == "" {
          var decoded := DecodeField(data[from..from + field.length]);
          doubleQuoteFields := doubleQuoteFields[fieldIndex := decoded];
        }
        return Some(doubleQuoteFields[fieldIndex]);
      }
      return Some(data[from..from + field.length]);
    }
  }
}
