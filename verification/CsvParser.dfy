/** The parser over one block of data, as it is written: a loop over the
    characters that updates its fields and a paged list of field slices. */
module CsvParser {
  import opened CsvFormat
  import opened CsvState
  import opened CsvRoundTrip

  /** `CSVFieldList`: pages of a fixed size; a full list gets a new page and
      old fields stay where they are. */
  class FieldList {
    const singleBufferCapacity: nat
    var buffers: seq<array<RawField>>
    var currentBufferSize: nat
    ghost var contents: seq<RawField>

    ghost function Pages(): set<object>
      reads this
    {
      set b | b in buffers
    }

    /** How many fields page `b` holds. */
    ghost function Filled(b: nat): nat
      reads this
    {
      if b + 1 == |buffers| then currentBufferSize else singleBufferCapacity
    }

    /** The pages hold the flat sequence `contents`. */
    ghost predicate Valid()
      reads this, buffers
    {
      && singleBufferCapacity > 0 && |buffers| > 0 && currentBufferSize <= singleBufferCapacity
      && (forall b | 0 <= b < |buffers| :: buffers[b].Length == singleBufferCapacity)
      && (forall a, b | 0 <= a < b < |buffers| :: buffers[a] != buffers[b])
      && |contents| == (|buffers| - 1) * singleBufferCapacity + currentBufferSize
      && (forall b, k | 0 <= b < |buffers| && 0 <= k < Filled(b) ::
            Index(b, k) < |contents| && contents[Index(b, k)] == buffers[b][k])
    }

    ghost function Index(b: nat, k: nat): nat {
      b * singleBufferCapacity + k
    }

    constructor (capacity: nat)
      requires capacity > 0
      ensures Valid() && contents == [] && singleBufferCapacity == capacity
      ensures fresh(this) && fresh(Pages())
    {
      singleBufferCapacity := capacity;
      var page := new RawField[capacity](i => RawField(0, 0, false));
      buffers := [page];
      currentBufferSize := 0;
      contents := [];
    }

    method Allocate()
      requires Valid() && currentBufferSize == singleBufferCapacity
      modifies this
      ensures Valid() && contents == old(contents) && currentBufferSize == 0
      ensures |buffers| == |old(buffers)| + 1 && old(buffers) == buffers[..|buffers| - 1]
      ensures fresh(buffers[|buffers| - 1])
    {
      var page := new RawField[singleBufferCapacity](i => RawField(0, 0, false));
      PageEnd(|buffers| - 1);
      buffers := buffers + [page];
      currentBufferSize := 0;
    }

    lemma PageEnd(b: nat)
      ensures b * singleBufferCapacity + singleBufferCapacity == (b + 1) * singleBufferCapacity
    {
    }

    method EmplaceBack(field: RawField)
      requires Valid()
      modifies this, buffers
      ensures Valid() && contents == old(contents) + [field] && old(buffers) <= buffers
      ensures fresh(Pages() - old(Pages()))
    {
      if currentBufferSize == singleBufferCapacity {
        Allocate();
      }
      var last := |buffers| - 1;
      buffers[last][currentBufferSize] := field;
      contents := contents + [field];
      forall b, k | 0 <= b < last && 0 <= k < singleBufferCapacity
        ensures Index(b, k) < |contents| - 1
      {
        BeforeLastPage(b, k, last);
      }
      currentBufferSize := currentBufferSize + 1;
    }

    lemma BeforeLastPage(b: nat, k: nat, last: nat)
      requires b < last && k < singleBufferCapacity
      ensures Index(b, k) < last * singleBufferCapacity
    {
      assert (b + 1) * singleBufferCapacity <= last * singleBufferCapacity;
    }

    method Size() returns (n: nat)
      requires Valid()
      ensures n == |contents|
    {
      n := currentBufferSize + (|buffers| - 1) * singleBufferCapacity;
    }

    /** `operator[]`. */
    method Get(n: nat) returns (field: RawField)
      requires Valid() && n < |contents|
      ensures field == contents[n]
    {
      var pageNo := n / singleBufferCapacity;
      var bufferIdx := if pageNo < 1 then n else n % singleBufferCapacity;
      PageOf(n, singleBufferCapacity, |buffers| - 1, currentBufferSize);
      assert Index(pageNo, bufferIdx) == n;
      field := buffers[pageNo][bufferIdx];
    }
  }

  lemma PageOf(n: nat, c: nat, last: nat, filled: nat)
    requires 0 < c && filled <= c && n < last * c + filled
    ensures n / c * c + n % c == n
    ensures n / c < 1 ==> n % c == n
    ensures n / c < last || (n / c == last && n % c < filled)
  {
    var q := n / c;
    if q > last {
      PagesBefore(last, q, c);
    }
  }

  lemma PagesBefore(a: nat, b: nat, c: nat)
    requires a < b
    ensures a * c + c <= b * c
  {
    assert (a + 1) * c <= b * c;
  }

  lemma RunTurn(fmt: Format, data: string, st: State)
    requires st.Placed()
    ensures Run(fmt, data, st) == if Stops(fmt, data, st) then st else Run(fmt, data, StepState(fmt, data, st))
    ensures !Stops(fmt, data, st) ==> st.dataPos < StepState(fmt, data, st).dataPos
  {
  }

  lemma NewlineTurn(fmt: Format, data: string, st: State)
    requires st.Placed() && st.dataPos < |data| && CompoundFlag(fmt, st, data[st.dataPos]) == Newline
    ensures var p := st.dataPos;
      var next := if p + 1 < |data| && ParseFlag(fmt, data[p + 1]) == Newline then p + 2 else p + 1;
      StepState(fmt, data, st) == st.(dataPos := next).PushField().PushRow().NextRow()
  {
  }

  lemma DelimiterTurn(fmt: Format, data: string, st: State)
    requires st.Placed() && st.dataPos < |data| && CompoundFlag(fmt, st, data[st.dataPos]) == Delimiter
    ensures StepState(fmt, data, st) == st.PushField().(dataPos := st.dataPos + 1)
  {
  }

  /** `IBasicCSVParser` on one block. */
  class Parser {
    const fmt: Format
    var data: string
    var dataPos: nat
    var quoteEscape: bool
    var fieldStart: int
    var fieldLength: nat
    var fieldHasDoubleQuote: bool
    var unicodeBomScan: bool
    var fields: FieldList
    var currentRow: Row
    var records: seq<Row>

    ghost function State(): CsvState.State
      reads this, fields
    {
      CsvState.State(dataPos, quoteEscape, fieldStart, fieldLength, fieldHasDoubleQuote, fields.contents, currentRow,
        records)
    }

    ghost predicate Valid()
      reads this, fields, fields.buffers
    {
      fields.Valid() && State().Placed()
    }

    constructor (fmt: Format)
      ensures Valid() && this.fmt == fmt && !unicodeBomScan && !fieldHasDoubleQuote
      ensures fresh(this) && fresh(fields) && fresh(fields.Pages())
    {
      this.fmt := fmt;
      data, dataPos, quoteEscape := "", 0, false;
      fieldStart, fieldLength, fieldHasDoubleQuote := UNINITIALIZED_FIELD, 0, false;
      unicodeBomScan := false;
      fields := new FieldList(170);
      currentRow, records := Row(0, 0, 0), [];
    }

    method PushField()
      requires Valid()
      modifies this, fields, fields.buffers
      ensures Valid() && State() == old(State()).PushField()
      ensures data == old(data) && fields == old(fields) && unicodeBomScan == old(unicodeBomScan)
      ensures fresh(fields.Pages() - old(fields.Pages()))
    {
      var start := if fieldStart == UNINITIALIZED_FIELD then 0 else fieldStart;
      if fieldHasDoubleQuote {
        fields.EmplaceBack(RawField(start, fieldLength, true));
        fieldHasDoubleQuote := false;
      } else {
        fields.EmplaceBack(RawField(start, fieldLength, false));
      }
      currentRow := currentRow.(rowLength := currentRow.rowLength + 1);
      fieldStart := UNINITIALIZED_FIELD;
      fieldLength := 0;
    }

    method PushRow()
      requires Valid()
      modifies this`currentRow, this`records
      ensures Valid() && State().(row := old(currentRow)) == old(State()).PushRow()
      ensures currentRow.dataStart == old(currentRow.dataStart) && currentRow.fieldsStart == old(currentRow.fieldsStart)
    {
      var size := fields.Size();
      currentRow := currentRow.(rowLength := size - currentRow.fieldsStart);
      records := records + [currentRow];
    }

    /** Takes a run of ordinary characters at once. */
    method ParseField()
      requires Valid() && dataPos < |data| && CompoundFlag(fmt, State(), data[dataPos]) == NotSpecial
      modifies this`dataPos, this`fieldStart, this`fieldLength
      ensures Valid() && old(dataPos) < dataPos <= |data|
      ensures Run(fmt, data, State()) == Run(fmt, data, old(State()))
    {
      hide Run;
      ghost var before := State();
      if fieldStart == UNINITIALIZED_FIELD {
        fieldStart := dataPos - currentRow.dataStart;
      }
      while dataPos < |data| && QuoteEscapeFlag(ParseFlag(fmt, data[dataPos]), quoteEscape) == NotSpecial
        invariant before.dataPos <= dataPos <= |data|
        invariant fieldStart
          == if before.fieldStart == UNINITIALIZED_FIELD then before.dataPos - currentRow.dataStart
             else before.fieldStart
        invariant dataPos == before.dataPos
          ==> dataPos < |data| && QuoteEscapeFlag(ParseFlag(fmt, data[dataPos]), quoteEscape) == NotSpecial
        invariant forall i | before.dataPos <= i < dataPos :: CompoundFlag(fmt, before, data[i]) == NotSpecial
      {
        dataPos := dataPos + 1;
      }
      PlainRun(fmt, data, before, dataPos);
      fieldLength := dataPos - (fieldStart + currentRow.dataStart);
    }

    method TrimUtf8Bom()
      requires dataPos == 0
      modifies this`dataPos, this`unicodeBomScan
      ensures dataPos == if !old(unicodeBomScan) && BOM <= data then 3 else 0
      ensures unicodeBomScan == (old(unicodeBomScan) || |data| >= 3)
    {
      if !unicodeBomScan && |data| >= 3 {
        if data[0] == BOM[0] && data[1] == BOM[1] && data[2] == BOM[2] {
          dataPos := dataPos + 3;
        }
        unicodeBomScan := true;
      }
    }

    /** The newline case: a second newline character is swallowed. */
    method EndRecord()
      requires Valid() && dataPos < |data| && CompoundFlag(fmt, State(), data[dataPos]) == Newline
      modifies this, fields, fields.buffers
      ensures data == old(data) && fields == old(fields) && unicodeBomScan == old(unicodeBomScan)
      ensures Valid() && State() == StepState(fmt, data, old(State()))
      ensures fresh(fields.Pages() - old(fields.Pages()))
    {
      hide FieldList.Valid, StepState;
      NewlineTurn(fmt, data, State());
      dataPos := dataPos + 1;
      if dataPos < |data| && ParseFlag(fmt, data[dataPos]) == Newline {
        dataPos := dataPos + 1;
      }
      PushField();
      PushRow();
      var size := fields.Size();
      currentRow := Row(dataPos, size, 0);
    }

    /** A quote inside quotes: it closes them, begins a doubled quote, or is
        kept as it is. */
    method QuoteInside()
      requires Valid() && dataPos + 1 < |data| && CompoundFlag(fmt, State(), data[dataPos]) == QuoteEscapeQuote
      modifies this`quoteEscape, this`dataPos, this`fieldLength, this`fieldHasDoubleQuote
      ensures Valid() && State() == StepState(fmt, data, old(State()))
    {
      var next := ParseFlag(fmt, data[dataPos + 1]);
      FlagsAreBits(next, false);
      if Bits(next) >= Bits(Delimiter) {
        quoteEscape := false;
        dataPos := dataPos + 1;
      } else if next == Quote {
        dataPos := dataPos + 2;
        fieldLength := fieldLength + 2;
        fieldHasDoubleQuote := true;
      } else {
        fieldLength := fieldLength + 1;
        dataPos := dataPos + 1;
      }
    }

    /** A quote outside quotes opens them at the start of a field only. */
    method QuoteOutside()
      requires Valid() && dataPos < |data| && CompoundFlag(fmt, State(), data[dataPos]) == Quote
      modifies this`quoteEscape, this`dataPos, this`fieldLength, this`fieldStart
      ensures Valid() && State() == StepState(fmt, data, old(State()))
    {
      if fieldLength == 0 {
        quoteEscape := true;
        dataPos := dataPos + 1;
        if fieldStart == UNINITIALIZED_FIELD && dataPos < |data| {
          fieldStart := dataPos - currentRow.dataStart;
        }
      } else {
        fieldLength := fieldLength + 1;
        dataPos := dataPos + 1;
      }
    }

    /** One turn of the parse loop; a quote at the very end stops it. */
    method Turn() returns (stop: bool)
      requires Valid() && dataPos < |data|
      modifies this, fields, fields.buffers
      ensures data == old(data) && fields == old(fields) && unicodeBomScan == old(unicodeBomScan)
      ensures Valid() && fresh(fields.Pages() - old(fields.Pages()))
      ensures stop <==> Stops(fmt, data, old(State()))
      ensures stop ==> State() == old(State())
      ensures !stop ==> old(dataPos) < dataPos && Run(fmt, data, State()) == Run(fmt, data, old(State()))
    {
      hide StepState, Run, FieldList.Valid;
      RunTurn(fmt, data, State());
      stop := false;
      match QuoteEscapeFlag(ParseFlag(fmt, data[dataPos]), quoteEscape) {
        case Delimiter =>
          DelimiterTurn(fmt, data, State());
          PushField();
          dataPos := dataPos + 1;
        case Newline =>
          EndRecord();
        case NotSpecial =>
          ParseField();
        case QuoteEscapeQuote =>
          if dataPos + 1 == |data| {
            stop := true;
          } else {
            QuoteInside();
          }
        case Quote =>
          QuoteOutside();
      }
    }

    /** The parse loop. It returns how many characters belong to complete
        rows. Offsets are 32-bit, so the block is shorter than 2^31. */
    method Parse() returns (remainder: nat)
      requires Valid() && |data| < 0x8000_0000
      requires fields.contents == [] && records == [] && currentRow == Row(0, 0, 0)
      requires fieldStart == UNINITIALIZED_FIELD && fieldLength == 0
      modifies this, fields, fields.buffers
      ensures Valid() && State() == Run(fmt, data, Begin(data, old(unicodeBomScan), old(fieldHasDoubleQuote)))
      ensures remainder == currentRow.dataStart
      ensures data == old(data) && fields == old(fields)
      ensures unicodeBomScan == (old(unicodeBomScan) || |data| >= 3)
      ensures fresh(fields.Pages() - old(fields.Pages()))
    {
      hide Run, FieldList.Valid;
      quoteEscape := false;
      dataPos := 0;
      currentRow := currentRow.(dataStart := 0);
      TrimUtf8Bom();
      ghost var start := State();
      assert start == Begin(data, old(unicodeBomScan), old(fieldHasDoubleQuote));
      while dataPos < |data|
        invariant Valid() && data == old(data) && fields == old(fields)
        invariant fresh(fields.Pages() - old(fields.Pages()))
        invariant unicodeBomScan == (old(unicodeBomScan) || |data| >= 3)
        invariant Run(fmt, data, State()) == Run(fmt, data, start)
        decreases |data| - dataPos
      {
        var stop := Turn();
        if stop {
          break;
        }
      }
      RunTurn(fmt, data, State());
      remainder := currentRow.dataStart;
    }

    method EndFeed()
      requires Valid()
      modifies this, fields, fields.buffers
      ensures fields.Valid() && data == old(data) && fields == old(fields)
      ensures records == CsvState.EndFeed(fmt, data, old(State())).records
      ensures fields.contents == CsvState.EndFeed(fmt, data, old(State())).fields
      ensures unicodeBomScan == old(unicodeBomScan)
      ensures fieldHasDoubleQuote == CsvState.EndFeed(fmt, data, old(State())).fieldHasDoubleQuote
      ensures fresh(fields.Pages() - old(fields.Pages()))
    {
      var emptyLastField := data != "" && ParseFlag(fmt, data[|data| - 1]) == Delimiter;
      if fieldLength > 0 || emptyLastField {
        PushField();
      }
      if currentRow.rowLength > 0 {
        PushRow();
      }
    }
  }
}
