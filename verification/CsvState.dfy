/** The parser as a state machine over one block of data, one character at a
    time, and what holds of it on any data whatever. */
module CsvState {
  import opened CsvFormat

  const UNINITIALIZED_FIELD := -1

  /** A field is a slice: its start is relative to its row. */
  datatype RawField = RawField(start: nat, length: nat, hasDoubleQuote: bool)

  datatype Row = Row(dataStart: nat, fieldsStart: nat, rowLength: nat)

  /** The parser's fields while it works through one block. */
  datatype State = State(
    dataPos: nat,
    quoteEscape: bool,
    fieldStart: int,
    fieldLength: nat,
    fieldHasDoubleQuote: bool,
    fields: seq<RawField>,
    row: Row,
    records: seq<Row>)
  {
    /** The positions make sense: nothing begins after `dataPos`. */
    ghost predicate Placed() {
      && row.dataStart <= dataPos && row.fieldsStart <= |fields|
      && (fieldStart == UNINITIALIZED_FIELD || 0 <= fieldStart <= dataPos - row.dataStart)
    }

    function PushField(): (r: State)
      requires Placed()
      ensures r.Placed()
    {
      this.(
        fields := fields + [RawField(if fieldStart == UNINITIALIZED_FIELD then 0 else fieldStart, fieldLength,
                                     fieldHasDoubleQuote)],
        fieldHasDoubleQuote := false,
        row := row.(rowLength := row.rowLength + 1),
        fieldStart := UNINITIALIZED_FIELD,
        fieldLength := 0)
    }

    function PushRow(): (r: State)
      requires Placed()
      ensures r.Placed()
    {
      this.(records := records + [row.(rowLength := |fields| - row.fieldsStart)])
    }

    /** The row that begins here. */
    function NextRow(): (r: State)
      requires Placed() && fieldStart == UNINITIALIZED_FIELD
      ensures r.Placed()
    {
      this.(row := Row(dataPos, |fields|, 0))
    }
  }

  function CompoundFlag(fmt: Format, st: State, c: char): Flag {
    QuoteEscapeFlag(ParseFlag(fmt, c), st.quoteEscape)
  }

  /** A quote that ends the data ends the parse. */
  predicate Stops(fmt: Format, data: string, st: State) {
    st.dataPos >= |data|
    || (CompoundFlag(fmt, st, data[st.dataPos]) == QuoteEscapeQuote && st.dataPos + 1 == |data|)
  }

  /** One turn of the parse loop, taking ordinary characters singly. */
  function StepState(fmt: Format, data: string, st: State): (r: State)
    requires st.Placed() && !Stops(fmt, data, st)
    ensures r.Placed() && st.dataPos < r.dataPos <= |data|
  {
    var p := st.dataPos;
    match CompoundFlag(fmt, st, data[p])
    case Delimiter =>
      st.PushField().(dataPos := p + 1)
    case Newline =>
      var next := if p + 1 < |data| && ParseFlag(fmt, data[p + 1]) == Newline then p + 2 else p + 1;
      st.(dataPos := next).PushField().PushRow().NextRow()
    case NotSpecial =>
      var start := if st.fieldStart == UNINITIALIZED_FIELD then p - st.row.dataStart else st.fieldStart;
      st.(dataPos := p + 1, fieldStart := start, fieldLength := p + 1 - (start + st.row.dataStart))
    case QuoteEscapeQuote =>
      var next := ParseFlag(fmt, data[p + 1]);
      if next == Delimiter || next == Newline then
        st.(quoteEscape := false, dataPos := p + 1)
      else if next == Quote then
        st.(dataPos := p + 2, fieldLength := st.fieldLength + 2, fieldHasDoubleQuote := true)
      else
        st.(dataPos := p + 1, fieldLength := st.fieldLength + 1)
    case Quote =>
      if st.fieldLength == 0 then
        st.(quoteEscape := true, dataPos := p + 1,
            fieldStart :=
              if st.fieldStart == UNINITIALIZED_FIELD && p + 1 < |data| then p + 1 - st.row.dataStart
              else st.fieldStart)
      else
        st.(dataPos := p + 1, fieldLength := st.fieldLength + 1)
  }

  function Run(fmt: Format, data: string, st: State): (r: State)
    requires st.Placed()
    ensures r.Placed()
    ensures st.dataPos <= |data| ==> r.dataPos <= |data|
    decreases |data| - st.dataPos
  {
    if Stops(fmt, data, st) then st else Run(fmt, data, StepState(fmt, data, st))
  }

  /** `end_feed`: what is left over at the end of the input is a row too. */
  function EndFeed(fmt: Format, data: string, st: State): (r: State)
    requires st.Placed()
  {
    var emptyLast := data != "" && ParseFlag(fmt, data[|data| - 1]) == Delimiter;
    var pushed := if st.fieldLength > 0 || emptyLast then st.PushField() else st;
    if pushed.row.rowLength > 0 then pushed.PushRow() else pushed
  }

  // ----- Any data -----

  /** The slices of fields `from` to `to`, relative to a row at `base`, lie
      before `limit`; those that are not empty are in order and disjoint. */
  ghost predicate SlicesInOrder(fields: seq<RawField>, from: nat, to: nat, limit: int) {
    && from <= to <= |fields|
    && (forall i | from <= i < to :: fields[i].start + fields[i].length <= limit)
    && (forall i, j | from <= i < j < to && fields[i].length > 0 && fields[j].length > 0 ::
          fields[i].start + fields[i].length <= fields[j].start)
  }

  /** A finished row: its slices lie inside the data. */
  ghost predicate RowSound(data: string, fields: seq<RawField>, row: Row) {
    row.dataStart <= |data|
    && SlicesInOrder(fields, row.fieldsStart, row.fieldsStart + row.rowLength, |data| - row.dataStart)
  }

  /** What the parser keeps on any data. */
  ghost predicate Sound(data: string, st: State) {
    && st.Placed() && st.dataPos <= |data|
    && st.row.fieldsStart + st.row.rowLength == |st.fields|
    && SlicesInOrder(st.fields, st.row.fieldsStart, |st.fields|, st.dataPos - st.row.dataStart)
    && (st.fieldStart == UNINITIALIZED_FIELD ==> st.fieldLength == 0 && (st.quoteEscape ==> st.dataPos == |data|))
    && (st.fieldStart != UNINITIALIZED_FIELD ==>
      && st.row.dataStart + st.fieldStart + st.fieldLength <= st.dataPos
      && (forall i | st.row.fieldsStart <= i < |st.fields| ::
          st.fields[i].start + st.fields[i].length <= st.fieldStart))
    && (forall k | 0 <= k < |st.records| :: RowSound(data, st.fields, st.records[k]))
  }

  lemma PushFieldSound(data: string, st: State)
    requires Sound(data, st) && (st.quoteEscape ==> st.dataPos == |data|)
    ensures Sound(data, st.PushField())
  {
    RecordsStaySound(data, st, st.PushField());
  }

  /** Finished rows stay sound as fields are added. */
  lemma RecordsStaySound(data: string, st: State, r: State)
    requires Sound(data, st) && st.fields <= r.fields && r.records == st.records
    ensures forall k | 0 <= k < |r.records| :: RowSound(data, r.fields, r.records[k])
  {
    forall k | 0 <= k < |r.records|
      ensures RowSound(data, r.fields, r.records[k])
    {
      assert RowSound(data, st.fields, st.records[k]);
    }
  }

  lemma NewlineSound(data: string, st: State, next: nat)
    requires Sound(data, st) && !st.quoteEscape && st.dataPos < next <= |data|
    ensures Sound(data, st.(dataPos := next).PushField().PushRow().NextRow())
  {
    var moved := st.(dataPos := next);
    PushFieldSound(data, moved);
    var pushed := moved.PushField();
    assert RowSound(data, pushed.fields, pushed.row);
  }

  /** A step that pushes nothing keeps the field inside what was read. */
  lemma ScanSound(data: string, st: State, r: State)
    requires Sound(data, st) && r.fields == st.fields && r.records == st.records && r.row == st.row
    requires st.dataPos <= r.dataPos <= |data|
    requires r.fieldStart == UNINITIALIZED_FIELD
      ==> st.fieldStart == UNINITIALIZED_FIELD && r.fieldLength == 0 && (r.quoteEscape ==> r.dataPos == |data|)
    requires r.fieldStart != UNINITIALIZED_FIELD ==>
      && r.fieldStart >= 0 && r.row.dataStart + r.fieldStart + r.fieldLength <= r.dataPos
      && (r.fieldStart == st.fieldStart || r.fieldStart >= st.dataPos - st.row.dataStart)
    ensures Sound(data, r)
  {
    RecordsStaySound(data, st, r);
  }

  lemma StepSound(fmt: Format, data: string, st: State)
    requires Sound(data, st) && !Stops(fmt, data, st)
    ensures Sound(data, StepState(fmt, data, st))
  {
    hide RowSound, SlicesInOrder;
    var r := StepState(fmt, data, st);
    match CompoundFlag(fmt, st, data[st.dataPos]) {
      case Delimiter =>
        PushFieldSound(data, st);
        ScanSound(data, st.PushField(), r);
      case Newline => NewlineSound(data, st, r.dataPos);
      case _ => ScanSound(data, st, r);
    }
  }

  /** On any data, from a sound state: the parse ends, and every field it
      recorded is a slice of the data, those of a row in order and disjoint. */
  lemma {:induction false} RunSound(fmt: Format, data: string, st: State)
    requires Sound(data, st)
    ensures Sound(data, Run(fmt, data, st))
    decreases |data| - st.dataPos
  {
    if !Stops(fmt, data, st) {
      StepSound(fmt, data, st);
      RunSound(fmt, data, StepState(fmt, data, st));
    }
  }

  lemma EndFeedSound(fmt: Format, data: string, st: State)
    requires Sound(data, st)
    ensures var r := EndFeed(fmt, data, st);
      forall k | 0 <= k < |r.records| :: RowSound(data, r.fields, r.records[k])
  {
  }
}
