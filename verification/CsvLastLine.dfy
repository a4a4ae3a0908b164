/** Text whose last record has no line end, as section 2 of RFC 4180 allows:
    the end of the input finishes it. */
module CsvLastLine {
  import opened CsvFormat
  import opened CsvState
  import opened CsvRoundTrip
  import opened CsvParts
  import opened CsvCuts
  import opened CsvWindow
  import opened CsvSmallSource

  /** The text of the records, but for the last line feed. */
  function Unterminated(fmt: Format, records: seq<seq<string>>): (s: string)
    requires records != []
    ensures Text(fmt, records, "\n") == s + "\n"
  {
    TextEnds(fmt, records, "\n");
    var t := Text(fmt, records, "\n");
    t[..|t| - 1]
  }

  /** The last line feed is needed only by an empty line that is read. */
  lemma LastFeedNeeded(fmt: Format, records: seq<seq<string>>)
    requires records != []
    ensures Needed(fmt, records) < |Text(fmt, records, "\n")|
       <==> !Blank(records[|records| - 1]) || TrailingFeeds(records) % 2 == 0
  {
    hide Text, RowText, RowReach, TrailingFeeds;
    var n := |records| - 1;
    OneMoreText(fmt, records, n);
    assert records[..n + 1] == records;
    LastText(fmt, records[n]);
    if LastRead(records) < n {
      NeededInside(fmt, records, n);
    }
  }

  lemma LastText(fmt: Format, record: seq<string>)
    ensures |RowText(fmt, record, "\n")| > 0
    ensures Blank(record) ==> |RowText(fmt, record, "\n")| == 1
    ensures !Blank(record) ==> RowReach(fmt, record) < |RowText(fmt, record, "\n")|
  {
    hide RowReach;
  }

  /** Text without the last line feed reads back as the whole text does, unless
      the last record is an empty line of its own, which then is lost. */
  lemma UnterminatedReadsBack(fmt: Format, records: seq<seq<string>>)
    requires fmt.Valid() && records != [] && !(BOM <= Unterminated(fmt, records))
    ensures var data := Unterminated(fmt, records);
      var r := ParseWhole(fmt, data);
      RowsAre(fmt, data, r.fields, r.records, ReadBack(records, "\n"))
      <==> !Blank(records[|records| - 1]) || TrailingFeeds(records) % 2 == 0
  {
    hide Text, Run, RowsAre, EndFeed, Unterminated, Fit, ReadBack;
    hide Begin, AtField, Normal, Joined, Blank, TrailingFeeds, Needed;
    var data := Unterminated(fmt, records);
    var st := Begin(data, false, false);
    BlockBegins(data, false, false);
    NoMark(data, START, data);
    var m := BlockRows(fmt, data, st, records);
    RowPlaced(m);
    FinalRows(fmt, data, m, records);
    LastFeedNeeded(fmt, records);
  }
}
