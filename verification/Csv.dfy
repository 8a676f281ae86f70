/** The CSV printer and, as its inverse, a reader by section 2 of RFC 4180 (with LF as the line
    break and a configurable separator character). */
module Csv {
  import opened Texts

  const QUOTE := '\"'
  const NEWLINE := '\n'

  // ----- printing

  /** Every quote doubled. */
  function Doubled(text: string): string {
    if text == "" then ""
    else (if text[0] == QUOTE then [QUOTE, QUOTE] else [text[0]]) + Doubled(text[1..])
  }

  function Escaped(text: string, separator: string): string {
    var d := Doubled(text);
    if Contains(d, separator) || Contains(d, [QUOTE]) then [QUOTE] + d + [QUOTE] else d
  }

  function EscapedAll(cells: seq<string>, separator: string): (r: seq<string>)
    ensures |r| == |cells|
    ensures forall i :: 0 <= i < |r| ==> r[i] == Escaped(cells[i], separator)
  {
    seq(|cells|, i requires 0 <= i < |cells| => Escaped(cells[i], separator))
  }

  function Join(parts: seq<string>, separator: string): string {
    if parts == [] then ""
    else if |parts| == 1 then parts[0]
    else parts[0] + separator + Join(parts[1..], separator)
  }

  function Line(cells: seq<string>, separator: string): string {
    Join(EscapedAll(cells, separator), separator)
  }

  function Lines(records: seq<seq<string>>, separator: string): (r: seq<string>)
    ensures |r| == |records|
    ensures forall i :: 0 <= i < |r| ==> r[i] == Line(records[i], separator)
  {
    seq(|records|, i requires 0 <= i < |records| => Line(records[i], separator))
  }

  /** The item model: a header and rows of the same number of columns. */
  datatype Table = Table(header: seq<string>, rows: seq<seq<string>>) {
    ghost predicate Valid() {
      forall i :: 0 <= i < |rows| ==> |rows[i]| == |header|
    }

    function Records(): seq<seq<string>> {
      [header] + rows
    }
  }

  function Document(table: Table, separator: string): string {
    Join(Lines(table.Records(), separator), [NEWLINE]) + [NEWLINE]
  }

  class CsvPrinter {
    const model: Table
    const separator: string

    constructor (model: Table, separator: string)
      ensures this.model == model && this.separator == separator
    {
      this.model := model;
      this.separator := separator;
    }

    method Escape(text: string) returns (result: string)
      ensures result == Escaped(text, separator)
    {
      result := Doubled(text);
      if Contains(result, separator) || Contains(result, [QUOTE]) {
        result := [QUOTE] + result + [QUOTE];
      }
    }

    method ToString() returns (text: string)
      requires model.Valid()
      ensures text == Document(model, separator)
    {
      hide Join, Escaped;
      var rows := |model.rows|;
      var columns := |model.header|;
      var items: seq<string> := [];
      var lines: seq<string> := [];

      ghost var records := model.Records();
      ghost var expected := Lines(records, separator);

      for column := 0 to columns
        invariant items == EscapedAll(model.header, separator)[..column]
      {
        var item := Escape(model.header[column]);
        items := items + [item];
      }
      assert items == EscapedAll(model.header, separator);
      assert records[0] == model.header;
      assert expected[0] == Join(items, separator);
      lines := lines + [Join(items, separator)];
      items := [];
      assert lines == expected[..1];

      for row := 0 to rows
        invariant items == []
        invariant lines == expected[..row + 1]
      {
        ghost var escaped := EscapedAll(model.rows[row], separator);
        for column := 0 to columns
          invariant items == escaped[..column]
        {
          var item := Escape(model.rows[row][column]);
          items := items + [item];
        }
        assert items == escaped;
        assert records[row + 1] == model.rows[row];
        assert expected[row + 1] == Join(items, separator);
        lines := lines + [Join(items, separator)];
        items := [];
      }
      assert lines == expected;
      return Join(lines, [NEWLINE]) + [NEWLINE];
    }
  }

  // ----- reading

  datatype Mode =
    | Fresh    // at the start of a field
    | Plain    // in a field without quotes
    | Quoted   // in a quoted field
    | Closing  // after a quote in a quoted field: its end, or the first of two
    | Bad

  datatype Reader = Reader(mode: Mode, field: string, record: seq<string>, records: seq<seq<string>>) {
    function EndField(): Reader {
      Reader(Fresh, "", record + [field], records)
    }

    function EndRecord(): Reader {
      Reader(Fresh, "", [], records + [record + [field]])
    }

    function Append(mode: Mode, c: char): Reader {
      this.(mode := mode, field := field + [c])
    }

    function Feed(c: char, separator: char): Reader {
      match mode
      case Fresh =>
        if c == QUOTE then this.(mode := Quoted)
        else if c == separator then EndField()
        else if c == NEWLINE then EndRecord()
        else Append(Plain, c)
      case Plain =>
        if c == QUOTE then this.(mode := Bad)
        else if c == separator then EndField()
        else if c == NEWLINE then EndRecord()
        else Append(Plain, c)
      case Quoted =>
        if c == QUOTE then this.(mode := Closing) else Append(Quoted, c)
      case Closing =>
        if c == QUOTE then Append(Quoted, c)
        else if c == separator then EndField()
        else if c == NEWLINE then EndRecord()
        else this.(mode := Bad)
      case Bad => this
    }

    function FeedAll(text: string, separator: char): Reader
      decreases |text|
    {
      if text == "" then this else Feed(text[0], separator).FeedAll(text[1..], separator)
    }
  }

  datatype Decoded = Records(records: seq<seq<string>>) | Malformed

  /** The reader between two lines. */
  function Between(done: seq<seq<string>>): Reader {
    Reader(Fresh, "", [], done)
  }

  /** The last record may or may not have an ending line break. */
  function Decode(text: string, separator: char): Decoded {
    var r := Between([]).FeedAll(text, separator);
    if r.mode.Bad? || r.mode.Quoted? then Malformed
    else if r.mode.Fresh? && r.record == [] then Records(r.records)
    else Records(r.EndRecord().records)
  }

  lemma {:induction false} FeedConcat(r: Reader, a: string, b: string, separator: char)
    ensures r.FeedAll(a + b, separator) == r.FeedAll(a, separator).FeedAll(b, separator)
    decreases |a|
  {
    if a == "" {
      assert a + b == b;
    } else {
      assert (a + b)[1..] == a[1..] + b;
      FeedConcat(r.Feed(a[0], separator), a[1..], b, separator);
    }
  }

  lemma FeedOne(r: Reader, c: char, separator: char)
    ensures r.FeedAll([c], separator) == r.Feed(c, separator)
  {
    assert [c][1..] == "";
  }

  // ----- what the escaping achieves

  ghost predicate SeparatorOk(separator: char) {
    separator != '\"' && separator != '\n'
  }

  ghost predicate NeedsQuotes(text: string, separator: char) {
    separator in text || '\"' in text
  }

  /** A line break is protected only in a cell that is quoted for another reason. */
  ghost predicate CellOk(text: string, separator: char) {
    '\n' in text ==> NeedsQuotes(text, separator)
  }

  ghost predicate RecordOk(cells: seq<string>, separator: char) {
    cells != [] && forall i :: 0 <= i < |cells| ==> CellOk(cells[i], separator)
  }

  ghost predicate RecordsOk(records: seq<seq<string>>, separator: char) {
    forall i :: 0 <= i < |records| ==> RecordOk(records[i], separator)
  }

  lemma {:induction false} DoubledKeeps(text: string, c: char)
    ensures c in Doubled(text) <==> c in text
    ensures QUOTE !in text ==> Doubled(text) == text
  {
    if text != "" {
      DoubledKeeps(text[1..], c);
      assert text == [text[0]] + text[1..];
      assert c in Doubled(text) <==> c == text[0] || c in Doubled(text[1..]);
    }
  }

  lemma EscapedIs(text: string, separator: char)
    requires SeparatorOk(separator)
    ensures Escaped(text, [separator]) ==
            if separator in text || '\"' in text then "\"" + Doubled(text) + "\"" else text
  {
    ContainsOne(Doubled(text), separator);
    ContainsOne(Doubled(text), QUOTE);
    DoubledKeeps(text, separator);
    DoubledKeeps(text, QUOTE);
  }

  lemma {:induction false} FeedDoubled(r: Reader, text: string, separator: char)
    requires r.mode.Quoted?
    ensures r.FeedAll(Doubled(text), separator) == r.(field := r.field + text)
    decreases |text|
  {
    if text == "" {
      assert r.field + text == r.field;
    } else {
      var first := if text[0] == QUOTE then [QUOTE, QUOTE] else [text[0]];
      FeedConcat(r, first, Doubled(text[1..]), separator);
      assert first[1..] == if text[0] == QUOTE then [QUOTE] else "";
      FeedOne(r.Feed(first[0], separator), QUOTE, separator);
      FeedDoubled(r.(field := r.field + [text[0]]), text[1..], separator);
      assert r.field + [text[0]] + text[1..] == r.field + text;
    }
  }

  lemma {:induction false} FeedPlain(r: Reader, text: string, separator: char)
    requires r.mode.Fresh? || r.mode.Plain?
    requires !NeedsQuotes(text, separator) && NEWLINE !in text
    ensures r.FeedAll(text, separator) == if text == "" then r else r.(mode := Plain, field := r.field + text)
    decreases |text|
  {
    if text != "" {
      var r' := r.Append(Plain, text[0]);
      FeedPlain(r', text[1..], separator);
      assert r.field + [text[0]] + text[1..] == r.field + text;
      assert text[1..] == "" ==> text == [text[0]];
    }
  }

  /** Reading an escaped cell leaves exactly the cell's text in the current field. */
  lemma FeedCell(r: Reader, cell: string, separator: char)
    requires SeparatorOk(separator) && r.mode.Fresh? && r.field == "" && CellOk(cell, separator)
    ensures var r' := r.FeedAll(Escaped(cell, [separator]), separator);
            r'.(mode := Fresh) == r.(field := cell) && (r'.mode.Fresh? || r'.mode.Plain? || r'.mode.Closing?)
  {
    EscapedIs(cell, separator);
    if NeedsQuotes(cell, separator) {
      var open := r.(mode := Quoted);
      FeedConcat(r, [QUOTE] + Doubled(cell), [QUOTE], separator);
      FeedConcat(r, [QUOTE], Doubled(cell), separator);
      FeedOne(r, QUOTE, separator);
      FeedDoubled(open, cell, separator);
      FeedOne(open.(field := cell), QUOTE, separator);
      assert "" + cell == cell;
    } else {
      FeedPlain(r, cell, separator);
      assert "" + cell == cell;
    }
  }

  /** The text of a line, cell by cell. */
  lemma LineText(cells: seq<string>, separator: string)
    requires cells != []
    ensures |cells| == 1 ==> Line(cells, separator) == Escaped(cells[0], separator)
    ensures |cells| > 1 ==>
              Line(cells, separator) + [NEWLINE] ==
              Escaped(cells[0], separator) + (separator + (Line(cells[1..], separator) + [NEWLINE]))
  {
    hide Escaped;
    if |cells| > 1 {
      assert EscapedAll(cells, separator)[1..] == EscapedAll(cells[1..], separator);
    }
  }

  /** Reading the first cell of a record, and what ends it. */
  lemma FeedFirst(r: Reader, cells: seq<string>, separator: char)
    requires SeparatorOk(separator) && r.mode.Fresh? && r.field == "" && RecordOk(cells, separator)
    ensures var r1 := r.FeedAll(Escaped(cells[0], [separator]), separator);
            && r1.Feed(separator, separator) == Reader(Fresh, "", r.record + [cells[0]], r.records)
            && r1.Feed(NEWLINE, separator) == Between(r.records + [r.record + [cells[0]]])
    ensures |cells| > 1 ==> RecordOk(cells[1..], separator)
  {
    hide Escaped, Reader.FeedAll;
    var r1 := r.FeedAll(Escaped(cells[0], [separator]), separator);
    FeedCell(r, cells[0], separator);
  }

  lemma FeedSplit(r: Reader, text: string, c: char, rest: string, separator: char)
    ensures r.FeedAll(text + ([c] + rest), separator) ==
            r.FeedAll(text, separator).Feed(c, separator).FeedAll(rest, separator)
  {
    hide *;
    FeedConcat(r, text, [c] + rest, separator);
    FeedConcat(r.FeedAll(text, separator), [c], rest, separator);
    FeedOne(r.FeedAll(text, separator), c, separator);
  }

  lemma FeedLast(r: Reader, text: string, c: char, separator: char)
    ensures r.FeedAll(text + [c], separator) == r.FeedAll(text, separator).Feed(c, separator)
  {
    hide *;
    FeedConcat(r, text, [c], separator);
    FeedOne(r.FeedAll(text, separator), c, separator);
  }

  lemma RecordGrows(record: seq<string>, cells: seq<string>)
    requires cells != []
    ensures record + [cells[0]] + cells[1..] == record + cells
    ensures |cells| == 1 ==> record + [cells[0]] == record + cells
  {
  }

  /** Reading a line and its line break adds exactly one record. */
  lemma {:induction false} FeedLine(r: Reader, cells: seq<string>, separator: char)
    requires SeparatorOk(separator) && r.mode.Fresh? && r.field == "" && RecordOk(cells, separator)
    ensures r.FeedAll(Line(cells, [separator]) + [NEWLINE], separator) ==
            Between(r.records + [r.record + cells])
    decreases |cells|
  {
    assert cells != [];
    hide *;
    var text := Escaped(cells[0], [separator]);
    FeedFirst(r, cells, separator);
    LineText(cells, [separator]);
    RecordGrows(r.record, cells);
    if |cells| == 1 {
      FeedLast(r, text, NEWLINE, separator);
    } else {
      FeedSplit(r, text, separator, Line(cells[1..], [separator]) + [NEWLINE], separator);
      FeedLine(Reader(Fresh, "", r.record + [cells[0]], r.records), cells[1..], separator);
    }
  }

  lemma JoinLines(lines: seq<string>)
    requires lines != []
    ensures |lines| == 1 ==> Join(lines, [NEWLINE]) + [NEWLINE] == lines[0] + [NEWLINE]
    ensures |lines| > 1 ==>
              Join(lines, [NEWLINE]) + [NEWLINE] == (lines[0] + [NEWLINE]) + (Join(lines[1..], [NEWLINE]) + [NEWLINE])
  {
  }

  lemma {:induction false} FeedLines(done: seq<seq<string>>, records: seq<seq<string>>, separator: char)
    requires SeparatorOk(separator) && records != [] && RecordsOk(records, separator)
    ensures Between(done).FeedAll(Join(Lines(records, [separator]), [NEWLINE]) + [NEWLINE], separator) ==
            Between(done + records)
    decreases |records|
  {
    hide Join, Line, Reader.FeedAll;
    var lines := Lines(records, [separator]);
    var first := lines[0] + [NEWLINE];
    assert RecordOk(records[0], separator);
    FeedLine(Between(done), records[0], separator);
    assert [] + records[0] == records[0];
    assert Between(done).FeedAll(first, separator) == Between(done + [records[0]]);
    JoinLines(lines);
    if |records| == 1 {
      assert records == [records[0]];
    } else {
      var rest := Join(lines[1..], [NEWLINE]) + [NEWLINE];
      assert lines[1..] == Lines(records[1..], [separator]);
      FeedConcat(Between(done), first, rest, separator);
      assert forall i :: 0 <= i < |records| - 1 ==> records[1..][i] == records[i + 1];
      FeedLines(done + [records[0]], records[1..], separator);
      assert done + [records[0]] + records[1..] == done + records;
    }
  }

  // ----- the round trip, exactly

  /** The number of line breaks that escaping leaves unprotected in a cell. */
  function Breaks(text: string): nat {
    if text == "" then 0 else (if text[0] == NEWLINE then 1 else 0) + Breaks(text[1..])
  }

  ghost function CellBreaks(text: string, separator: char): nat {
    if NeedsQuotes(text, separator) then 0 else Breaks(text)
  }

  ghost function RecordBreaks(cells: seq<string>, separator: char): nat {
    if cells == [] then 0 else CellBreaks(cells[0], separator) + RecordBreaks(cells[1..], separator)
  }

  ghost function TableBreaks(records: seq<seq<string>>, separator: char): nat {
    if records == [] then 0 else RecordBreaks(records[0], separator) + TableBreaks(records[1..], separator)
  }

  ghost predicate Ready(r: Reader) {
    r.mode.Fresh? || r.mode.Plain? || r.mode.Closing?
  }

  lemma {:induction false} FeedBreaks(r: Reader, text: string, separator: char)
    requires r.mode.Fresh? || r.mode.Plain?
    requires !NeedsQuotes(text, separator)
    ensures var r' := r.FeedAll(text, separator);
            (r'.mode.Fresh? || r'.mode.Plain?) && |r'.records| == |r.records| + Breaks(text)
    decreases |text|
  {
    if text != "" {
      FeedBreaks(r.Feed(text[0], separator), text[1..], separator);
    }
  }

  lemma CountCell(r: Reader, cell: string, separator: char)
    requires SeparatorOk(separator) && r.mode.Fresh? && r.field == ""
    ensures var r' := r.FeedAll(Escaped(cell, [separator]), separator);
            Ready(r') && |r'.records| == |r.records| + CellBreaks(cell, separator)
  {
    EscapedIs(cell, separator);
    if NeedsQuotes(cell, separator) {
      FeedCell(r, cell, separator);
    } else {
      FeedBreaks(r, cell, separator);
    }
  }

  lemma {:induction false} CountLine(r: Reader, cells: seq<string>, separator: char)
    requires SeparatorOk(separator) && r.mode.Fresh? && r.field == "" && cells != []
    ensures var r' := r.FeedAll(Line(cells, [separator]) + [NEWLINE], separator);
            && r' == Between(r'.records)
            && |r'.records| == |r.records| + 1 + RecordBreaks(cells, separator)
    decreases |cells|
  {
    var text := Escaped(cells[0], [separator]);
    var r1 := r.FeedAll(text, separator);
    CountCell(r, cells[0], separator);
    LineText(cells, [separator]);
    hide Line, Escaped, Reader.FeedAll, Reader.Feed;
    if |cells| == 1 {
      FeedLast(r, text, NEWLINE, separator);
    } else {
      FeedSplit(r, text, separator, Line(cells[1..], [separator]) + [NEWLINE], separator);
      CountLine(r1.EndField(), cells[1..], separator);
    }
  }

  lemma {:induction false} CountLines(done: seq<seq<string>>, records: seq<seq<string>>, separator: char)
    requires SeparatorOk(separator) && records != []
    requires forall i :: 0 <= i < |records| ==> records[i] != []
    ensures var r := Between(done).FeedAll(Join(Lines(records, [separator]), [NEWLINE]) + [NEWLINE], separator);
            && r == Between(r.records)
            && |r.records| == |done| + |records| + TableBreaks(records, separator)
    decreases |records|
  {
    hide Join, Line, Reader.FeedAll;
    var lines := Lines(records, [separator]);
    var first := lines[0] + [NEWLINE];
    JoinLines(lines);
    CountLine(Between(done), records[0], separator);
    if |records| == 1 {
      assert TableBreaks(records[1..], separator) == 0;
    } else {
      var rest := Join(lines[1..], [NEWLINE]) + [NEWLINE];
      assert lines[1..] == Lines(records[1..], [separator]);
      FeedConcat(Between(done), first, rest, separator);
      CountLines(Between(done).FeedAll(first, separator).records, records[1..], separator);
    }
  }

  /** The number of records a reader finds: one for each line printed, and one more for each line
      break that was not protected. */
  lemma RecordCount(table: Table, separator: char)
    requires SeparatorOk(separator) && table.Valid() && table.header != []
    ensures var d := Decode(Document(table, [separator]), separator);
            d.Records? && |d.records| == 1 + |table.rows| + TableBreaks(table.Records(), separator)
  {
    var records := table.Records();
    assert forall i :: 0 <= i < |records| ==> |records[i]| == |table.header|;
    CountLines([], records, separator);
  }

  lemma {:induction false} BreaksOf(text: string)
    ensures 0 < Breaks(text) <==> NEWLINE in text
  {
    if text != "" {
      BreaksOf(text[1..]);
      assert text == [text[0]] + text[1..];
    }
  }

  lemma {:induction false} RecordBreaksOf(cells: seq<string>, separator: char, k: nat)
    requires k < |cells| && !CellOk(cells[k], separator)
    ensures 0 < RecordBreaks(cells, separator)
  {
    if k == 0 {
      BreaksOf(cells[0]);
    } else {
      RecordBreaksOf(cells[1..], separator, k - 1);
    }
  }

  lemma {:induction false} TableBreaksOf(records: seq<seq<string>>, separator: char, i: nat)
    requires i < |records| && records[i] != [] && !RecordOk(records[i], separator)
    ensures 0 < TableBreaks(records, separator)
  {
    if i == 0 {
      var k :| 0 <= k < |records[0]| && !CellOk(records[0][k], separator);
      RecordBreaksOf(records[0], separator, k);
    } else {
      TableBreaksOf(records[1..], separator, i - 1);
    }
  }

  lemma ReadsBack(records: seq<seq<string>>, separator: char)
    requires SeparatorOk(separator) && records != [] && RecordsOk(records, separator)
    ensures Decode(Join(Lines(records, [separator]), [NEWLINE]) + [NEWLINE], separator) == Records(records)
  {
    FeedLines([], records, separator);
    assert [] + records == records;
    hide Lines, Join, Reader.FeedAll;
  }

  /** What is printed without columns: empty lines, which read as records of one empty cell. */
  lemma NoColumns(table: Table, separator: char)
    requires SeparatorOk(separator) && table.Valid() && table.header == []
    ensures Decode(Document(table, [separator]), separator) != Records(table.Records())
  {
    var empty := Table([""], seq(|table.rows|, i => [""]));
    assert EscapedAll([], [separator]) == [];
    assert Line([], [separator]) == "";
    EscapedIs("", separator);
    assert EscapedAll([""], [separator]) == [""];
    assert Line([""], [separator]) == "";
    forall i | 0 <= i < |table.Records()|
      ensures Lines(table.Records(), [separator])[i] == Lines(empty.Records(), [separator])[i]
    {
      assert table.Records()[i] == [];
      assert empty.Records()[i] == [""];
    }
    assert Lines(table.Records(), [separator]) == Lines(empty.Records(), [separator]);
    ReadsBack(empty.Records(), separator);
    assert empty.Records()[0] != table.Records()[0];
  }

  /** The round trip: reading the printed document gives back the header and all rows exactly when
      there is a column, and no cell has a line break without a quote or a separator. */
  lemma RoundTrip(table: Table, separator: char)
    requires SeparatorOk(separator) && table.Valid()
    ensures Decode(Document(table, [separator]), separator) == Records(table.Records()) <==>
            RecordsOk(table.Records(), separator)
  {
    hide Decode, Lines, Join, TableBreaks;
    var records := table.Records();
    if table.header == [] {
      NoColumns(table, separator);
      assert records[0] == [] && !RecordOk(records[0], separator);
    } else if RecordsOk(records, separator) {
      ReadsBack(records, separator);
    } else {
      var i :| 0 <= i < |records| && !RecordOk(records[i], separator);
      RecordCount(table, separator);
      TableBreaksOf(records, separator, i);
    }
  }
}
