/** CSV cells and rows from src/core/export.rs and src/runtime/export.rs, read back
    by the grammar of RFC 4180. */
module CsvTables {
  import opened Wrappers
  import Pointers

  predicate NeedsQuotes(s: string) {
    exists i :: 0 <= i < |s| && s[i] in {',', '"', '\r', '\n'}
  }

  function Doubled(s: string): string {
    Pointers.ReplaceChar(s, '"', "\"\"")
  }

  function CsvCell(s: string): string {
    if NeedsQuotes(s) then "\"" + Doubled(s) + "\"" else s
  }

  /** The cells of a row, separated by commas and ended by a line break. */
  function CsvRow(cells: seq<string>): string
    requires cells != []
  {
    if |cells| == 1 then CsvCell(cells[0]) + "\r\n" else CsvCell(cells[0]) + "," + CsvRow(cells[1..])
  }

  function CsvTable(rows: seq<seq<string>>): string
    requires forall i :: 0 <= i < |rows| ==> rows[i] != []
  {
    if rows == [] then "" else CsvRow(rows[0]) + CsvTable(rows[1..])
  }

  // ----- the grammar of section 2 of RFC 4180 -----

  datatype Cell = Cell(text: string, rest: string)

  /** An unquoted cell ends before the next comma or line break. */
  function ReadPlain(s: string): (cell: Cell)
    ensures |cell.rest| <= |s|
  {
    if s == "" || s[0] in {',', '\r', '\n'} then Cell("", s)
    else
      var tail := ReadPlain(s[1..]);
      Cell([s[0]] + tail.text, tail.rest)
  }

  /** A quoted cell, after its opening quote, ends at the first quote that is not
      doubled. */
  function ReadQuoted(s: string): (cell: Option<Cell>)
    ensures cell.Some? ==> |cell.value.rest| < |s|
  {
    if s == "" then None
    else if s[0] != '"' then
      match ReadQuoted(s[1..])
      case None => None
      case Some(tail) => Some(Cell([s[0]] + tail.text, tail.rest))
    else if |s| > 1 && s[1] == '"' then
      match ReadQuoted(s[2..])
      case None => None
      case Some(tail) => Some(Cell(['"'] + tail.text, tail.rest))
    else Some(Cell("", s[1..]))
  }

  function ReadCell(s: string): (cell: Option<Cell>)
    ensures cell.Some? ==> |cell.value.rest| <= |s|
  {
    if s != "" && s[0] == '"' then ReadQuoted(s[1..]) else Some(ReadPlain(s))
  }

  datatype Row = Row(cells: seq<string>, rest: string)

  function ReadRow(s: string): (row: Option<Row>)
    ensures row.Some? ==> |row.value.rest| < |s|
    decreases |s|
  {
    match ReadCell(s)
    case None => None
    case Some(cell) =>
      if cell.rest != "" && cell.rest[0] == ',' then
        match ReadRow(cell.rest[1..])
        case None => None
        case Some(row) => Some(Row([cell.text] + row.cells, row.rest))
      else if |cell.rest| >= 2 && cell.rest[0] == '\r' && cell.rest[1] == '\n' then
        Some(Row([cell.text], cell.rest[2..]))
      else None
  }

  function ReadTable(s: string): Option<seq<seq<string>>>
    decreases |s|
  {
    if s == "" then Some([])
    else
      match ReadRow(s)
      case None => None
      case Some(row) =>
        match ReadTable(row.rest)
        case None => None
        case Some(rows) => Some([row.cells] + rows)
  }

  // ----- reading back -----

  predicate EndsCell(rest: string) {
    rest != "" && (rest[0] == ',' || rest[0] == '\r')
  }

  lemma {:induction false} ReadPlainCell(s: string, rest: string)
    requires !NeedsQuotes(s) && EndsCell(rest)
    ensures ReadPlain(s + rest) == Cell(s, rest)
  {
    if s == "" {
      assert s + rest == rest;
    } else {
      assert (s + rest)[1..] == s[1..] + rest && (s + rest)[0] == s[0];
      assert s[0] !in {',', '"', '\r', '\n'};
      assert forall i :: 0 <= i < |s[1..]| ==> s[1..][i] == s[i + 1];
      ReadPlainCell(s[1..], rest);
      assert s == [s[0]] + s[1..];
    }
  }

  lemma {:induction false} ReadQuotedCell(s: string, rest: string)
    requires EndsCell(rest)
    ensures ReadQuoted(Doubled(s) + "\"" + rest) == Some(Cell(s, rest))
  {
    if s == "" {
      assert Doubled(s) + "\"" + rest == ['"'] + rest;
      assert (['"'] + rest)[1..] == rest;
    } else {
      var tail := Doubled(s[1..]) + "\"" + rest;
      ReadQuotedCell(s[1..], rest);
      assert s == [s[0]] + s[1..];
      if s[0] == '"' {
        assert Doubled(s) + "\"" + rest == ['"', '"'] + tail;
        assert (['"', '"'] + tail)[2..] == tail;
      } else {
        assert Doubled(s) + "\"" + rest == [s[0]] + tail;
        assert ([s[0]] + tail)[1..] == tail;
      }
    }
  }

  /** A cell is read back with its contents unchanged, quoted or not. */
  lemma CellReadsBack(s: string, rest: string)
    requires EndsCell(rest)
    ensures ReadCell(CsvCell(s) + rest) == Some(Cell(s, rest))
  {
    if NeedsQuotes(s) {
      ReadQuotedCell(s, rest);
      var tail := Doubled(s) + "\"" + rest;
      assert CsvCell(s) + rest == ['"'] + tail;
      assert (['"'] + tail)[1..] == tail;
    } else {
      ReadPlainCell(s, rest);
      assert s != "" ==> (s + rest)[0] == s[0] && s[0] != '"';
    }
  }

  lemma {:induction false} RowReadsBack(cells: seq<string>, rest: string)
    requires cells != []
    ensures ReadRow(CsvRow(cells) + rest) == Some(Row(cells, rest))
  {
    hide CsvCell;
    hide ReadCell;
    var text := CsvCell(cells[0]);
    if |cells| == 1 {
      assert text + "\r\n" + rest == text + ("\r\n" + rest);
      CellReadsBack(cells[0], "\r\n" + rest);
      assert ("\r\n" + rest)[2..] == rest;
      assert cells == [cells[0]];
    } else {
      var more := CsvRow(cells[1..]) + rest;
      RowReadsBack(cells[1..], rest);
      assert CsvRow(cells) + rest == text + ("," + more);
      CellReadsBack(cells[0], "," + more);
      assert ("," + more)[1..] == more;
      assert cells == [cells[0]] + cells[1..];
    }
  }

  /** Any table of nonempty rows survives export to CSV. */
  lemma {:induction false} TableReadsBack(rows: seq<seq<string>>)
    requires forall i :: 0 <= i < |rows| ==> rows[i] != []
    ensures ReadTable(CsvTable(rows)) == Some(rows)
  {
    hide ReadRow;
    hide CsvRow;
    if rows != [] {
      TableReadsBack(rows[1..]);
      RowReadsBack(rows[0], CsvTable(rows[1..]));
      RowIsNotEmpty(rows[0]);
      assert rows == [rows[0]] + rows[1..];
    }
  }

  lemma RowIsNotEmpty(cells: seq<string>)
    requires cells != []
    ensures CsvRow(cells) != ""
  {}
}
