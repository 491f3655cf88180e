/**
 * The CSV reader of frontend/web/src/components/ImportModal.tsx, and a printer
 * for section 2 of RFC 4180 that it undoes.
 */
module Csv {
  type Row = seq<string>

  // ---------------------------------------------------------------- blank rows

  /** The characters that JavaScript's `trim` removes. */
  predicate IsSpace(c: char) {
    || '\t' <= c <= '\r' || c == ' ' || c == '\U{A0}' || c == '\U{1680}' || '\U{2000}' <= c <= '\U{200A}'
    || c == '\U{2028}' || c == '\U{2029}' || c == '\U{202F}' || c == '\U{205F}' || c == '\U{3000}' || c == '\U{FEFF}'
  }

  predicate Blank(cell: string) {
    forall i :: 0 <= i < |cell| ==> IsSpace(cell[i])
  }

  predicate Kept(row: Row) {
    exists i :: 0 <= i < |row| && !Blank(row[i])
  }

  function KeptRows(rows: seq<Row>): seq<Row> {
    if rows == [] then [] else (if Kept(rows[0]) then [rows[0]] else []) + KeptRows(rows[1..])
  }

  lemma {:induction false} KeptRowsAppend(a: seq<Row>, b: seq<Row>)
    ensures KeptRows(a + b) == KeptRows(a) + KeptRows(b)
  {
    if a == [] {
      assert a + b == b;
    } else {
      assert (a + b)[0] == a[0] && (a + b)[1..] == a[1..] + b;
      KeptRowsAppend(a[1..], b);
    }
  }

  lemma {:induction false} KeptRowsAll(rows: seq<Row>)
    ensures forall i :: 0 <= i < |KeptRows(rows)| ==> Kept(KeptRows(rows)[i])
    ensures (forall i :: 0 <= i < |rows| ==> Kept(rows[i])) ==> KeptRows(rows) == rows
  {
    if rows != [] {
      KeptRowsAll(rows[1..]);
    }
  }

  // ---------------------------------------------------------------- the scan

  /** The rows read from `text` in a state of the scan. */
  function Scan(text: string, rows: seq<Row>, row: Row, field: string, inQuotes: bool): seq<Row>
    decreases |text|
  {
    if text == [] then
      if field != "" || row != [] then rows + [row + [field]] else rows
    else if inQuotes then
      if text[0] != '"' then Scan(text[1..], rows, row, field + [text[0]], true)
      else if |text| > 1 && text[1] == '"' then Scan(text[2..], rows, row, field + "\"", true)
      else Scan(text[1..], rows, row, field, false)
    else if text[0] == '"' then Scan(text[1..], rows, row, field, true)
    else if text[0] == ',' then Scan(text[1..], rows, row + [field], "", false)
    else if text[0] == '\r' && |text| > 1 && text[1] == '\n' then Scan(text[2..], rows + [row + [field]], [], "", false)
    else if text[0] == '\n' then Scan(text[1..], rows + [row + [field]], [], "", false)
    else Scan(text[1..], rows, row, field + [text[0]], false)
  }

  function Parse(text: string): seq<Row> {
    KeptRows(Scan(text, [], [], "", false))
  }

  /** The reader's loop. It ends on every input, balanced quotes or not. */
  method ParseCsvRows(text: string) returns (kept: seq<Row>)
    ensures kept == Parse(text)
  {
    var rows: seq<Row>, row: Row, field, inQuotes, i := [], [], "", false, 0;
    while i < |text|
      invariant 0 <= i <= |text|
      invariant Scan(text[i..], rows, row, field, inQuotes) == Scan(text, [], [], "", false)
    {
      var ch := text[i];
      var next := if i + 1 < |text| then [text[i + 1]] else "";
      assert text[i..][1..] == text[i + 1..];
      assert i + 1 < |text| ==> text[i..][2..] == text[i + 2..];
      if inQuotes {
        if ch == '"' {
          if next == "\"" {
            field := field + "\"";
            i := i + 2;
          } else {
            inQuotes := false;
            i := i + 1;
          }
        } else {
          field := field + [ch];
          i := i + 1;
        }
      } else {
        if ch == '"' {
          inQuotes := true;
          i := i + 1;
        } else if ch == ',' {
          row := row + [field];
          field := "";
          i := i + 1;
        } else if ch == '\r' && next == "\n" {
          row := row + [field];
          field := "";
          rows := rows + [row];
          row := [];
          i := i + 2;
        } else if ch == '\n' {
          row := row + [field];
          field := "";
          rows := rows + [row];
          row := [];
          i := i + 1;
        } else {
          field := field + [ch];
          i := i + 1;
        }
      }
    }
    if field != "" || |row| > 0 {
      row := row + [field];
      rows := rows + [row];
    }
    kept := KeptRows(rows);
  }

  // ---------------------------------------------------------------- RFC 4180, section 2

  /** A cell and whether it is written between quotes. */
  datatype Cell = Cell(text: string, quoted: bool)
  {
    /** Commas, quotes and line breaks may only be written between quotes. */
    predicate Printable() {
      quoted || forall i :: 0 <= i < |text| ==> text[i] !in ",\"\r\n"
    }
  }

  datatype Line = Line(cells: seq<Cell>, crlf: bool)
  {
    predicate Printable() {
      cells != [] && forall i :: 0 <= i < |cells| ==> cells[i].Printable()
    }
    function Texts(): Row {
      seq(|cells|, i requires 0 <= i < |cells| => cells[i].text)
    }
    function End(): string {
      if crlf then "\r\n" else "\n"
    }
  }

  predicate PrintableTable(table: seq<Line>) {
    forall i :: 0 <= i < |table| ==> table[i].Printable()
  }

  function TableTexts(table: seq<Line>): seq<Row> {
    seq(|table|, i requires 0 <= i < |table| => table[i].Texts())
  }

  function Doubled(text: string): string {
    if text == [] then [] else (if text[0] == '"' then "\"\"" else [text[0]]) + Doubled(text[1..])
  }

  function PrintCell(cell: Cell): string {
    if cell.quoted then "\"" + Doubled(cell.text) + "\"" else cell.text
  }

  function PrintCells(cells: seq<Cell>): string
    requires cells != []
  {
    if |cells| == 1 then PrintCell(cells[0]) else PrintCell(cells[0]) + "," + PrintCells(cells[1..])
  }

  /** The table as text; the last line's end is optional. */
  function Print(table: seq<Line>, finalEnd: bool): string
    requires PrintableTable(table)
  {
    if table == [] then []
    else
      PrintCells(table[0].cells)
      + (if |table| > 1 || finalEnd then table[0].End() else "")
      + Print(table[1..], finalEnd)
  }

  // ---------------------------------------------------------------- the scan undoes the printer

  /** What may follow a cell. */
  predicate EndsCell(rest: string) {
    rest == "" || rest[0] == ',' || rest[0] == '\n' || (|rest| > 1 && rest[0] == '\r' && rest[1] == '\n')
  }

  lemma {:induction false} ScanPlain(text: string, rest: string, rows: seq<Row>, row: Row, field: string)
    requires forall i :: 0 <= i < |text| ==> text[i] !in ",\"\r\n"
    ensures Scan(text + rest, rows, row, field, false) == Scan(rest, rows, row, field + text, false)
    decreases |text|
  {
    if text == "" {
      assert text + rest == rest && field + text == field;
    } else {
      assert text[0] !in ",\"\r\n";
      assert (text + rest)[0] == text[0] && (text + rest)[1..] == text[1..] + rest;
      ScanPlain(text[1..], rest, rows, row, field + [text[0]]);
      assert field + [text[0]] + text[1..] == field + text;
    }
  }

  lemma {:induction false} ScanQuoted(text: string, rest: string, rows: seq<Row>, row: Row, field: string)
    requires EndsCell(rest)
    ensures Scan(Doubled(text) + "\"" + rest, rows, row, field, true) == Scan(rest, rows, row, field + text, false)
    decreases |text|
  {
    var all := Doubled(text) + "\"" + rest;
    if text == "" {
      assert all == "\"" + rest && all[1..] == rest && field + text == field;
    } else {
      var tail := Doubled(text[1..]) + "\"" + rest;
      assert field + [text[0]] + text[1..] == field + text;
      if text[0] == '"' {
        assert all == "\"\"" + tail;
        assert all[2..] == tail;
      } else {
        assert all == [text[0]] + tail;
        assert all[1..] == tail;
      }
      ScanQuoted(text[1..], rest, rows, row, field + [text[0]]);
    }
  }

  lemma ScanCell(cell: Cell, rest: string, rows: seq<Row>, row: Row)
    requires cell.Printable() && EndsCell(rest)
    ensures Scan(PrintCell(cell) + rest, rows, row, "", false) == Scan(rest, rows, row, cell.text, false)
  {
    assert "" + cell.text == cell.text;
    if cell.quoted {
      var all := PrintCell(cell) + rest;
      assert all[0] == '"' && all[1..] == Doubled(cell.text) + "\"" + rest;
      ScanQuoted(cell.text, rest, rows, row, "");
    } else {
      ScanPlain(cell.text, rest, rows, row, "");
    }
  }

  lemma ScanComma(tail: string, rows: seq<Row>, row: Row, field: string)
    ensures Scan("," + tail, rows, row, field, false) == Scan(tail, rows, row + [field], "", false)
  {
    assert ("," + tail)[1..] == tail;
  }

  function Texts(cells: seq<Cell>): (r: Row)
    ensures |r| == |cells|
  {
    Line(cells, false).Texts()
  }

  /** A line up to its end: all cells but the last are pushed, the last is the current field. */
  lemma {:induction false} ScanCells(cells: seq<Cell>, rest: string, rows: seq<Row>, row: Row)
    requires Line(cells, false).Printable()
    requires EndsCell(rest) && (rest == "" || rest[0] != ',')
    ensures Scan(PrintCells(cells) + rest, rows, row, "", false)
         == Scan(rest, rows, row + Texts(cells)[..|cells| - 1], cells[|cells| - 1].text, false)
    decreases |cells|
  {
    hide Scan, PrintCell;
    if |cells| == 1 {
      ScanCell(cells[0], rest, rows, row);
      assert row + Texts(cells)[..0] == row;
    } else {
      var tail := PrintCells(cells[1..]) + rest;
      assert PrintCells(cells) + rest == PrintCell(cells[0]) + ("," + tail);
      ScanCell(cells[0], "," + tail, rows, row);
      ScanComma(tail, rows, row, cells[0].text);
      assert Line(cells[1..], false).Printable();
      ScanCells(cells[1..], rest, rows, row + [cells[0].text]);
      assert row + [cells[0].text] + Texts(cells[1..])[..|cells| - 2] == row + Texts(cells)[..|cells| - 1];
    }
  }

  lemma ScanEnd(line: Line, rest: string, rows: seq<Row>, row: Row, field: string)
    ensures Scan(line.End() + rest, rows, row, field, false) == Scan(rest, rows + [row + [field]], [], "", false)
  {
    var all := line.End() + rest;
    assert all[|line.End()|..] == rest;
  }

  /** A line and its end: the row is finished. */
  lemma ScanLine(line: Line, rest: string, rows: seq<Row>)
    requires line.Printable()
    ensures Scan(PrintCells(line.cells) + line.End() + rest, rows, [], "", false)
         == Scan(rest, rows + [line.Texts()], [], "", false)
  {
    hide Scan, PrintCells, Texts, Line.Texts;
    var end, last := line.End() + rest, |line.cells| - 1;
    assert PrintCells(line.cells) + line.End() + rest == PrintCells(line.cells) + end;
    assert Line(line.cells, false).Printable();
    ScanCells(line.cells, end, rows, []);
    ScanEnd(line, rest, rows, [] + Texts(line.cells)[..last], line.cells[last].text);
    LastText(line);
  }

  lemma LastText(line: Line)
    requires line.Printable()
    ensures [] + Texts(line.cells)[..|line.cells| - 1] + [line.cells[|line.cells| - 1].text] == line.Texts()
  {
  }

  /** The last line without an end: an empty single cell leaves nothing to flush, and is blank. */
  lemma ScanLastLine(line: Line, rows: seq<Row>)
    requires line.Printable()
    ensures KeptRows(Scan(PrintCells(line.cells), rows, [], "", false)) == KeptRows(rows + [line.Texts()])
  {
    hide Scan, PrintCells, Texts, Line.Texts, Kept, KeptRows;
    var last := |line.cells| - 1;
    assert Line(line.cells, false).Printable();
    ScanCells(line.cells, "", rows, []);
    assert PrintCells(line.cells) + "" == PrintCells(line.cells);
    ScanFlush(rows, [] + Texts(line.cells)[..last], line.cells[last].text);
    LastText(line);
  }

  /** What is left over at the end of the text: a row, or nothing where a blank row would be. */
  lemma ScanFlush(rows: seq<Row>, row: Row, field: string)
    ensures KeptRows(Scan("", rows, row, field, false)) == KeptRows(rows + [row + [field]])
  {
    if field == "" && row == [] {
      assert !Kept([field]) && row + [field] == [field];
      KeptRowsAppend(rows, [[field]]);
    }
  }

  lemma {:induction false} ScanTable(table: seq<Line>, finalEnd: bool, rows: seq<Row>)
    requires PrintableTable(table)
    ensures KeptRows(Scan(Print(table, finalEnd), rows, [], "", false)) == KeptRows(rows + TableTexts(table))
    decreases |table|
  {
    hide Kept, PrintCells, Line.Texts;
    if table == [] {
      assert rows + TableTexts(table) == rows;
    } else if |table| == 1 && !finalEnd {
      ScanLastLine(table[0], rows);
      assert Print(table, finalEnd) == PrintCells(table[0].cells);
      assert TableTexts(table) == [table[0].Texts()];
    } else {
      ScanLine(table[0], Print(table[1..], finalEnd), rows);
      ScanTable(table[1..], finalEnd, rows + [table[0].Texts()]);
      assert rows + [table[0].Texts()] + TableTexts(table[1..]) == rows + TableTexts(table);
    }
  }

  // ---------------------------------------------------------------- main results

  /**
   * Reading undoes printing for every table, whichever cells are quoted and
   * whichever line ends are written; only the rows without a non-blank cell drop out.
   */
  lemma {:induction false} ParseUndoesPrint(table: seq<Line>, finalEnd: bool)
    requires PrintableTable(table)
    ensures Parse(Print(table, finalEnd)) == KeptRows(TableTexts(table))
    ensures (forall i :: 0 <= i < |table| ==> Kept(table[i].Texts()))
        ==> Parse(Print(table, finalEnd)) == TableTexts(table)
  {
    ScanTable(table, finalEnd, []);
    assert [] + TableTexts(table) == TableTexts(table);
    KeptRowsAll(TableTexts(table));
  }

  /** A whole table comes back when each of its rows has a cell with a visible ASCII character. */
  lemma {:induction false} VisibleRowsComeBack(table: seq<Line>, finalEnd: bool)
    requires PrintableTable(table)
    requires forall i :: 0 <= i < |table| ==>
      exists j, k :: 0 <= j < |table[i].cells| && 0 <= k < |table[i].cells[j].text| && '!' <= table[i].cells[j].text[k] <= '~'
    ensures Parse(Print(table, finalEnd)) == TableTexts(table)
  {
    ParseUndoesPrint(table, finalEnd);
    forall i | 0 <= i < |table| ensures Kept(table[i].Texts()) {
      var j, k :| 0 <= j < |table[i].cells| && 0 <= k < |table[i].cells[j].text| && '!' <= table[i].cells[j].text[k] <= '~';
      assert table[i].Texts()[j] == table[i].cells[j].text;
      assert !IsSpace(table[i].cells[j].text[k]);
    }
    hide *;
  }

  /** A row of nothing but spaces, tabs and line breaks leaves no trace, whatever rows stand around it. */
  lemma WhiteRowVanishes(before: seq<Line>, white: Line, after: seq<Line>, finalEnd: bool)
    requires PrintableTable(before) && PrintableTable([white]) && PrintableTable(after)
    requires forall j, k :: 0 <= j < |white.cells| && 0 <= k < |white.cells[j].text| ==> white.cells[j].text[k] in " \t\r\n"
    ensures PrintableTable(before + [white] + after) && PrintableTable(before + after)
    ensures Parse(Print(before + [white] + after, finalEnd)) == Parse(Print(before + after, finalEnd))
  {
    hide Print, Parse, Kept, KeptRows, TableTexts, PrintableTable;
    TablesJoin(before, [white]);
    TablesJoin(before + [white], after);
    TablesJoin(before, after);
    ParseUndoesPrint(before + [white] + after, finalEnd);
    ParseUndoesPrint(before + after, finalEnd);
    WhiteNotKept(white);
    KeptRowsAppend(TableTexts(before) + TableTexts([white]), TableTexts(after));
    KeptRowsAppend(TableTexts(before), TableTexts([white]));
    KeptRowsAppend(TableTexts(before), TableTexts(after));
  }

  lemma TablesJoin(a: seq<Line>, b: seq<Line>)
    requires PrintableTable(a) && PrintableTable(b)
    ensures PrintableTable(a + b) && TableTexts(a + b) == TableTexts(a) + TableTexts(b)
  {
    hide Line.Texts, Line.Printable;
  }

  lemma WhiteNotKept(white: Line)
    requires forall j, k :: 0 <= j < |white.cells| && 0 <= k < |white.cells[j].text| ==> white.cells[j].text[k] in " \t\r\n"
    ensures KeptRows(TableTexts([white])) == []
  {
    var row := white.Texts();
    forall j | 0 <= j < |row| ensures Blank(row[j]) {
      assert row[j] == white.cells[j].text;
    }
    assert TableTexts([white]) == [row] && KeptRows([row][1..]) == [];
  }

  /** The rows with every cell between quotes. */
  function AllQuoted(rows: seq<Row>): seq<Line> {
    seq(|rows|, i requires 0 <= i < |rows| =>
      Line(seq(|rows[i]|, j requires 0 <= j < |rows[i]| => Cell(rows[i][j], true)), true))
  }

  /** What is read from any text at all survives being printed and read again. */
  lemma {:induction false} ParseIsStable(text: string, finalEnd: bool)
    ensures forall i :: 0 <= i < |Parse(text)| ==> Kept(Parse(text)[i])
    ensures PrintableTable(AllQuoted(Parse(text)))
    ensures Parse(Print(AllQuoted(Parse(text)), finalEnd)) == Parse(text)
  {
    var rows := Parse(text);
    KeptRowsAll(Scan(text, [], [], "", false));
    var table := AllQuoted(rows);
    forall i | 0 <= i < |table| ensures table[i].Printable() && table[i].Texts() == rows[i] {
      assert Kept(rows[i]);
    }
    ParseUndoesPrint(table, finalEnd);
    assert TableTexts(table) == rows;
  }
}
