/** The HTML alternative of the report email: the body paragraph, then a
    bordered table whose header cells are the first row of the report table
    and whose body has one table row per later row. Cell text is inserted as
    it is, without escaping.

    The document is built as a list of lines that are joined with newlines;
    the model keeps the list, on which the rendering has an inverse. */
module HtmlTable {
  import opened Seqs
  import Csv

  const Opening: seq<string> := ["<html><body>"]
  const TableOpen: string := "<table border=\"1\" cellpadding=\"6\" cellspacing=\"0\" style=\"border-collapse:collapse\">"
  const HeadOpen: string := "<thead><tr>"
  const HeadClose: string := "</tr></thead>"
  const BodyOpen: string := "<tbody>"
  const Closing: string := "</tbody></table></body></html>"
  const ThOpen: string := "<th style=\"background:#eee\">"
  const ThClose: string := "</th>"
  const TdOpen: string := "<td>"
  const TdClose: string := "</td>"
  const TrOpen: string := "<tr>"
  const TrClose: string := "</tr>"

  /** One line per cell, each the cell's text between `open` and `close`. */
  function Wrap(cells: seq<string>, open: string, close: string): (r: seq<string>)
    ensures |r| == |cells|
    ensures forall i :: 0 <= i < |cells| ==> r[i] == open + cells[i] + close
  {
    if cells == [] then []
    else Wrap(cells[..|cells| - 1], open, close) + [open + cells[|cells| - 1] + close]
  }

  /** The lines of one body row of the table. */
  function RowLines(row: Csv.Row): seq<string>
  {
    [TrOpen] + Wrap(row, TdOpen, TdClose) + [TrClose]
  }

  /** The lines of the table body: the rows' lines, in order. */
  function BodyRows(rows: seq<Csv.Row>): seq<string>
  {
    if rows == [] then []
    else BodyRows(rows[..|rows| - 1]) + RowLines(rows[|rows| - 1])
  }

  /** The lines before the header cells. */
  function Prelude(body: string): seq<string>
  {
    Opening + ["<p>" + body + "</p>", TableOpen, HeadOpen]
  }

  /** The lines of the HTML document for a non-empty table. */
  function HtmlLines(body: string, rows: seq<Csv.Row>): seq<string>
    requires rows != []
  {
    Prelude(body) + Wrap(rows[0], ThOpen, ThClose) + [HeadClose, BodyOpen] + BodyRows(rows[1..]) + [Closing]
  }

  /** One line per cell, built by appending in order. */
  method CellLines(cells: seq<string>, open: string, close: string) returns (lines: seq<string>)
    ensures lines == Wrap(cells, open, close)
  {
    lines := [];
    for i := 0 to |cells|
      invariant lines == Wrap(cells[..i], open, close)
    {
      PrefixStep(cells, i);
      lines := lines + [open + cells[i] + close];
    }
    WholeSlice(cells);
  }

  /** The HTML rendering in `build_message`, line by line: the header cells,
      then each later row with its cells. */
  method RenderHtml(body: string, rows: seq<Csv.Row>) returns (html: seq<string>)
    requires rows != []
    ensures html == HtmlLines(body, rows)
  {
    var head := CellLines(rows[0], ThOpen, ThClose);
    html := Prelude(body) + head + [HeadClose, BodyOpen];
    ghost var top := html;
    var later := rows[1..];
    for j := 0 to |later|
      invariant html == top + BodyRows(later[..j])
    {
      PrefixStep(later, j);
      var cells := CellLines(later[j], TdOpen, TdClose);
      html := html + ([TrOpen] + cells + [TrClose]);
    }
    WholeSlice(later);
    html := html + [Closing];
  }

  // Reading the document back.

  /** A line made of `open`, some text, and `close`. */
  predicate IsCellLine(line: string, open: string, close: string)
  {
    |open| + |close| <= |line| && line[..|open|] == open && line[|line| - |close|..] == close
  }

  /** The text of a cell line. */
  function Inner(line: string, open: string, close: string): string
    requires IsCellLine(line, open, close)
  {
    line[|open|..|line| - |close|]
  }

  /** The texts of the leading cell lines, and the lines after them. */
  function TakeCells(lines: seq<string>, open: string, close: string): (r: (seq<string>, seq<string>))
    ensures |r.1| <= |lines|
    decreases |lines|
  {
    if lines != [] && IsCellLine(lines[0], open, close) then
      var t := TakeCells(lines[1..], open, close);
      ([Inner(lines[0], open, close)] + t.0, t.1)
    else ([], lines)
  }

  /** The rows of a table body, read back from its lines. */
  function ParseBodyRows(lines: seq<string>): seq<Csv.Row>
    decreases |lines|
  {
    if lines != [] && lines[0] == TrOpen then
      var t := TakeCells(lines[1..], TdOpen, TdClose);
      if t.1 != [] && t.1[0] == TrClose then [t.0] + ParseBodyRows(t.1[1..]) else [t.0]
    else []
  }

  /** The table rows, read back from the lines of a document. */
  function ParseTable(lines: seq<string>): seq<Csv.Row>
  {
    if |lines| >= 4 && lines[3] == HeadOpen then
      var t := TakeCells(lines[4..], ThOpen, ThClose);
      if |t.1| >= 2 && t.1[0] == HeadClose && t.1[1] == BodyOpen then [t.0] + ParseBodyRows(t.1[2..]) else [t.0]
    else []
  }

  lemma InnerOf(cell: string, open: string, close: string)
    ensures IsCellLine(open + cell + close, open, close)
    ensures Inner(open + cell + close, open, close) == cell
  {
    var line := open + cell + close;
    assert line[..|open|] == open;
    assert line[|line| - |close|..] == close;
    assert line[|open|..|line| - |close|] == cell;
  }

  /** The cell lines of `cells` read back as `cells`, up to the first line
      that is not a cell line. */
  lemma {:induction false} TakeWrapped(cells: seq<string>, open: string, close: string, tail: seq<string>)
    requires tail == [] || !IsCellLine(tail[0], open, close)
    ensures TakeCells(Wrap(cells, open, close) + tail, open, close) == (cells, tail)
    decreases |cells|
  {
    var lines := Wrap(cells, open, close) + tail;
    if cells == [] {
      assert lines == tail;
    } else {
      InnerOf(cells[0], open, close);
      assert lines[0] == open + cells[0] + close;
      assert lines[1..] == Wrap(cells[1..], open, close) + tail;
      TakeWrapped(cells[1..], open, close, tail);
      assert [cells[0]] + cells[1..] == cells;
    }
  }

  /** The body lines, seen from the front: the first row's lines, then the rest. */
  lemma {:induction false} BodyRowsFront(rows: seq<Csv.Row>)
    requires rows != []
    ensures BodyRows(rows) == RowLines(rows[0]) + BodyRows(rows[1..])
    decreases |rows|
  {
    if |rows| > 1 {
      var init := rows[..|rows| - 1];
      BodyRowsFront(init);
      InitTail(rows);
      var last := rows[|rows| - 1];
      calc {
        BodyRows(rows);
        BodyRows(init) + RowLines(last);
        RowLines(rows[0]) + BodyRows(init[1..]) + RowLines(last);
        RowLines(rows[0]) + (BodyRows(rows[1..][..|rows| - 2]) + RowLines(rows[1..][|rows| - 2]));
        RowLines(rows[0]) + BodyRows(rows[1..]);
      }
    } else {
      assert rows[1..] == [];
      assert rows[..0] == [];
    }
  }

  lemma NotTdLine(line: string)
    requires |line| < |TdOpen| + |TdClose|
    ensures !IsCellLine(line, TdOpen, TdClose)
  {
  }

  /** One row's lines read back as that row, followed by what comes after. */
  lemma ParseOneRow(row: Csv.Row, more: seq<string>)
    ensures ParseBodyRows(RowLines(row) + more) == [row] + ParseBodyRows(more)
  {
    var rest := [TrClose] + more;
    var lines := RowLines(row) + more;
    assert lines == [TrOpen] + (Wrap(row, TdOpen, TdClose) + rest);
    assert lines[1..] == Wrap(row, TdOpen, TdClose) + rest;
    NotTdLine(TrClose);
    TakeWrapped(row, TdOpen, TdClose, rest);
    assert rest[1..] == more;
  }

  /** The body rows read back as they were, up to a line that does not open a row. */
  lemma {:induction false} ParseBodyRowsOf(rows: seq<Csv.Row>, tail: seq<string>)
    requires tail == [] || tail[0] != TrOpen
    ensures ParseBodyRows(BodyRows(rows) + tail) == rows
    decreases |rows|
  {
    if rows == [] {
      assert BodyRows(rows) + tail == tail;
    } else {
      BodyRowsFront(rows);
      assert BodyRows(rows) + tail == RowLines(rows[0]) + (BodyRows(rows[1..]) + tail);
      ParseOneRow(rows[0], BodyRows(rows[1..]) + tail);
      ParseBodyRowsOf(rows[1..], tail);
      assert [rows[0]] + rows[1..] == rows;
    }
  }

  /** The header cells read back as the first row, followed by the body. */
  lemma ParseHeader(body: string, cols: Csv.Row, more: seq<string>)
    ensures ParseTable(Prelude(body) + Wrap(cols, ThOpen, ThClose) + [HeadClose, BodyOpen] + more)
         == [cols] + ParseBodyRows(more)
  {
    var after := [HeadClose, BodyOpen] + more;
    var lines := Prelude(body) + Wrap(cols, ThOpen, ThClose) + [HeadClose, BodyOpen] + more;
    assert |Prelude(body)| == 4 && Prelude(body)[3] == HeadOpen;
    assert lines == Prelude(body) + (Wrap(cols, ThOpen, ThClose) + after);
    assert lines[4..] == Wrap(cols, ThOpen, ThClose) + after;
    assert !IsCellLine(HeadClose, ThOpen, ThClose) by {
      assert |HeadClose| < |ThOpen| + |ThClose|;
    }
    TakeWrapped(cols, ThOpen, ThClose, after);
    assert after[2..] == more;
  }

  /** Rendering loses nothing: the rows read back from the document are the
      rows it was rendered from, header row first, every cell in order. */
  lemma RenderParseRoundTrip(body: string, rows: seq<Csv.Row>)
    requires rows != []
    ensures ParseTable(HtmlLines(body, rows)) == rows
  {
    ParseHeader(body, rows[0], BodyRows(rows[1..]) + [Closing]);
    assert HtmlLines(body, rows) == Prelude(body) + Wrap(rows[0], ThOpen, ThClose) + [HeadClose, BodyOpen] + (BodyRows(rows[1..]) + [Closing]);
    ParseBodyRowsOf(rows[1..], [Closing]);
    assert [rows[0]] + rows[1..] == rows;
  }
}
