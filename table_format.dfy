/** simple_table: the plain-text table the database viewer prints. Each column
    is as wide as its widest entry (header or cell); every line left-justifies
    its cells to those widths and joins them with " | "; a line of dashes as
    long as the others separates the header from the rows. Cells are given
    already converted to text. A row with more cells than there are headers
    raises while the widths are measured, and one with fewer raises while it
    is formatted; both are the None result here. */
module TableFormat {
  import opened Wrappers
  import opened Text

  const CellSeparator := " | "

  function Max(a: int, b: int): int { if a >= b then a else b }

  function Sum(xs: seq<int>): int
  {
    if xs == [] then 0 else xs[0] + Sum(xs[1..])
  }

  /** The width of column c over the header and the rows seen so far: the
      length of the longest of the header and the c-th cells of the rows that
      have one. */
  function ColumnWidth(headers: seq<string>, rows: seq<seq<string>>, c: int): int
    requires 0 <= c < |headers|
    decreases |rows|
  {
    if |rows| == 0 then |headers[c]|
    else
      var w := ColumnWidth(headers, rows[..|rows| - 1], c);
      var last := rows[|rows| - 1];
      if c < |last| then Max(w, |last[c]|) else w
  }

  /** The measured width is the longest of the header and the c-th cells present. */
  lemma {:induction false} ColumnWidthIsLongest(headers: seq<string>, rows: seq<seq<string>>, c: int)
    requires 0 <= c < |headers|
    ensures ColumnWidth(headers, rows, c) >= |headers[c]|
    ensures forall j :: 0 <= j < |rows| && c < |rows[j]| ==> ColumnWidth(headers, rows, c) >= |rows[j][c]|
    ensures ColumnWidth(headers, rows, c) == |headers[c]|
      || exists j :: 0 <= j < |rows| && c < |rows[j]| && ColumnWidth(headers, rows, c) == |rows[j][c]|
    decreases |rows|
  {
    if |rows| > 0 {
      var init := rows[..|rows| - 1];
      ColumnWidthIsLongest(headers, init, c);
      assert forall j :: 0 <= j < |rows| - 1 ==> init[j] == rows[j];
    }
  }

  /** col_widths once every row has been measured. */
  function Widths(headers: seq<string>, rows: seq<seq<string>>): (ws: seq<int>)
    ensures |ws| == |headers|
  {
    seq(|headers|, c requires 0 <= c < |headers| => ColumnWidth(headers, rows, c))
  }

  /** Python's s.ljust(w), what the "{:<w}" field does to a string. */
  function PadRight(s: string, w: int): (r: string)
    ensures |r| == Max(|s|, w)
    ensures r[..|s|] == s
    ensures forall k :: |s| <= k < |r| ==> r[k] == ' '
  {
    s + Repeat(' ', w - |s|)
  }

  function Padded(cells: seq<string>, widths: seq<int>): (ps: seq<string>)
    requires |cells| == |widths|
    ensures |ps| == |cells|
    ensures forall c :: 0 <= c < |cells| ==> ps[c] == PadRight(cells[c], widths[c])
  {
    if cells == [] then [] else [PadRight(cells[0], widths[0])] + Padded(cells[1..], widths[1..])
  }

  /** row_format.format(*cells). */
  function FormatRow(cells: seq<string>, widths: seq<int>): string
    requires |cells| == |widths|
  {
    Join(Padded(cells, widths), CellSeparator)
  }

  /** The dashes under the header: the widths plus three characters per " | ". */
  function Separator(widths: seq<int>): string
  {
    Repeat('-', Sum(widths) + |CellSeparator| * (|widths| - 1))
  }

  /** Every row has exactly one cell per header. */
  predicate WellShaped(rows: seq<seq<string>>, headers: seq<string>)
  {
    forall j :: 0 <= j < |rows| ==> |rows[j]| == |headers|
  }

  function FormattedRows(rows: seq<seq<string>>, widths: seq<int>): (lines: seq<string>)
    requires forall j :: 0 <= j < |rows| ==> |rows[j]| == |widths|
    ensures |lines| == |rows|
    ensures forall j :: 0 <= j < |rows| ==> lines[j] == FormatRow(rows[j], widths)
    decreases |rows|
  {
    if rows == [] then []
    else
      assert forall j :: 0 <= j < |rows| - 1 ==> rows[..|rows| - 1][j] == rows[j];
      FormattedRows(rows[..|rows| - 1], widths) + [FormatRow(rows[|rows| - 1], widths)]
  }

  /** The lines of the table: header, separator, then one line per row in order. */
  function TableLines(data: seq<seq<string>>, headers: seq<string>): seq<string>
    requires WellShaped(data, headers)
  {
    var ws := Widths(headers, data);
    [FormatRow(headers, ws), Separator(ws)] + FormattedRows(data, ws)
  }

  /** What simple_table returns, None standing for the IndexError a badly shaped row raises. */
  function Table(data: seq<seq<string>>, headers: seq<string>): (r: Option<string>)
    ensures data == [] ==> r == Some("No data")
    ensures r.None? <==> data != [] && exists j :: 0 <= j < |data| && |data[j]| != |headers|
  {
    if data == [] then Some("No data")
    else if !WellShaped(data, headers) then None
    else Some(Join(TableLines(data, headers), "\n"))
  }

  /** Measuring one more row widens column c to that row's c-th cell, if it has one. */
  lemma ColumnWidthStep(headers: seq<string>, rows: seq<seq<string>>, row: seq<string>, c: int)
    requires 0 <= c < |headers|
    ensures ColumnWidth(headers, rows + [row], c) ==
      if c < |row| then Max(ColumnWidth(headers, rows, c), |row[c]|) else ColumnWidth(headers, rows, c)
  {
    assert (rows + [row])[..|rows|] == rows;
  }

  lemma FormattedRowsStep(rows: seq<seq<string>>, row: seq<string>, widths: seq<int>)
    requires forall j :: 0 <= j < |rows| ==> |rows[j]| == |widths|
    requires |row| == |widths|
    ensures FormattedRows(rows + [row], widths) == FormattedRows(rows, widths) + [FormatRow(row, widths)]
  {
    assert (rows + [row])[..|rows|] == rows;
  }

  /** The first half of simple_table: col_widths starts at the header lengths
      and is widened in place cell by cell. A row with more cells than there
      are headers indexes past the end of col_widths and raises. */
  method MeasureColumns(data: seq<seq<string>>, headers: seq<string>) returns (r: Option<seq<int>>)
    ensures r.None? <==> exists j :: 0 <= j < |data| && |data[j]| > |headers|
    ensures r.Some? ==> r.value == Widths(headers, data)
  {
    var colWidths := new int[|headers|](c requires 0 <= c < |headers| => |headers[c]|);
    for j := 0 to |data|
      invariant forall k :: 0 <= k < j ==> |data[k]| <= |headers|
      invariant forall c :: 0 <= c < colWidths.Length ==> colWidths[c] == ColumnWidth(headers, data[..j], c)
    {
      var row := data[j];
      for c := 0 to |row|
        invariant c <= colWidths.Length
        invariant forall c' :: 0 <= c' < c && c' < colWidths.Length ==> colWidths[c'] == ColumnWidth(headers, data[..j] + [row], c')
        invariant forall c' :: c <= c' < colWidths.Length ==> colWidths[c'] == ColumnWidth(headers, data[..j], c')
      {
        if c >= colWidths.Length {
          return None;
        }
        ColumnWidthStep(headers, data[..j], row, c);
        colWidths[c] := Max(colWidths[c], |row[c]|);
      }
      forall c' | |row| <= c' < colWidths.Length
        ensures colWidths[c'] == ColumnWidth(headers, data[..j] + [row], c')
      {
        ColumnWidthStep(headers, data[..j], row, c');
      }
      assert data[..j + 1] == data[..j] + [row];
    }
    assert data[..|data|] == data;
    return Some(colWidths[..]);
  }

  /** simple_table(data, headers): "No data" for no rows; otherwise the widths
      are measured, then the header line, the separator and one line per row
      are appended in turn and joined with line breaks. A row with fewer cells
      than there are headers leaves a format field without a value and raises. */
  method SimpleTable(data: seq<seq<string>>, headers: seq<string>) returns (r: Option<string>)
    ensures r == Table(data, headers)
  {
    if data == [] {
      return Some("No data");
    }
    var measured := MeasureColumns(data, headers);
    if measured.None? {
      return None;
    }
    var widths := measured.value;
    var lines := [FormatRow(headers, widths), Separator(widths)];
    var rows := AppendRows(data, widths);
    if rows.None? {
      return None;
    }
    lines := lines + rows.value;
    return Some(Join(lines, "\n"));
  }

  /** The second half of simple_table: one formatted line per row, appended in
      order. Measuring the widths has already refused a row longer than the
      headers; a shorter row leaves a format field without a value and raises. */
  method AppendRows(data: seq<seq<string>>, widths: seq<int>) returns (r: Option<seq<string>>)
    requires forall j :: 0 <= j < |data| ==> |data[j]| <= |widths|
    ensures r.None? <==> exists j :: 0 <= j < |data| && |data[j]| < |widths|
    ensures r.Some? ==> r.value == FormattedRows(data, widths)
  {
    var lines := [];
    for j := 0 to |data|
      invariant forall k :: 0 <= k < j ==> |data[k]| == |widths|
      invariant lines == FormattedRows(data[..j], widths)
    {
      if |data[j]| < |widths| {
        return None;
      }
      FormattedRowsStep(data[..j], data[j], widths);
      assert data[..j + 1] == data[..j] + [data[j]];
      lines := lines + [FormatRow(data[j], widths)];
    }
    assert data[..|data|] == data;
    return Some(lines);
  }

  // ---------------------------------------------------------------------------
  // Properties of the table

  lemma {:induction false} PaddedLength(cells: seq<string>, widths: seq<int>)
    requires |cells| == |widths|
    requires forall c :: 0 <= c < |cells| ==> |cells[c]| <= widths[c]
    ensures SumLengths(Padded(cells, widths)) == Sum(widths)
    decreases |cells|
  {
    if cells != [] {
      PaddedLength(cells[1..], widths[1..]);
    }
  }

  /** A line whose cells fit their columns is exactly as long as the separator. */
  lemma RowAsLongAsSeparator(cells: seq<string>, widths: seq<int>)
    requires |cells| == |widths|
    requires forall c :: 0 <= c < |cells| ==> |cells[c]| <= widths[c]
    ensures |FormatRow(cells, widths)| == |Separator(widths)|
  {
    if cells != [] {
      PaddedLength(cells, widths);
      JoinLength(Padded(cells, widths), CellSeparator);
      assert Sum(widths) >= 0 by {
        SumBound(widths, cells);
      }
    }
  }

  lemma {:induction false} SumBound(widths: seq<int>, cells: seq<string>)
    requires |cells| == |widths|
    requires forall c :: 0 <= c < |cells| ==> |cells[c]| <= widths[c]
    ensures Sum(widths) >= 0
    decreases |widths|
  {
    if widths != [] {
      SumBound(widths[1..], cells[1..]);
    }
  }

  /** The table is aligned: the header and every row line are as long as the separator. */
  lemma TableLinesAligned(data: seq<seq<string>>, headers: seq<string>)
    requires WellShaped(data, headers)
    ensures var lines := TableLines(data, headers);
      |lines| == |data| + 2 && forall k :: 0 <= k < |lines| ==> |lines[k]| == |lines[1]|
  {
    var ws := Widths(headers, data);
    var lines := TableLines(data, headers);
    forall c | 0 <= c < |headers|
      ensures |headers[c]| <= ws[c]
    {
      ColumnWidthIsLongest(headers, data, c);
    }
    RowAsLongAsSeparator(headers, ws);
    forall k | 2 <= k < |lines|
      ensures |lines[k]| == |lines[1]|
    {
      var row := data[k - 2];
      assert lines[k] == FormatRow(row, ws);
      forall c | 0 <= c < |row|
        ensures |row[c]| <= ws[c]
      {
        ColumnWidthIsLongest(headers, data, c);
      }
      RowAsLongAsSeparator(row, ws);
    }
  }

  /** Each column is exactly as wide as its widest entry. */
  lemma ColumnFitsWidest(data: seq<seq<string>>, headers: seq<string>, c: int)
    requires WellShaped(data, headers) && 0 <= c < |headers|
    ensures var w := Widths(headers, data)[c];
      (forall j :: 0 <= j < |data| ==> |data[j][c]| <= w)
      && |headers[c]| <= w
      && (w == |headers[c]| || exists j :: 0 <= j < |data| && w == |data[j][c]|)
  {
    ColumnWidthIsLongest(headers, data, c);
  }

  lemma {:induction false} PaddedAvoids(cells: seq<string>, widths: seq<int>, ch: char)
    requires |cells| == |widths| && ch != ' '
    requires forall c :: 0 <= c < |cells| ==> ch !in cells[c]
    ensures forall c :: 0 <= c < |cells| ==> ch !in Padded(cells, widths)[c]
  {
    forall c | 0 <= c < |cells|
      ensures ch !in Padded(cells, widths)[c]
    {
      var p := Padded(cells, widths)[c];
      forall k | 0 <= k < |p| ensures p[k] != ch {
        if k < |cells[c]| {
          assert p[k] == p[..|cells[c]|][k];
        }
      }
    }
  }

  lemma RowHasNoNewline(cells: seq<string>, widths: seq<int>)
    requires |cells| == |widths|
    requires forall c :: 0 <= c < |cells| ==> '\n' !in cells[c]
    ensures '\n' !in FormatRow(cells, widths)
  {
    PaddedAvoids(cells, widths, '\n');
    JoinAvoids(Padded(cells, widths), CellSeparator, '\n');
  }

  /** When no header or cell contains a line break, the printed table splits
      into exactly |data| + 2 lines: the header, the separator and the rows in order. */
  lemma TableSplitsIntoLines(data: seq<seq<string>>, headers: seq<string>)
    requires data != [] && WellShaped(data, headers)
    requires forall c :: 0 <= c < |headers| ==> '\n' !in headers[c]
    requires forall j, c :: 0 <= j < |data| && 0 <= c < |data[j]| ==> '\n' !in data[j][c]
    ensures Table(data, headers).Some?
    ensures Split(Table(data, headers).value, '\n') == TableLines(data, headers)
    ensures |Split(Table(data, headers).value, '\n')| == |data| + 2
  {
    var ws := Widths(headers, data);
    var lines := TableLines(data, headers);
    RowHasNoNewline(headers, ws);
    forall k | 0 <= k < |lines|
      ensures '\n' !in lines[k]
    {
      if k >= 2 {
        RowHasNoNewline(data[k - 2], ws);
      }
    }
    JoinSplitRoundTrip(lines, '\n');
  }
}
