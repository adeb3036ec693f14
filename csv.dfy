/**
 * The CSV files both pipelines export from the `weather` table, as lines
 * rather than text: the quoting and number formatting of Python's
 * `csv.writer` are not modelled.
 */
module Csv {
  import opened Wrappers
  import opened Store

  /** A header, or one `weather` row with, in the refined export, its category column. */
  datatype Line =
    | Header(columns: seq<string>)
    | Record(city: string, date: string, condition: string, temp: real, category: Option<Category>)

  /** The `weather` row a record line was written from. */
  function RowOfLine(l: Line): Option<WeatherRow> {
    if l.Record? then Some(WeatherRow(l.city, l.date, l.condition, l.temp)) else None
  }

  /** The table an exported file holds, read back line by line. */
  function TableOf(lines: seq<Line>): seq<WeatherRow> {
    FilterMap(RowOfLine, lines)
  }

  /** A header followed by one record per row, in order, reads back as exactly those rows. */
  lemma {:induction false} TableOfRecords(lines: seq<Line>, rows: seq<WeatherRow>)
    requires |lines| == |rows| + 1 && lines[0].Header?
    requires forall i :: 0 <= i < |rows| ==> RowOfLine(lines[i + 1]) == Some(rows[i])
    ensures TableOf(lines) == rows
  {
    if rows == [] {
      assert lines == [lines[0]];
      assert lines[..0] == [];
    } else {
      var n := |rows| - 1;
      assert forall j :: 0 < j <= n ==> lines[..n + 1][j] == lines[j];
      TableOfRecords(lines[..n + 1], rows[..n]);
      assert lines[..|lines| - 1] == lines[..n + 1];
      assert rows == rows[..n] + [rows[n]];
    }
  }
}
