/**
 The roster spreadsheet as the locators see it: a sequence of rows of typed
 cell values. Rows and columns are 0-based positions here; the openpyxl
 locator reports `cell.row`, which is the position plus one.

 A row shorter than the widest row reads as blank past its end, as openpyxl
 and pandas both pad a sheet to a rectangle.
 */
module Roster {
  import opened Seqs

  type Year = y: int | 1 <= y <= 9999 witness 1
  type Month = m: int | 1 <= m <= 12 witness 1
  type Day = d: int | 1 <= d <= 31 witness 1
  type Hour = h: int | 0 <= h < 24
  type Minute = m: int | 0 <= m < 60
  type Second = s: int | 0 <= s < 60

  /** A calendar date (Python `datetime.date`). */
  datatype Date = Date(year: Year, month: Month, day: Day)

  /** A time of day with whole seconds (Python `datetime.time`). */
  datatype Time = Time(hour: Hour, minute: Minute, second: Second)

  /** A naive timestamp (Python `datetime.datetime` / pandas `Timestamp`). */
  datatype DateTime = DateTime(date: Date, time: Time)

  /** Chronological order on dates. */
  predicate DateLe(a: Date, b: Date) {
    || a.year < b.year
    || (a.year == b.year && a.month < b.month)
    || (a.year == b.year && a.month == b.month && a.day <= b.day)
  }

  predicate TimeLe(a: Time, b: Time) {
    || a.hour < b.hour
    || (a.hour == b.hour && a.minute < b.minute)
    || (a.hour == b.hour && a.minute == b.minute && a.second <= b.second)
  }

  /** Chronological order on timestamps (Python's `<=` on `datetime`). */
  predicate Le(a: DateTime, b: DateTime) {
    (DateLe(a.date, b.date) && a.date != b.date) || (a.date == b.date && TimeLe(a.time, b.time))
  }

  /** `Le` is a total order. */
  lemma LeTotalOrder()
    ensures forall a: DateTime :: Le(a, a)
    ensures forall a: DateTime, b: DateTime :: Le(a, b) || Le(b, a)
    ensures forall a: DateTime, b: DateTime :: Le(a, b) && Le(b, a) ==> a == b
    ensures forall a: DateTime, b: DateTime, c: DateTime :: Le(a, b) && Le(b, c) ==> Le(a, c)
  {
  }

  /** A cell value: a string, a date-time, a number, or empty (openpyxl `None`, pandas `NaN`). */
  datatype Value = Text(s: string) | Stamp(at: DateTime) | Number(n: int) | Missing

  /** A sheet, row by row. */
  type Grid = seq<seq<Value>>

  /** The value at row `i`, column `j`; blank past the end of a short row. */
  function Cell(g: Grid, i: nat, j: nat): Value
    requires i < |g|
  {
    if j < |g[i]| then g[i][j] else Missing
  }

  /** Number of columns: the length of the longest row. */
  function Width(g: Grid): (w: nat)
    ensures forall i :: 0 <= i < |g| ==> |g[i]| <= w
    ensures g != [] ==> exists i :: 0 <= i < |g| && |g[i]| == w
    ensures g == [] ==> w == 0
  {
    if g == [] then 0
    else
      var w := Width(g[..|g| - 1]);
      if |g[|g| - 1]| > w then |g[|g| - 1]| else w
  }

  /** Column `j` from top to bottom (openpyxl `iter_cols`, pandas `roster[col]`). */
  function Column(g: Grid, j: nat): (c: seq<Value>)
    ensures |c| == |g|
    ensures forall i :: 0 <= i < |g| ==> c[i] == Cell(g, i, j)
  {
    seq(|g|, i requires 0 <= i < |g| => Cell(g, i, j))
  }

  /** The sheet's columns, left to right. */
  function Columns(g: Grid): (cs: seq<seq<Value>>)
    ensures |cs| == Width(g)
    ensures forall j :: 0 <= j < Width(g) ==> cs[j] == Column(g, j)
  {
    seq(Width(g), j requires 0 <= j < Width(g) => Column(g, j))
  }

  /** Row `i` padded to the sheet's width (openpyxl `iter_rows`, pandas `roster.loc[i]`). */
  function Row(g: Grid, i: nat): (r: seq<Value>)
    requires i < |g|
    ensures |r| == Width(g)
    ensures forall j :: 0 <= j < |r| ==> r[j] == Cell(g, i, j)
  {
    seq(Width(g), j requires 0 <= j < Width(g) => Cell(g, i, j))
  }

  /** The sheet's padded rows, top to bottom. */
  function Rows(g: Grid): (rs: seq<seq<Value>>)
    ensures |rs| == |g|
    ensures forall i :: 0 <= i < |g| ==> rs[i] == Row(g, i)
  {
    seq(|g|, i requires 0 <= i < |g| => Row(g, i))
  }

  /** Reading a padded row at a column is reading the cell. */
  lemma RowAt(g: Grid, i: nat, j: nat)
    requires i < |g| && j < Width(g)
    ensures Row(g, i)[j] == Cell(g, i, j)
  {
  }

  predicate IsStamp(v: Value) { v.Stamp? }

  /** Number of date-time cells in a line of cells. */
  function DateCount(line: seq<Value>): nat {
    Count(line, IsStamp)
  }

  predicate IsText(v: Value) { v.Text? }

  predicate IsNumber(v: Value) { v.Number? }
}
