/**
 Table location on an openpyxl worksheet: the row that holds the pay-period
 dates, the column that holds the staff names, and the full names in a list
 of strings.
 */
module ExcelLocator {
  import opened Roster
  import opened Seqs
  import opened NamePattern
  import opened Text

  /** Date cells a row needs before it is taken for the date row (half a pay period). */
  const MinDateColumnsInRow: nat := 7

  /** Name-like strings a column needs before it is taken for the name column. */
  const RequiredMatchCount: nat := 6

  /** A row with at least seven date cells anywhere in it; they need not be adjacent. */
  predicate IsDateRow(row: seq<Value>) {
    DateCount(row) >= MinDateColumnsInRow
  }

  /** A string cell (`data_type == "s"`) whose value starts with two capitalised words. */
  predicate IsNameCell(v: Value) {
    v.Text? && TwoWordPrefix(v.s, IsWordTail)
  }

  predicate IsNameColumn(column: seq<Value>) {
    Count(column, IsNameCell) >= RequiredMatchCount
  }

  /**
   A non-date cell anywhere in a row leaves the row's date count as it was:
   the count is never reset, so the dates need not be next to each other.
   */
  lemma NonDateCellsDoNotReset(a: seq<Value>, x: Value, b: seq<Value>)
    requires !x.Stamp?
    ensures DateCount(a + [x] + b) == DateCount(a + b)
    ensures IsDateRow(a + [x] + b) <==> IsDateRow(a + b)
  {
    CountAppend(a + [x], b, IsStamp);
    CountAppend(a, [x], IsStamp);
    CountAppend(a, b, IsStamp);
    assert [x][..0] == [];
  }

  /**
   The scan shared by `find_date_row` and `find_name_column`: walk every
   line, count the cells satisfying `p`, and record the line (counted from 1)
   as soon as its count reaches `threshold`, leaving that line early. Later
   lines are still scanned, so the last qualifying line wins; 0 means none.
   */
  method LastLineReaching(lines: seq<seq<Value>>, p: Value -> bool, threshold: nat) returns (pos: nat)
    requires threshold > 0
    ensures pos <= |lines|
    ensures pos == 0 <==> forall i :: 0 <= i < |lines| ==> Count(lines[i], p) < threshold
    ensures pos != 0 ==> Count(lines[pos - 1], p) >= threshold
    ensures pos != 0 ==> forall i :: pos <= i < |lines| ==> Count(lines[i], p) < threshold
  {
    pos := 0;
    var i := 0;
    while i < |lines|
      invariant i <= |lines|
      invariant pos <= i
      invariant pos == 0 ==> forall k :: 0 <= k < i ==> Count(lines[k], p) < threshold
      invariant pos != 0 ==> Count(lines[pos - 1], p) >= threshold
      invariant pos != 0 ==> forall k :: pos <= k < i ==> Count(lines[k], p) < threshold
    {
      var line := lines[i];
      var count := 0;
      var j := 0;
      while j < |line|
        invariant j <= |line|
        invariant count == Count(line[..j], p)
        invariant count < threshold
      {
        CountStep(line, j, p);
        if p(line[j]) {
          count := count + 1;
          if count == threshold {
            CountPrefix(line, j + 1, p);
            pos := i + 1;
            break;
          }
        }
        j := j + 1;
      }
      if pos != i + 1 {
        assert line[..j] == line;
      }
      i := i + 1;
    }
  }

  /**
   `find_date_row`: the 1-based number of the last row holding at least
   seven date cells, or 0 when no row does.
   */
  method FindDateRow(g: Grid) returns (dateRow: nat)
    ensures dateRow <= |g|
    ensures dateRow == 0 <==> forall i :: 0 <= i < |g| ==> !IsDateRow(Row(g, i))
    ensures dateRow != 0 ==> IsDateRow(Row(g, dateRow - 1))
    ensures dateRow != 0 ==> forall i :: dateRow <= i < |g| ==> !IsDateRow(Row(g, i))
  {
    var rows := Rows(g);
    dateRow := LastLineReaching(rows, IsStamp, MinDateColumnsInRow);
  }

  /**
   `find_name_column`: the 1-based number of the last column holding at least
   six name-like strings, or `None`. (openpyxl reports the column's letter,
   which stands one-to-one for this number.)
   */
  method FindNameColumn(g: Grid) returns (column: Option<nat>)
    ensures column.None? <==> forall j :: 0 <= j < Width(g) ==> !IsNameColumn(Column(g, j))
    ensures column.Some? ==> 1 <= column.value <= Width(g) && IsNameColumn(Column(g, column.value - 1))
    ensures column.Some? ==> forall j :: column.value <= j < Width(g) ==> !IsNameColumn(Column(g, j))
  {
    var columns := Columns(g);
    var pos := LastLineReaching(columns, IsNameCell, RequiredMatchCount);
    column := if pos == 0 then None else Some(pos);
  }

  /**
   `filter_names`: every full-name match of every string, string by string
   and left to right within a string.
   */
  function FilterNames(strings: seq<string>): seq<string> {
    if strings == [] then []
    else FilterNames(strings[..|strings| - 1]) + FullNames(strings[|strings| - 1])
  }

  /** Every name found is a full name occurring in one of the strings. */
  lemma {:induction false} FilterNamesSound(strings: seq<string>)
    ensures forall i :: 0 <= i < |FilterNames(strings)| ==> IsFullName(FilterNames(strings)[i])
    ensures forall i :: 0 <= i < |FilterNames(strings)| ==>
      exists j :: 0 <= j < |strings| && IsInfix(FilterNames(strings)[i], strings[j])
  {
    if strings == [] {
      assert FilterNames(strings) == [];
    } else {
      var n := |strings| - 1;
      var init := strings[..n];
      FilterNamesSound(init);
      FullNamesSound(strings[n]);
      var names := FilterNames(strings);
      var a := FilterNames(init);
      assert names == a + FullNames(strings[n]);
      forall i | 0 <= i < |names|
        ensures IsFullName(names[i])
        ensures exists j :: 0 <= j < |strings| && IsInfix(names[i], strings[j])
      {
        if i < |a| {
          var j :| 0 <= j < |init| && IsInfix(a[i], init[j]);
          assert names[i] == a[i] && init[j] == strings[j];
          assert 0 <= j < |strings| && IsInfix(names[i], strings[j]);
        } else {
          var k := i - |a|;
          assert names[i] == FullNames(strings[n])[k];
          assert IsFullName(names[i]) && 0 <= n < |strings| && IsInfix(names[i], strings[n]);
        }
      }
    }
  }

  /** Filtering a concatenation is concatenating the filtered parts. */
  lemma {:induction false} FilterNamesAppend(a: seq<string>, b: seq<string>)
    ensures FilterNames(a + b) == FilterNames(a) + FilterNames(b)
    decreases |b|
  {
    if b == [] {
      assert a + b == a;
    } else {
      var init := b[..|b| - 1];
      assert (a + b)[..|a + b| - 1] == a + init;
      assert (a + b)[|a + b| - 1] == b[|b| - 1];
      assert FilterNames(a + b) == FilterNames(a + init) + FullNames(b[|b| - 1]);
      FilterNamesAppend(a, init);
    }
  }

  /** A string without a full name adds nothing, wherever it stands. */
  lemma FilterNamesSkipsNoise(a: seq<string>, s: string, b: seq<string>)
    requires FullNames(s) == []
    ensures FilterNames(a + [s] + b) == FilterNames(a + b)
  {
    FilterNamesAppend(a + [s], b);
    FilterNamesAppend(a, [s]);
    FilterNamesAppend(a, b);
    assert [s][..0] == [];
  }
}
