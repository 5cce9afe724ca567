/**
 Table location on a pandas DataFrame (`TermRosterParser`): the date row is
 the first row with the most date-times, the name column is the first
 object-typed column with the most name-like strings, and the staff names
 are the full names found in that column, each mapped to its row.

 Rows are 0-based positions, matching the DataFrame's default range index.
 */
module TermRoster {
  import opened Roster
  import opened Seqs
  import opened NamePattern
  import opened Text
  import ExcelLocator

  /**
   `name_matched`: a string whose start matches `\b[A-Z][a-z'+]+\s+[A-Z][a-z'-]+\b`.
   The first word's class is `[a-z'+]`, not `[a-z'-]` as in the second word.
   */
  predicate NameMatched(v: Value) {
    v.Text? && TwoWordPrefix(v.s, IsWordTailAsWritten)
  }

  /**
   `name_matched` with the first word's class written `[a-z'-]` like the
   second's: the openpyxl locator's name test.
   */
  predicate NameMatchedIntended(v: Value) {
    ExcelLocator.IsNameCell(v)
  }

  /**
   A first name with a hyphen fails `name_matched` as written and passes it
   with the class the second word uses.
   */
  lemma HyphenatedFirstName()
    ensures !NameMatched(Text("Mary-anne Lee"))
    ensures NameMatchedIntended(Text("Mary-anne Lee"))
  {
    HyphenatedFirstNameRejected();
    HyphenatedFirstNameAccepted();
  }

  lemma HyphenatedFirstNameRejected()
    ensures !NameMatched(Text("Mary-anne Lee"))
  {
    var s := "Mary-anne Lee";
    assert s[4] == '-';
    assert RunEnd(s, 4, IsWordTailAsWritten) == 4;
    assert RunEnd(s, 3, IsWordTailAsWritten) == 4;
    assert RunEnd(s, 2, IsWordTailAsWritten) == 4;
    assert RunEnd(s, 1, IsWordTailAsWritten) == 4;
  }

  lemma HyphenatedFirstNameAccepted()
    ensures NameMatchedIntended(Text("Mary-anne Lee"))
  {
    var s := "Mary-anne Lee";
    HyphenatedFirstNameRuns(s);
    assert IsSpace(s[9]) && IsUpper(s[10]);
    assert WordBoundary(s, 13);
  }

  /** The three runs the two-word pattern reads in `Mary-anne Lee`. */
  lemma HyphenatedFirstNameRuns(s: string)
    requires s == "Mary-anne Lee"
    ensures RunEnd(s, 1, IsWordTail) == 9
    ensures RunEnd(s, 9, IsSpace) == 10
    ensures RunEnd(s, 11, IsWordTail) == 13
  {
    assert RunEnd(s, 9, IsWordTail) == 9;
    assert RunEnd(s, 8, IsWordTail) == 9;
    assert RunEnd(s, 7, IsWordTail) == 9;
    assert RunEnd(s, 6, IsWordTail) == 9;
    assert RunEnd(s, 5, IsWordTail) == 9;
    assert RunEnd(s, 4, IsWordTail) == 9;
    assert RunEnd(s, 3, IsWordTail) == 9;
    assert RunEnd(s, 2, IsWordTail) == 9;
    assert RunEnd(s, 10, IsSpace) == 10;
    assert RunEnd(s, 13, IsWordTail) == 13;
    assert RunEnd(s, 12, IsWordTail) == 13;
  }

  /**
   `find_date_row`: `idxmax` of the per-row date-time counts. There is no
   threshold: a sheet without dates still yields row 0. `None` stands for the
   error pandas raises on a frame without rows.
   */
  function FindDateRow(g: Grid): (r: Option<nat>)
    ensures r.None? <==> |g| == 0
    ensures r.Some? ==> r.value < |g|
    ensures r.Some? ==> forall i :: 0 <= i < |g| ==> DateCount(Row(g, i)) <= DateCount(Row(g, r.value))
    ensures r.Some? ==> forall i :: 0 <= i < r.value ==> DateCount(Row(g, i)) < DateCount(Row(g, r.value))
  {
    var counts := seq(|g|, i requires 0 <= i < |g| => DateCount(Row(g, i)) as int);
    assert forall i :: 0 <= i < |g| ==> counts[i] == DateCount(Row(g, i));
    FirstArgMax(counts)
  }

  /**
   Whether pandas gives a column the `object` dtype when it reads the sheet:
   it holds a string, or it mixes numbers with date-times. Columns of only
   numbers, only date-times or only blanks get a typed dtype instead.
   */
  predicate IsObjectColumn(column: seq<Value>) {
    Count(column, IsText) > 0 || (Count(column, IsNumber) > 0 && Count(column, IsStamp) > 0)
  }

  /**
   How many cells of column `j` pass the name test `named`: `NameMatched` is
   `name_matched` as written, `NameMatchedIntended` the corrected one.
   */
  function MatchCount(g: Grid, j: nat, named: Value -> bool): nat {
    Count(Column(g, j), named)
  }

  /**
   Among the first `n` columns, the first object-typed one with the most
   cells passing the name test (`select_dtypes(include="object")`,
   `map(name_matched)`, `sum()`, `idxmax()`).
   */
  function BestObjectColumn(g: Grid, n: nat, named: Value -> bool): (r: Option<nat>)
    ensures r.None? <==> forall j :: 0 <= j < n ==> !IsObjectColumn(Column(g, j))
    ensures r.Some? ==> r.value < n && IsObjectColumn(Column(g, r.value))
    ensures r.Some? ==> forall j :: 0 <= j < n && IsObjectColumn(Column(g, j)) ==>
      MatchCount(g, j, named) <= MatchCount(g, r.value, named)
    ensures r.Some? ==> forall j :: 0 <= j < r.value && IsObjectColumn(Column(g, j)) ==>
      MatchCount(g, j, named) < MatchCount(g, r.value, named)
  {
    if n == 0 then None
    else
      var best := BestObjectColumn(g, n - 1, named);
      if !IsObjectColumn(Column(g, n - 1)) then best
      else
        match best
        case None => Some(n - 1)
        case Some(b) => if MatchCount(g, n - 1, named) > MatchCount(g, b, named) then Some(n - 1) else Some(b)
  }

  /**
   The column `get_row_header_to_row_number_dict` reads names from. `None`
   stands for the error `idxmax` raises when no column is object-typed.
   */
  function NameColumn(g: Grid, named: Value -> bool): Option<nat> {
    BestObjectColumn(g, Width(g), named)
  }

  /** A first word with a `+` passes `name_matched` as written and fails the corrected test. */
  lemma PlusFirstName()
    ensures NameMatched(Text("Jo+e Bloggs"))
    ensures !NameMatchedIntended(Text("Jo+e Bloggs"))
  {
    PlusFirstNameAccepted();
    PlusFirstNameRejected();
  }

  lemma PlusFirstNameRejected()
    ensures !NameMatchedIntended(Text("Jo+e Bloggs"))
  {
    var s := "Jo+e Bloggs";
    assert RunEnd(s, 2, IsWordTail) == 2;
    assert RunEnd(s, 1, IsWordTail) == 2;
  }

  lemma PlusFirstNameAccepted()
    ensures NameMatched(Text("Jo+e Bloggs"))
  {
    var s := "Jo+e Bloggs";
    PlusFirstNameRuns(s);
    assert IsSpace(s[4]) && IsUpper(s[5]);
    assert WordBoundary(s, 11);
  }

  /** The three runs the as-written pattern reads in `Jo+e Bloggs`. */
  lemma PlusFirstNameRuns(s: string)
    requires s == "Jo+e Bloggs"
    ensures RunEnd(s, 1, IsWordTailAsWritten) == 4
    ensures RunEnd(s, 4, IsSpace) == 5
    ensures RunEnd(s, 6, IsWordTail) == 11
  {
    assert RunEnd(s, 4, IsWordTailAsWritten) == 4;
    assert RunEnd(s, 3, IsWordTailAsWritten) == 4;
    assert RunEnd(s, 2, IsWordTailAsWritten) == 4;
    assert RunEnd(s, 5, IsSpace) == 5;
    assert RunEnd(s, 10, IsWordTail) == 11;
    assert RunEnd(s, 9, IsWordTail) == 11;
    assert RunEnd(s, 8, IsWordTail) == 11;
    assert RunEnd(s, 7, IsWordTail) == 11;
  }

  /** Of two object-typed columns, the one with more cells passing the test is the name column. */
  lemma BetterOfTwo(g: Grid, named: Value -> bool)
    requires Width(g) == 2
    requires IsObjectColumn(Column(g, 0)) && IsObjectColumn(Column(g, 1))
    ensures MatchCount(g, 1, named) > MatchCount(g, 0, named) ==> NameColumn(g, named) == Some(1)
    ensures MatchCount(g, 1, named) < MatchCount(g, 0, named) ==> NameColumn(g, named) == Some(0)
  {
    assert BestObjectColumn(g, 1, named) == Some(0);
  }

  /** A single cell is counted exactly when it passes the test. */
  lemma CountSingle(v: Value, p: Value -> bool)
    ensures Count([v], p) == if p(v) then 1 else 0
  {
    assert [v][..0] == [];
  }

  /** The columns of the one-row sheet `[[a, b]]`. */
  lemma OneRowColumns(g: Grid, a: Value, b: Value)
    requires g == [[a, b]]
    ensures Width(g) == 2 && Column(g, 0) == [a] && Column(g, 1) == [b]
  {
    assert Width(g[..0]) == 0;
  }

  /**
   A one-row sheet with `Mary-anne Lee` and `Jo+e Bloggs`: as written the
   parser reads names from the second column, the corrected test from the first.
   */
  lemma NameColumnDiffers(g: Grid)
    requires g == [[Text("Mary-anne Lee"), Text("Jo+e Bloggs")]]
    ensures NameColumn(g, NameMatched) == Some(1)
    ensures NameColumn(g, NameMatchedIntended) == Some(0)
  {
    var a, b := Text("Mary-anne Lee"), Text("Jo+e Bloggs");
    OneRowColumns(g, a, b);
    HyphenatedFirstName();
    PlusFirstName();
    CountSingle(a, NameMatched);
    CountSingle(b, NameMatched);
    CountSingle(a, NameMatchedIntended);
    CountSingle(b, NameMatchedIntended);
    CountSingle(a, IsText);
    CountSingle(b, IsText);
    BetterOfTwo(g, NameMatched);
    BetterOfTwo(g, NameMatchedIntended);
  }

  /** Keys of an insertion-ordered dictionary held as its `items()`. */
  predicate DistinctKeys<K(==), V>(d: seq<(K, V)>) {
    forall i, j :: 0 <= i < j < |d| ==> d[i].0 != d[j].0
  }

  /** Where key `k` sits in the dictionary, if anywhere. */
  function KeyIndex<K(==), V>(d: seq<(K, V)>, k: K): (r: Option<nat>)
    ensures r.Some? ==> r.value < |d| && d[r.value].0 == k
    ensures r.None? ==> forall i :: 0 <= i < |d| ==> d[i].0 != k
  {
    if d == [] then None
    else if d[|d| - 1].0 == k then Some(|d| - 1)
    else KeyIndex(d[..|d| - 1], k)
  }

  /**
   `d[k] = v` on a Python dict: an existing key keeps its place and takes the
   new value; a new key goes at the end.
   */
  function Put<K(==), V>(d: seq<(K, V)>, k: K, v: V): (r: seq<(K, V)>)
    requires DistinctKeys(d)
    ensures DistinctKeys(r)
    ensures forall i :: 0 <= i < |d| && d[i].0 == k ==> r == d[i := (k, v)]
    ensures (forall i :: 0 <= i < |d| ==> d[i].0 != k) ==> r == d + [(k, v)]
  {
    match KeyIndex(d, k)
    case Some(i) => d[i := (k, v)]
    case None => d + [(k, v)]
  }

  /** `v` last occurs in `column` at position `p`. */
  predicate LastAt(column: seq<Value>, v: Value, p: nat) {
    p < |column| && column[p] == v && forall j :: p < j < |column| ==> column[j] != v
  }

  /** `dict(zip(column, range(len(column))))` */
  function Positions(column: seq<Value>): (d: seq<(Value, nat)>)
    ensures DistinctKeys(d)
  {
    if column == [] then []
    else Put(Positions(column[..|column| - 1]), column[|column| - 1], |column| - 1)
  }

  /** `v` is a key of the dictionary `d`. */
  predicate HasKey<K(==), V>(d: seq<(K, V)>, v: K) {
    exists k :: 0 <= k < |d| && d[k].0 == v
  }

  /** Every cell value of the column is a key. */
  lemma {:induction false} PositionsCoverColumn(column: seq<Value>)
    ensures forall i :: 0 <= i < |column| ==> HasKey(Positions(column), column[i])
  {
    if column != [] {
      var n := |column| - 1;
      var prefix := column[..n];
      PositionsCoverColumn(prefix);
      var d := Positions(prefix);
      var r := Positions(column);
      assert r == Put(d, column[n], n);
      forall i | 0 <= i < |column| ensures HasKey(r, column[i]) {
        if column[i] == column[n] {
          if k :| 0 <= k < |d| && d[k].0 == column[n] {
            assert r == d[k := (column[n], n)];
            assert r[k].0 == column[i];
          } else {
            assert r == d + [(column[n], n)];
            assert r[|d|].0 == column[i];
          }
        } else {
          assert column[i] == prefix[i];
          assert HasKey(d, prefix[i]);
          var k :| 0 <= k < |d| && d[k].0 == column[i];
          if l :| 0 <= l < |d| && d[l].0 == column[n] {
            assert r == d[l := (column[n], n)];
            assert r[k] == d[k];
          } else {
            assert r == d + [(column[n], n)];
            assert r[k] == d[k];
          }
        }
      }
    }
  }

  /** Each key maps to the position of its last occurrence in the column. */
  lemma {:induction false} PositionsLastOccurrence(column: seq<Value>)
    ensures forall k :: 0 <= k < |Positions(column)| ==>
      LastAt(column, Positions(column)[k].0, Positions(column)[k].1)
  {
    if column != [] {
      var n := |column| - 1;
      var prefix := column[..n];
      PositionsLastOccurrence(prefix);
      var d := Positions(prefix);
      var r := Positions(column);
      assert r == Put(d, column[n], n);
      forall k | 0 <= k < |r| ensures LastAt(column, r[k].0, r[k].1) {
        if r[k] != (column[n], n) {
          if l :| 0 <= l < |d| && d[l].0 == column[n] {
            assert r == d[l := (column[n], n)];
            assert k != l && r[k] == d[k];
          } else {
            assert r == d + [(column[n], n)];
            assert k < |d| && r[k] == d[k];
          }
          assert LastAt(prefix, d[k].0, d[k].1);
          assert d[k].0 != column[n];
          assert forall j :: 0 <= j < n ==> column[j] == prefix[j];
        }
      }
    }
  }

  /**
   `get_row_header_to_row_number_dict`: the name column's cell values mapped
   to their positions, or `None` where `idxmax` raises.
   */
  function RowHeaderToRowNumber(g: Grid, named: Value -> bool): (r: Option<seq<(Value, nat)>>)
    ensures r.None? <==> NameColumn(g, named).None?
    ensures r.Some? ==> DistinctKeys(r.value)
    ensures r.Some? ==> forall k :: 0 <= k < |r.value| ==> r.value[k].1 < |g|
    ensures r.Some? ==> var column := Column(g, NameColumn(g, named).value);
      && (forall i :: 0 <= i < |column| ==> HasKey(r.value, column[i]))
      && (forall k :: 0 <= k < |r.value| ==> LastAt(column, r.value[k].0, r.value[k].1))
  {
    match NameColumn(g, named)
    case None => None
    case Some(c) =>
      PositionsCoverColumn(Column(g, c));
      PositionsLastOccurrence(Column(g, c));
      assert forall k :: 0 <= k < |Positions(Column(g, c))| ==> Positions(Column(g, c))[k].1 < |Column(g, c)|;
      Some(Positions(Column(g, c)))
  }

  /** The full names in a header that is a string; none in any other value. */
  function HeaderNames(v: Value): seq<string> {
    if v.Text? then FullNames(v.s) else []
  }

  /** Header `i` is the last of `items` in which `name` is found. */
  predicate LastHeaderWith(items: seq<(Value, nat)>, name: string, i: int) {
    0 <= i < |items| && name in HeaderNames(items[i].0)
    && forall j :: i < j < |items| ==> name !in HeaderNames(items[j].0)
  }

  /** `results[fullname] = row` for every name of one header. */
  function Assign(names: map<string, nat>, found: seq<string>, row: nat): (r: map<string, nat>)
    ensures r.Keys == names.Keys + set name | name in found
    ensures forall name :: name in found ==> r[name] == row
    ensures forall name :: name in names && name !in found ==> r[name] == names[name]
  {
    names + map name | name in found :: row
  }

  /**
   `filter_names_dict`: every full name found in a string key, mapped to that
   key's row. Keys are visited in order, so a name found again under a later
   key takes the later row.
   */
  function FilterNamesDict(items: seq<(Value, nat)>): (names: map<string, nat>)
    ensures forall name :: name in names ==>
      exists i :: LastHeaderWith(items, name, i) && names[name] == items[i].1
    ensures forall i, name :: 0 <= i < |items| && name in HeaderNames(items[i].0) ==> name in names
  {
    if items == [] then map[]
    else
      var n := |items| - 1;
      var earlier := FilterNamesDict(items[..n]);
      var names := Assign(earlier, HeaderNames(items[n].0), items[n].1);
      FilterNamesDictStep(items, items[..n], earlier, names);
      names
  }

  /** One more header: its names take its row, every other name keeps what the earlier headers gave it. */
  lemma FilterNamesDictStep(items: seq<(Value, nat)>, prefix: seq<(Value, nat)>,
                            earlier: map<string, nat>, names: map<string, nat>)
    requires |items| > 0 && prefix == items[..|items| - 1]
    requires forall name :: name in earlier ==>
      exists i :: LastHeaderWith(prefix, name, i) && earlier[name] == prefix[i].1
    requires forall i, name :: 0 <= i < |prefix| && name in HeaderNames(prefix[i].0) ==> name in earlier
    requires names == Assign(earlier, HeaderNames(items[|items| - 1].0), items[|items| - 1].1)
    ensures forall name :: name in names ==>
      exists i :: LastHeaderWith(items, name, i) && names[name] == items[i].1
    ensures forall i, name :: 0 <= i < |items| && name in HeaderNames(items[i].0) ==> name in names
  {
    forall name | name in names
      ensures exists i :: LastHeaderWith(items, name, i) && names[name] == items[i].1
    {
      var n := |items| - 1;
      if name !in HeaderNames(items[n].0) {
        var i :| LastHeaderWith(prefix, name, i) && earlier[name] == prefix[i].1;
        EarlierHeaderStaysLast(items, prefix, name, i);
      } else {
        assert LastHeaderWith(items, name, n);
      }
    }
    forall i, name | 0 <= i < |items| && name in HeaderNames(items[i].0)
      ensures name in names
    {
      if i < |items| - 1 {
        assert prefix[i] == items[i];
      }
    }
  }

  /** The last earlier header holding a name stays the last when a header without it follows. */
  lemma EarlierHeaderStaysLast(items: seq<(Value, nat)>, prefix: seq<(Value, nat)>, name: string, i: int)
    requires |items| > 0 && prefix == items[..|items| - 1]
    requires LastHeaderWith(prefix, name, i)
    requires name !in HeaderNames(items[|items| - 1].0)
    ensures LastHeaderWith(items, name, i) && prefix[i].1 == items[i].1
  {
    assert prefix[i] == items[i];
    assert forall j :: i < j < |prefix| ==> prefix[j] == items[j];
  }

  /** A name found by `finditer` is a full name. */
  lemma FoundNameIsFullName(s: string, name: string)
    requires name in FullNames(s)
    ensures IsFullName(name)
  {
    FullNamesSound(s);
    var k :| 0 <= k < |FullNames(s)| && FullNames(s)[k] == name;
  }

  /** Each name the dictionary holds is a full name, and each row came from the input. */
  lemma NamesDictSound(items: seq<(Value, nat)>)
    ensures forall name :: name in FilterNamesDict(items) ==>
      IsFullName(name) && exists i :: 0 <= i < |items| && FilterNamesDict(items)[name] == items[i].1
  {
    var names := FilterNamesDict(items);
    forall name | name in names
      ensures IsFullName(name) && exists i :: 0 <= i < |items| && names[name] == items[i].1
    {
      var i :| LastHeaderWith(items, name, i) && names[name] == items[i].1;
      FoundNameIsFullName(items[i].0.s, name);
    }
  }

  /** Rows below a bound in the input stay below it in the name dictionary. */
  lemma NamesDictRowsBounded(items: seq<(Value, nat)>, bound: nat)
    requires forall k :: 0 <= k < |items| ==> items[k].1 < bound
    ensures forall name :: name in FilterNamesDict(items) ==> FilterNamesDict(items)[name] < bound
  {
    var names := FilterNamesDict(items);
    forall name | name in names ensures names[name] < bound {
      var i :| LastHeaderWith(items, name, i) && names[name] == items[i].1;
    }
  }

  /** The parsed roster a sync run reads: the frame, its date row and the staff names' rows. */
  datatype Parsed = Parsed(roster: Grid, dateRow: nat, nameToRow: map<string, nat>)

  /**
   `TermRosterParser.__init__`: date row, then the header dictionary, then the
   name dictionary; `None` where pandas raises. `Parse(g, NameMatched)` is the
   code as written, `Parse(g, NameMatchedIntended)` the corrected name test.
   */
  function Parse(g: Grid, named: Value -> bool): (r: Option<Parsed>)
    ensures r.None? <==> g == [] || NameColumn(g, named).None?
    ensures r.Some? ==> r.value.roster == g && r.value.dateRow < |g|
    ensures r.Some? ==> forall name :: name in r.value.nameToRow ==> r.value.nameToRow[name] < |g|
    ensures r.Some? ==> FindDateRow(g) == Some(r.value.dateRow)
    ensures r.Some? ==>
      && RowHeaderToRowNumber(g, named).Some?
      && r.value.nameToRow == FilterNamesDict(RowHeaderToRowNumber(g, named).value)
  {
    match FindDateRow(g)
    case None => None
    case Some(dateRow) =>
      match RowHeaderToRowNumber(g, named)
      case None => None
      case Some(headers) =>
        var names := FilterNamesDict(headers);
        NamesDictRowsBounded(headers, |g|);
        Some(Parsed(g, dateRow, names))
  }

  /**
   The names of a parsed roster are exactly the full names found in the
   string cells of the name column, and each maps to a row whose name-column
   cell holds it. That row belongs to the last header holding the name in
   the header dictionary's key order, which is the order in which the
   headers first occur in the column, not row order.
   */
  lemma ParsedNames(g: Grid, named: Value -> bool)
    requires Parse(g, named).Some?
    ensures var p := Parse(g, named).value; var c := NameColumn(g, named).value;
      && (forall name :: name in p.nameToRow ==>
            && IsFullName(name)
            && p.nameToRow[name] < |g|
            && name in HeaderNames(Cell(g, p.nameToRow[name], c)))
      && (forall i, name :: 0 <= i < |g| && name in HeaderNames(Cell(g, i, c)) ==> name in p.nameToRow)
    ensures var p := Parse(g, named).value; var items := RowHeaderToRowNumber(g, named).value;
      forall name :: name in p.nameToRow ==>
        exists i :: LastHeaderWith(items, name, i) && p.nameToRow[name] == items[i].1
  {
    var p := Parse(g, named).value;
    var c := NameColumn(g, named).value;
    var items := RowHeaderToRowNumber(g, named).value;
    var column := Column(g, c);
    NamesDictSound(items);
    forall name | name in p.nameToRow
      ensures p.nameToRow[name] < |g| && name in HeaderNames(Cell(g, p.nameToRow[name], c))
    {
      var i :| LastHeaderWith(items, name, i) && p.nameToRow[name] == items[i].1;
      assert LastAt(column, items[i].0, items[i].1);
    }
    forall i, name | 0 <= i < |g| && name in HeaderNames(Cell(g, i, c))
      ensures name in p.nameToRow
    {
      assert HasKey(items, column[i]);
      var k :| 0 <= k < |items| && items[k].0 == column[i];
      assert name in HeaderNames(items[k].0);
    }
  }

  /**
   A header that occurs twice keeps the place of its first occurrence and
   the row of its last one.
   */
  lemma {:induction false} RepeatedHeaderOrder(a: Value, b: Value)
    requires a != b
    ensures Positions([a, b, a]) == [(a, 2), (b, 1)]
  {
    var ab: seq<Value> := [a, b];
    assert [a, b, a][..2] == ab;
    assert ab[..1] == [a];
    assert [a][..0] == [];
    assert Positions([a]) == [(a, 0)];
    assert Positions(ab) == [(a, 0), (b, 1)];
  }

  /**
   A name in both a repeated header and a header between its occurrences,
   as in the column `John Smith`, `Jane Doe / John Smith`, `John Smith`:
   the name takes the middle row 1, although row 2 also holds it.
   */
  lemma SharedHeaderWins(a: Value, b: Value, name: string)
    requires a != b && name in HeaderNames(a) && name in HeaderNames(b)
    ensures var names := FilterNamesDict(Positions([a, b, a]));
      && name in names
      && names[name] == 1
  {
    RepeatedHeaderOrder(a, b);
    var items := Positions([a, b, a]);
    var names := FilterNamesDict(items);
    assert name in HeaderNames(items[1].0);
    var i :| LastHeaderWith(items, name, i) && names[name] == items[i].1;
    assert i == 1;
  }
}
