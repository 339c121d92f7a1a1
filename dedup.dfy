/** Deduplicator: `unique_col_values` of python/CSV_Tools.py, in its value
    mode (`sorted(set(...))` of the non-empty cells of a column) and in its
    records mode (the first data row for each non-empty key). */
module Dedup {
  import opened Errors
  import opened PyStr
  import opened Tables
  import opened HeaderIndex

  // ---------------------------------------------------------------------------
  // sorted(set(values))

  predicate StrictlyAscending(s: seq<string>) {
    forall i, j :: 0 <= i < j < |s| ==> Less(s[i], s[j])
  }

  /** Adds `x` to a sorted list of distinct strings, unless already there. */
  function InsertSorted(x: string, s: seq<string>): (r: seq<string>)
    ensures forall y :: y in r <==> y == x || y in s
  {
    if s == [] then [x]
    else if x == s[0] then s
    else if Less(x, s[0]) then [x] + s
    else [s[0]] + InsertSorted(x, s[1..])
  }

  lemma {:induction false} InsertSortedAscending(x: string, s: seq<string>)
    requires StrictlyAscending(s)
    ensures StrictlyAscending(InsertSorted(x, s))
  {
    if s == [] || x == s[0] {
    } else if Less(x, s[0]) {
      forall j | 0 <= j < |s| ensures Less(x, s[j]) {
        if j > 0 {
          LessTransitive(x, s[0], s[j]);
        }
      }
    } else {
      LessTotal(x, s[0]);
      var rest := InsertSorted(x, s[1..]);
      InsertSortedAscending(x, s[1..]);
      forall k | 0 <= k < |rest| ensures Less(s[0], rest[k]) {
        if rest[k] != x {
          assert rest[k] in s[1..];
        }
      }
    }
  }

  /** `sorted(set(vals))`: the distinct values, in ascending string order. */
  function SortedSet(vals: seq<string>): (r: seq<string>)
    ensures forall y :: y in r <==> y in vals
  {
    if vals == [] then []
    else InsertSorted(vals[|vals| - 1], SortedSet(vals[..|vals| - 1]))
  }

  lemma {:induction false} SortedSetAscending(vals: seq<string>)
    ensures StrictlyAscending(SortedSet(vals))
  {
    if vals != [] {
      SortedSetAscending(vals[..|vals| - 1]);
      InsertSortedAscending(vals[|vals| - 1], SortedSet(vals[..|vals| - 1]));
    }
  }

  /** A strictly ascending list is determined by its elements: whatever
      algorithm sorts the set, the result is this one. */
  lemma {:induction false} AscendingUnique(a: seq<string>, b: seq<string>)
    requires StrictlyAscending(a) && StrictlyAscending(b)
    requires forall y :: y in a <==> y in b
    ensures a == b
  {
    if a != [] && b != [] {
      AscendingHeads(a, b);
      forall y ensures y in a[1..] <==> y in b[1..] {
        if y in a[1..] {
          assert Less(a[0], y);
          LessIrreflexive(y);
          assert y in b;
        }
        if y in b[1..] {
          assert Less(b[0], y);
          LessIrreflexive(y);
          assert y in a;
        }
      }
      AscendingUnique(a[1..], b[1..]);
      assert a == [a[0]] + a[1..] && b == [b[0]] + b[1..];
    } else {
      SameElementsEmpty(a, b);
    }
  }

  lemma SameElementsEmpty(a: seq<string>, b: seq<string>)
    requires forall y :: y in a <==> y in b
    ensures a == [] <==> b == []
  {
    if a != [] {
      assert a[0] in b;
    }
    if b != [] {
      assert b[0] in a;
    }
  }

  /** Two strictly ascending lists with the same elements start alike. */
  lemma AscendingHeads(a: seq<string>, b: seq<string>)
    requires StrictlyAscending(a) && StrictlyAscending(b) && a != [] && b != []
    requires forall y :: y in a <==> y in b
    ensures a[0] == b[0]
  {
    assert a[0] in b && b[0] in a;
    var i :| 0 <= i < |b| && b[i] == a[0];
    var j :| 0 <= j < |a| && a[j] == b[0];
    if i != 0 && j != 0 {
      LessAsymmetric(b[0], a[0]);
      assert false;
    }
  }

  // ---------------------------------------------------------------------------
  // Value mode

  /** `[x[c] for x in data if x[c] is not ""]`, the identity test taken as
      string inequality. */
  function NonEmptyCells(data: seq<Row>, c: nat): (r: seq<string>)
    requires Reaches(data, c)
    ensures forall y :: y in r <==> y != "" && y in Column(data, c)
  {
    if data == [] then []
    else
      var last := data[|data| - 1][c];
      assert Column(data, c) == Column(data[..|data| - 1], c) + [last];
      NonEmptyCells(data[..|data| - 1], c) + (if last != "" then [last] else [])
  }

  /** The column position `unique_col_values` works on: `indexer` on the
      header row with the single name; IndexError on an empty table. */
  function KeyColumn(table: seq<Row>, colName: string): (r: Result<nat>)
    ensures r.Ok? <==> |table| > 0 && colName in table[0]
    ensures r.Ok? ==> FirstPosition(table[0], colName, r.value)
    ensures |table| == 0 ==> r == Err(IndexError)
    ensures |table| > 0 && colName !in table[0] ==> r == Err(ColumnNotFound(colName))
  {
    if |table| == 0 then Err(IndexError)
    else
      match Indexer(table[0], [colName])
      case Err(e) => Err(e)
      case Ok(cols) => Ok(cols[0])
  }

  /** `unique_col_values(csv_list, col_name)` with `records=False`. */
  function UniqueValues(table: seq<Row>, colName: string): (r: Result<seq<string>>)
    ensures |table| == 0 ==> r == Err(IndexError)
    ensures |table| > 0 && colName !in table[0] ==> r == Err(ColumnNotFound(colName))
    ensures r.Ok? ==> forall y :: y in r.value ==> y != ""
  {
    match KeyColumn(table, colName)
    case Err(e) => Err(e)
    case Ok(c) =>
      if !Reaches(table[1..], c) then Err(IndexError)
      else Ok(SortedSet(NonEmptyCells(table[1..], c)))
  }

  /** Value mode succeeds exactly when the column exists and every data row
      reaches it; the list is then strictly ascending (so has no repeats) and
      holds exactly the non-empty cells of the column. */
  lemma UniqueValuesMeaning(table: seq<Row>, colName: string)
    ensures UniqueValues(table, colName).Ok? <==>
      |table| > 0 && colName in table[0] && Reaches(table[1..], KeyColumn(table, colName).value)
    ensures UniqueValues(table, colName).Ok? ==>
      var c := KeyColumn(table, colName).value;
      var r := UniqueValues(table, colName).value;
      && StrictlyAscending(r)
      && forall y :: y in r <==> y != "" && exists i :: 1 <= i < |table| && table[i][c] == y
  {
    if UniqueValues(table, colName).Ok? {
      var c := KeyColumn(table, colName).value;
      SortedSetAscending(NonEmptyCells(table[1..], c));
      DataColumnMembers(table, c);
    }
  }

  /** A value is in the data column exactly when some data row holds it. */
  lemma DataColumnMembers(table: seq<Row>, c: nat)
    requires |table| > 0 && Reaches(table[1..], c)
    ensures forall y :: y in Column(table[1..], c) <==> exists i :: 1 <= i < |table| && table[i][c] == y
  {
    var data := table[1..];
    forall y ensures y in Column(data, c) <==> exists i :: 1 <= i < |table| && table[i][c] == y {
      if y in Column(data, c) {
        var k :| 0 <= k < |data| && Column(data, c)[k] == y;
        assert table[k + 1][c] == y;
      }
      if exists i :: 1 <= i < |table| && table[i][c] == y {
        var i :| 1 <= i < |table| && table[i][c] == y;
        assert Column(data, c)[i - 1] == y;
      }
    }
  }

  // ---------------------------------------------------------------------------
  // Records mode

  /** What `unique_col_values(csv_list, col_name, records=True)` returns. */
  function UniqueRecordsSpec(table: seq<Row>, colName: string): (r: Result<seq<Row>>)
    ensures |table| == 0 ==> r == Err(IndexError)
    ensures |table| > 0 && colName !in table[0] ==> r == Err(ColumnNotFound(colName))
    ensures r.Ok? ==> 0 < |r.value| <= |table| && r.value[0] == table[0]
  {
    match KeyColumn(table, colName)
    case Err(e) => Err(e)
    case Ok(c) =>
      if !Reaches(table[1..], c) then Err(IndexError)
      else Ok([table[0]] + FirstPerKey(table[1..], c, true))
  }

  /** One step of the records loop: the next row is kept exactly when its
      key is among the unique values and not among the keys kept so far. */
  lemma RecordsStep(data: seq<Row>, c: nat, i: nat, unique: seq<string>, records: seq<Row>)
    requires Reaches(data, c) && i < |data|
    requires unique == SortedSet(NonEmptyCells(data, c))
    requires records == FirstPerKey(data[..i], c, true)
    ensures Reaches(records, c)
    ensures var key := data[i][c];
      FirstPerKey(data[..i + 1], c, true)
        == if key in unique && key !in Column(records, c) then records + [data[i]] else records
  {
    UniqueHoldsKey(data, c, i);
    KeptKeyIsSeen(data, c, i);
    var next := data[..i + 1];
    assert next[..|next| - 1] == data[..i] && next[|next| - 1] == data[i];
  }

  lemma UniqueHoldsKey(data: seq<Row>, c: nat, i: nat)
    requires Reaches(data, c) && i < |data|
    ensures data[i][c] in SortedSet(NonEmptyCells(data, c)) <==> data[i][c] != ""
  {
    assert Column(data, c)[i] == data[i][c];
  }

  lemma KeptKeyIsSeen(data: seq<Row>, c: nat, i: nat)
    requires Reaches(data, c) && i <= |data|
    ensures forall key :: key != "" ==>
      (key in Column(FirstPerKey(data[..i], c, true), c) <==> key in Column(data[..i], c))
  {
    FirstPerKeyKeys(data[..i], c, true);
  }

  method UniqueRecords(table: seq<Row>, colName: string) returns (r: Result<seq<Row>>)
    ensures r == UniqueRecordsSpec(table, colName)
  {
    var found := KeyColumn(table, colName);
    if found.Err? {
      return Err(found.error);
    }
    var c := found.value;
    var data := table[1..];
    if !Reaches(data, c) {
      return Err(IndexError);
    }
    var unique := SortedSet(NonEmptyCells(data, c));
    var records := KeepFirstRecords(data, c, unique);
    return Ok([table[0]] + records);
  }

  /** The records loop of `unique_col_values`: walks the data rows, keeping
      a row when its key is one of the unique values and not yet used. */
  method KeepFirstRecords(data: seq<Row>, c: nat, unique: seq<string>) returns (records: seq<Row>)
    requires Reaches(data, c)
    requires unique == SortedSet(NonEmptyCells(data, c))
    ensures records == FirstPerKey(data, c, true)
  {
    records := [];
    var used: seq<string> := [];
    var i := 0;
    while i < |data|
      invariant 0 <= i <= |data|
      invariant records == FirstPerKey(data[..i], c, true)
      invariant used == Column(records, c)
    {
      var row := data[i];
      RecordsStep(data, c, i, unique, records);
      if row[c] in unique && row[c] !in used {
        ColumnSnoc(records, row, c);
        records := records + [row];
        used := used + [row[c]];
      }
      i := i + 1;
    }
    assert data[..i] == data;
  }

  /** Records mode keeps the header, then one row per distinct non-empty
      key, no key twice; the kept keys are exactly the values of value
      mode. */
  lemma UniqueRecordsKeys(table: seq<Row>, colName: string)
    requires UniqueRecordsSpec(table, colName).Ok?
    ensures UniqueValues(table, colName).Ok?
    ensures var c := KeyColumn(table, colName).value;
      var recs := UniqueRecordsSpec(table, colName).value;
      var keys := Column(recs[1..], c);
      && recs[0] == table[0]
      && (forall y :: y in keys <==> y in UniqueValues(table, colName).value)
      && (forall i, j :: 0 <= i < j < |keys| ==> keys[i] != keys[j])
  {
    var c := KeyColumn(table, colName).value;
    var recs := UniqueRecordsSpec(table, colName).value;
    assert recs[1..] == FirstPerKey(table[1..], c, true);
    FirstPerKeyKeys(table[1..], c, true);
  }

  /** Row `j` is the first of `rows` carrying its key. */
  predicate FirstOfKey(rows: seq<Row>, c: nat, j: nat)
    requires Reaches(rows, c) && j < |rows|
  {
    forall m :: 0 <= m < j ==> rows[m][c] != rows[j][c]
  }

  /** `row` occurs in `rows` at a position that is first of its key. */
  predicate FirstRowOf(rows: seq<Row>, c: nat, row: Row)
    requires Reaches(rows, c)
  {
    exists j :: 0 <= j < |rows| && rows[j] == row && FirstOfKey(rows, c, j)
  }

  /** Each row kept by records mode is the first data row carrying its key. */
  lemma UniqueRecordsFirst(table: seq<Row>, colName: string)
    requires UniqueRecordsSpec(table, colName).Ok?
    ensures var c := KeyColumn(table, colName).value;
      var recs := UniqueRecordsSpec(table, colName).value;
      forall k :: 1 <= k < |recs| ==> FirstRowOf(table[1..], c, recs[k])
  {
    var c := KeyColumn(table, colName).value;
    var recs := UniqueRecordsSpec(table, colName).value;
    var data := table[1..];
    var kept := FirstPerKey(data, c, true);
    assert recs == [table[0]] + kept;
    FirstPerKeyFirst(data, c);
    forall k | 1 <= k < |recs| ensures FirstRowOf(data, c, recs[k]) {
      assert recs[k] == kept[k - 1];
      assert kept[k - 1] in kept;
    }
  }

  /** Every kept row is the first row of `data` carrying its key. */
  lemma {:induction false} FirstPerKeyFirst(data: seq<Row>, c: nat)
    requires Reaches(data, c)
    ensures forall row :: row in FirstPerKey(data, c, true) ==> FirstRowOf(data, c, row)
  {
    if data != [] {
      var prefix := data[..|data| - 1];
      var last := |data| - 1;
      FirstPerKeyFirst(prefix, c);
      assert FirstPerKey(data, c, true)
        == FirstPerKey(prefix, c, true) + (if NewKey(data, c, true) then [data[last]] else []);
      forall row | row in FirstPerKey(data, c, true) ensures FirstRowOf(data, c, row) {
        if row in FirstPerKey(prefix, c, true) {
          var j :| 0 <= j < |prefix| && prefix[j] == row && FirstOfKey(prefix, c, j);
          FirstOfKeyExtends(data, c, j);
          assert data[j] == row;
        } else {
          NewKeyIsFirst(data, c);
          assert data[last] == row;
        }
      }
    }
  }

  /** Being first of its key survives appending a row. */
  lemma FirstOfKeyExtends(data: seq<Row>, c: nat, j: nat)
    requires Reaches(data, c) && j < |data| - 1
    requires FirstOfKey(data[..|data| - 1], c, j)
    ensures FirstOfKey(data, c, j)
  {
    var prefix := data[..|data| - 1];
    assert forall m :: 0 <= m <= j ==> prefix[m] == data[m];
  }

  /** A last row with a new key is the first row carrying that key. */
  lemma NewKeyIsFirst(data: seq<Row>, c: nat)
    requires Reaches(data, c) && data != [] && NewKey(data, c, true)
    ensures FirstOfKey(data, c, |data| - 1)
  {
    var prefix := data[..|data| - 1];
    forall m | 0 <= m < |data| - 1 ensures data[m][c] != data[|data| - 1][c] {
      assert Column(prefix, c)[m] == data[m][c];
    }
  }
}
