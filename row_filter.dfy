/** Row Filter: `required_fields` and `attribute_filter` of
    python/CSV_Tools.py. Both build a fresh result list by appending rows in
    a loop; neither changes its input. */
module RowFilter {
  import opened Errors
  import opened PyList
  import opened Tables
  import opened HeaderIndex

  // ---------------------------------------------------------------------------
  // required_fields

  /** Every checked column exists in `row`. */
  predicate Covers(row: Row, cols: seq<nat>) {
    forall k :: 0 <= k < |cols| ==> cols[k] < |row|
  }

  /** Every checked column of `row` holds a non-empty string. */
  predicate Passes(row: Row, cols: seq<nat>)
    requires Covers(row, cols)
  {
    forall k :: 0 <= k < |cols| ==> row[cols[k]] != ""
  }

  /** The data rows that miss a required value, as a set of row values: the
      source collects them in a list and tests membership by equality. */
  function FailSet(data: seq<Row>, cols: seq<nat>): set<Row>
  {
    set j | 0 <= j < |data| && Covers(data[j], cols) && !Passes(data[j], cols) :: data[j]
  }

  /** One more data row adds itself to the failing set exactly when it
      misses a required value. */
  lemma FailSetSnoc(data: seq<Row>, i: nat, cols: seq<nat>)
    requires i < |data| && Covers(data[i], cols)
    ensures FailSet(data[..i + 1], cols)
      == FailSet(data[..i], cols) + (if Passes(data[i], cols) then {} else {data[i]})
  {
    var next := data[..i + 1];
    assert forall j :: 0 <= j < i ==> next[j] == data[..i][j];
    assert next[i] == data[i];
  }

  /** The rows of `rows` whose value is not in `bad`, in order. */
  function Exclude(rows: seq<Row>, bad: set<Row>): seq<Row>
  {
    if rows == [] then []
    else
      Exclude(rows[..|rows| - 1], bad)
        + (if rows[|rows| - 1] in bad then [] else [rows[|rows| - 1]])
  }

  lemma {:induction false} ExcludeAppend(a: seq<Row>, b: seq<Row>, bad: set<Row>)
    ensures Exclude(a + b, bad) == Exclude(a, bad) + Exclude(b, bad)
    decreases |b|
  {
    if b == [] {
      assert a + b == a;
    } else {
      var b' := b[..|b| - 1];
      assert (a + b)[..|a + b| - 1] == a + b';
      ExcludeAppend(a, b', bad);
    }
  }

  /** The reference meaning of the filter: the data rows in which every
      required column is non-empty, in input order. */
  function PassingRows(data: seq<Row>, cols: seq<nat>): (r: seq<Row>)
    requires forall j :: 0 <= j < |data| ==> Covers(data[j], cols)
    ensures forall x :: x in r <==> x in data && Passes(x, cols)
  {
    if data == [] then []
    else
      PassingRows(data[..|data| - 1], cols)
        + (if Passes(data[|data| - 1], cols) then [data[|data| - 1]] else [])
  }

  /** What `required_fields(csv_list, cols_to_check)` returns: IndexError
      when a checked column is missing from a data row, otherwise every row
      (header included) whose value is not among the failing data rows. */
  function RequiredFieldsSpec(table: seq<Row>, cols: seq<nat>): Result<seq<Row>>
  {
    var data := From(table, 1);
    if exists j :: 0 <= j < |data| && !Covers(data[j], cols) then Err(IndexError)
    else Ok(Exclude(table, FailSet(data, cols)))
  }

  method RequiredFields(table: seq<Row>, cols: seq<nat>) returns (r: Result<seq<Row>>)
    ensures r == RequiredFieldsSpec(table, cols)
  {
    var data := From(table, 1);
    var toRemove: seq<Row> := [];
    var i := 0;
    while i < |data|
      invariant 0 <= i <= |data|
      invariant forall j :: 0 <= j < i ==> Covers(data[j], cols)
      invariant forall x :: x in toRemove <==> x in FailSet(data[..i], cols)
    {
      var row := data[i];
      var k := 0;
      while k < |cols|
        invariant 0 <= k <= |cols|
        invariant forall m :: 0 <= m < k ==> cols[m] < |row|
        invariant forall x :: x in toRemove <==>
          x in FailSet(data[..i], cols) || (x == row && exists m :: 0 <= m < k && row[cols[m]] == "")
      {
        if cols[k] >= |row| {
          return Err(IndexError);
        }
        if row[cols[k]] == "" && row !in toRemove {
          toRemove := toRemove + [row];
        }
        k := k + 1;
      }
      FailSetSnoc(data, i, cols);
      i := i + 1;
    }
    assert data[..i] == data;
    var result: seq<Row> := [];
    var j := 0;
    while j < |table|
      invariant 0 <= j <= |table|
      invariant result == Exclude(table[..j], FailSet(data, cols))
    {
      assert table[..j + 1][..j] == table[..j];
      if table[j] !in toRemove {
        result := result + [table[j]];
      }
      j := j + 1;
    }
    assert table[..j] == table;
    return Ok(result);
  }

  /** A data row survives `required_fields` exactly when each of its checked
      columns is non-empty, and survivors keep their order. The header row,
      never checked itself, is dropped exactly when some failing data row is
      equal to it, because exclusion is by value. */
  lemma RequiredFieldsMeaning(table: seq<Row>, cols: seq<nat>)
    requires |table| > 0
    requires RequiredFieldsSpec(table, cols).Ok?
    ensures RequiredFieldsSpec(table, cols).value ==
      (if table[0] in FailSet(table[1..], cols) then [] else [table[0]])
      + PassingRows(table[1..], cols)
  {
    var data := table[1..];
    var bad := FailSet(data, cols);
    assert table == [table[0]] + data;
    ExcludeAppend([table[0]], data, bad);
    assert Exclude([table[0]], bad) == if table[0] in bad then [] else [table[0]] by {
      assert [table[0]][..0] == [];
    }
    ExcludeIsPassing(data, cols);
  }

  lemma {:induction false} ExcludeIsPassing(data: seq<Row>, cols: seq<nat>)
    requires forall j :: 0 <= j < |data| ==> Covers(data[j], cols)
    ensures Exclude(data, FailSet(data, cols)) == PassingRows(data, cols)
  {
    ExcludePassingFrom(data, data, cols);
  }

  /** Filtering a part of the data by the failing set of the whole data is
      the same as filtering it by `Passes`: equal rows pass or fail together. */
  lemma {:induction false} ExcludePassingFrom(part: seq<Row>, data: seq<Row>, cols: seq<nat>)
    requires forall j :: 0 <= j < |data| ==> Covers(data[j], cols)
    requires forall j :: 0 <= j < |part| ==> part[j] in data
    ensures forall j :: 0 <= j < |part| ==> Covers(part[j], cols)
    ensures Exclude(part, FailSet(data, cols)) == PassingRows(part, cols)
  {
    if part != [] {
      var last := part[|part| - 1];
      ExcludePassingFrom(part[..|part| - 1], data, cols);
      assert last in FailSet(data, cols) <==> !Passes(last, cols);
    }
  }

  /** Exclusion by value: a header equal to a failing data row disappears
      together with it. */
  lemma RequiredFieldsDropsEqualHeader()
    ensures RequiredFieldsSpec([["a", ""], ["a", ""]], [1]) == Ok([])
  {
    var table: seq<Row> := [["a", ""], ["a", ""]];
    var data := From(table, 1);
    assert data == [["a", ""]];
    assert [1][0] == 1 && data[0][1] == "";
    assert Covers(data[0], [1]) && !Passes(data[0], [1]);
    assert FailSet(data, [1]) == {["a", ""]};
    assert table[..1] == [["a", ""]];
    assert Exclude(table[..1], {["a", ""]}) == [] by {
      assert table[..1][..0] == [];
    }
  }

  // ---------------------------------------------------------------------------
  // attribute_filter

  /** The rows whose cell in column `c` equals `v`, in order. */
  function Matching(rows: seq<Row>, c: nat, v: string): (r: seq<Row>)
    requires Reaches(rows, c)
    ensures Reaches(r, c)
  {
    if rows == [] then []
    else
      Matching(rows[..|rows| - 1], c, v)
        + (if rows[|rows| - 1][c] == v then [rows[|rows| - 1]] else [])
  }

  /** `Matching` keeps exactly the rows whose cell equals the value. */
  lemma {:induction false} MatchingMembers(rows: seq<Row>, c: nat, v: string)
    requires Reaches(rows, c)
    ensures forall x :: x in Matching(rows, c, v) <==> x in rows && x[c] == v
  {
    if rows != [] {
      MatchingMembers(rows[..|rows| - 1], c, v);
      assert rows == rows[..|rows| - 1] + [rows[|rows| - 1]];
    }
  }

  lemma {:induction false} MatchingAppend(a: seq<Row>, b: seq<Row>, c: nat, v: string)
    requires Reaches(a, c) && Reaches(b, c)
    ensures Reaches(a + b, c)
    ensures Matching(a + b, c, v) == Matching(a, c, v) + Matching(b, c, v)
    decreases |b|
  {
    if b == [] {
      assert a + b == a;
    } else {
      var b' := b[..|b| - 1];
      assert (a + b)[..|a + b| - 1] == a + b';
      MatchingAppend(a, b', c, v);
    }
  }

  lemma MatchingCons(x: Row, s: seq<Row>, c: nat, v: string)
    requires c < |x| && Reaches(s, c)
    ensures Reaches([x] + s, c)
    ensures Matching([x] + s, c, v) == (if x[c] == v then [x] else []) + Matching(s, c, v)
  {
    MatchingAppend([x], s, c, v);
    assert [x][..0] == [];
  }

  /** What `attribute_filter(csv_list, target_value, target_col_name)`
      returns; `target` is `str(target_value)`. */
  function AttributeFilterSpec(table: seq<Row>, target: string, colName: string): Result<seq<Row>>
  {
    if |table| == 0 then Err(IndexError)
    else
      match Resolve(table[0], colName)
      case Err(e) => Err(e)
      case Ok(c) =>
        if !Reaches(table, c) then Err(IndexError)
        else Ok([table[0]] + Matching(table, c, target))
  }

  method AttributeFilter(table: seq<Row>, target: string, colName: string)
    returns (r: Result<seq<Row>>)
    ensures r == AttributeFilterSpec(table, target, colName)
  {
    if |table| == 0 {
      return Err(IndexError);
    }
    var headers := table[0];
    var found := Resolve(headers, colName);
    if found.Err? {
      return Err(found.error);
    }
    var c := found.value;
    var filtered := [headers];
    var i := 0;
    while i < |table|
      invariant 0 <= i <= |table|
      invariant Reaches(table[..i], c)
      invariant filtered == [headers] + Matching(table[..i], c, target)
    {
      if c >= |table[i]| {
        return Err(IndexError);
      }
      assert table[..i + 1][..i] == table[..i];
      if table[i][c] == target {
        filtered := filtered + [table[i]];
      }
      i := i + 1;
    }
    assert table[..i] == table;
    return Ok(filtered);
  }

  /** `attribute_filter` scans the header row too: since the header holds
      `target_col_name` in the target column, the header appears a second
      time exactly when the target value equals the column name. The rest
      are the matching data rows, in order. */
  lemma AttributeFilterScansHeader(table: seq<Row>, target: string, colName: string)
    requires AttributeFilterSpec(table, target, colName).Ok?
    ensures |table| > 0
    ensures AttributeFilterSpec(table, target, colName).value ==
      [table[0]] + (if target == colName then [table[0]] else [])
      + Matching(table[1..], Resolve(table[0], colName).value, target)
  {
    var c := Resolve(table[0], colName).value;
    var h, rest := table[0], table[1..];
    assert table == [h] + rest;
    MatchingCons(h, rest, c, target);
  }
}
