/** Column Projector: `column_reducer` of python/CSV_Tools.py. The rows are
    copied, then each copy loses the chosen positions, deleted one at a time
    in descending order. */
module Projector {
  import opened Errors
  import opened Tables

  // ---------------------------------------------------------------------------
  // Reference views of a row with some positions removed or picked

  /** `row` without the cells at the positions in `drop`, in order. */
  function Keep(row: Row, drop: set<nat>): seq<string>
  {
    if row == [] then []
    else
      Keep(row[..|row| - 1], drop)
        + (if |row| - 1 in drop then [] else [row[|row| - 1]])
  }

  /** The cells of `row` at the positions in `pick`, in ascending position
      order (not in the order the positions were listed). */
  function Pick(row: Row, pick: set<nat>): seq<string>
  {
    if row == [] then []
    else
      Pick(row[..|row| - 1], pick)
        + (if |row| - 1 in pick then [row[|row| - 1]] else [])
  }

  lemma {:induction false} KeepNothing(row: Row)
    ensures Keep(row, {}) == row
  {
    if row != [] {
      KeepNothing(row[..|row| - 1]);
    }
  }

  /** Positions past the end of `a` do not matter to `Keep`. */
  lemma {:induction false} KeepAppend(a: Row, b: Row, drop: set<nat>)
    requires forall j :: j in drop ==> j < |a|
    ensures Keep(a + b, drop) == Keep(a, drop) + b
    decreases |b|
  {
    if b == [] {
      assert a + b == a;
    } else {
      var b' := b[..|b| - 1];
      assert (a + b)[..|a + b| - 1] == a + b';
      KeepAppend(a, b', drop);
    }
  }

  /** `Keep` only looks at positions inside the row. */
  lemma {:induction false} KeepAgree(a: Row, s: set<nat>, t: set<nat>)
    requires forall j :: j < |a| ==> (j in s <==> j in t)
    ensures Keep(a, s) == Keep(a, t)
  {
    if a != [] {
      KeepAgree(a[..|a| - 1], s, t);
    }
  }

  /** Dropping the complement of `pick` is picking. */
  lemma {:induction false} KeepIsPick(row: Row, drop: set<nat>, pick: set<nat>)
    requires forall j: nat :: j < |row| ==> (j in drop <==> j !in pick)
    ensures Keep(row, drop) == Pick(row, pick)
  {
    if row != [] {
      KeepIsPick(row[..|row| - 1], drop, pick);
    }
  }

  // ---------------------------------------------------------------------------
  // The steps of column_reducer

  predicate Descending(s: seq<nat>) {
    forall i, j :: 0 <= i < j < |s| ==> s[i] >= s[j]
  }

  predicate Distinct(s: seq<nat>) {
    forall i, j :: 0 <= i < j < |s| ==> s[i] != s[j]
  }

  function InsertDesc(x: nat, s: seq<nat>): (r: seq<nat>)
    ensures multiset(r) == multiset(s) + multiset{x}
  {
    if s == [] || x >= s[0] then [x] + s
    else
      assert s == [s[0]] + s[1..];
      [s[0]] + InsertDesc(x, s[1..])
  }

  lemma {:induction false} InsertDescSorted(x: nat, s: seq<nat>)
    requires Descending(s)
    ensures Descending(InsertDesc(x, s))
  {
    if s != [] && x < s[0] {
      var rest := InsertDesc(x, s[1..]);
      InsertDescSorted(x, s[1..]);
      forall i | 0 <= i < |rest| ensures s[0] >= rest[i] {
        assert rest[i] in multiset(s[1..]) + multiset{x};
      }
    }
  }

  /** `sorted(cols, reverse=True)` */
  function SortDesc(s: seq<nat>): (r: seq<nat>)
    ensures Descending(r)
    ensures multiset(r) == multiset(s)
  {
    if s == [] then []
    else
      assert s == [s[0]] + s[1..];
      InsertDescSorted(s[0], SortDesc(s[1..]));
      InsertDesc(s[0], SortDesc(s[1..]))
  }

  lemma {:induction false} InsertDescDistinct(x: nat, s: seq<nat>)
    requires Descending(s) && Distinct(s) && x !in s
    ensures Distinct(InsertDesc(x, s))
  {
    if s != [] && x < s[0] {
      InsertDescDistinct(x, s[1..]);
      assert s[0] !in multiset(InsertDesc(x, s[1..]));
    }
  }

  /** Sorting distinct positions keeps them distinct, hence strictly
      descending. */
  lemma {:induction false} SortDescDistinct(s: seq<nat>)
    requires Distinct(s)
    ensures Distinct(SortDesc(s))
  {
    if s != [] {
      SortDescDistinct(s[1..]);
      assert s[0] !in multiset(SortDesc(s[1..]));
      InsertDescDistinct(s[0], SortDesc(s[1..]));
    }
  }

  /** `del row[c]` */
  function Delete(row: Row, c: nat): (r: Row)
    requires c < |row|
    ensures |r| == |row| - 1
  {
    row[..c] + row[c + 1..]
  }

  /** Deleting the positions of `cols` one after another, as the inner loop
      does; IndexError at the first position past the (shrunk) row. */
  function DeleteAll(row: Row, cols: seq<nat>): Result<Row>
  {
    if cols == [] then Ok(row)
    else if cols[0] >= |row| then Err(IndexError)
    else DeleteAll(Delete(row, cols[0]), cols[1..])
  }

  /** Deleting strictly descending positions, all inside the row, removes
      exactly those positions: no deletion shifts a later one. */
  lemma {:induction false} DeleteDescending(row: Row, d: seq<nat>)
    requires Descending(d) && Distinct(d)
    requires forall k :: 0 <= k < |d| ==> d[k] < |row|
    ensures DeleteAll(row, d) == Ok(Keep(row, Listed(d)))
  {
    if d == [] {
      assert Listed(d) == {};
      KeepNothing(row);
    } else {
      var c, rest := d[0], d[1..];
      DescendingHead(d);
      var a, x, b := row[..c], row[c], row[c + 1..];
      DeleteDescending(a + b, rest);
      KeepAppend(a, b, Listed(rest));
      assert row == (a + [x]) + b;
      KeepAppend(a + [x], b, Listed(d));
      assert (a + [x])[..|a + [x]| - 1] == a;
      assert Keep(a + [x], Listed(d)) == Keep(a, Listed(d));
      KeepAgree(a, Listed(d), Listed(rest));
      assert Delete(row, c) == a + b;
    }
  }

  /** The head of a strictly descending list is its largest position; the
      tail is strictly descending, below the head, and lists the same
      positions below the head. */
  lemma DescendingHead(d: seq<nat>)
    requires Descending(d) && Distinct(d) && d != []
    ensures Descending(d[1..]) && Distinct(d[1..])
    ensures forall k :: 0 <= k < |d[1..]| ==> d[1..][k] < d[0]
    ensures d[0] in Listed(d) && forall j :: j in Listed(d) ==> j <= d[0]
    ensures forall j :: j < d[0] ==> (j in Listed(d) <==> j in Listed(d[1..]))
  {
    var rest := d[1..];
    forall k | 0 <= k < |rest| ensures rest[k] < d[0] {
      assert d[k + 1] == rest[k];
    }
    forall j | j in Listed(d) ensures j <= d[0] {
      var k :| 0 <= k < |d| && d[k] == j;
    }
    forall j | j < d[0] ensures j in Listed(d) <==> j in Listed(rest) {
      if j in d {
        var k :| 0 <= k < |d| && d[k] == j;
        assert rest[k - 1] == j;
      }
    }
  }

  /** `remove_cols` of keep mode: the positions `0..n-1` not listed in
      `keep`, ascending. */
  function Complement(n: nat, keep: seq<nat>): seq<nat>
  {
    if n == 0 then []
    else Complement(n - 1, keep) + (if n - 1 in keep then [] else [n - 1])
  }

  /** The complement holds each position below `n` that is not kept, once,
      and nothing else. */
  lemma {:induction false} ComplementMembers(n: nat, keep: seq<nat>)
    ensures var r := Complement(n, keep);
      && (forall j: nat :: j in r <==> j < n && j !in keep)
      && Distinct(r)
      && (forall k :: 0 <= k < |r| ==> r[k] < n)
  {
    if n > 0 {
      ComplementMembers(n - 1, keep);
      var prev := Complement(n - 1, keep);
      if n - 1 in keep {
        assert Complement(n, keep) == prev + [];
      } else {
        assert n - 1 !in prev;
      }
    }
  }

  /** The positions `column_reducer` deletes: `cols` itself in remove mode;
      in keep mode the header positions not listed (IndexError on an empty
      table, which has no header). */
  function Removals(table: seq<Row>, cols: seq<nat>, remove: bool): (r: Result<seq<nat>>)
    ensures remove ==> r == Ok(cols)
    ensures !remove ==> (r.Err? <==> |table| == 0) && (r.Err? ==> r.error == IndexError)
    ensures !remove && r.Ok? ==> forall j: nat :: j in r.value <==> j < |table[0]| && j !in cols
  {
    if remove then Ok(cols)
    else if |table| == 0 then Err(IndexError)
    else
      ComplementMembers(|table[0]|, cols);
      Ok(Complement(|table[0]|, cols))
  }

  /** Every row survives the deletions without an IndexError. */
  predicate AllDeletable(rows: seq<Row>, desc: seq<nat>) {
    forall i :: 0 <= i < |rows| ==> DeleteAll(rows[i], desc).Ok?
  }

  /** What `column_reducer(csv_list, cols, remove)` returns. */
  function ColumnReducerSpec(table: seq<Row>, cols: seq<nat>, remove: bool): (r: Result<seq<Row>>)
    ensures r.Ok? ==> |r.value| == |table|
  {
    match Removals(table, cols, remove)
    case Err(e) => Err(e)
    case Ok(toDelete) =>
      var desc := SortDesc(toDelete);
      if !AllDeletable(table, desc) then Err(IndexError)
      else Ok(seq(|table|, i requires 0 <= i < |table| => DeleteAll(table[i], desc).value))
  }

  method ColumnReducer(table: seq<Row>, cols: seq<nat>, remove: bool) returns (r: Result<seq<Row>>)
    ensures r == ColumnReducerSpec(table, cols, remove)
  {
    var toDelete := cols;
    if !remove {
      if |table| == 0 {
        return Err(IndexError);
      }
      toDelete := KeepModeRemovals(table[0], cols);
    }
    var reduced := table;
    var desc := SortDesc(toDelete);
    var i := 0;
    while i < |reduced|
      invariant 0 <= i <= |table| && |reduced| == |table|
      invariant forall j :: 0 <= j < i ==> DeleteAll(table[j], desc) == Ok(reduced[j])
      invariant forall j :: i <= j < |table| ==> reduced[j] == table[j]
    {
      var row := DeleteColumns(reduced[i], desc);
      if row.Err? {
        return Err(IndexError);
      }
      reduced := reduced[i := row.value];
      i := i + 1;
    }
    assert AllDeletable(table, desc);
    assert reduced == seq(|table|, i requires 0 <= i < |table| => DeleteAll(table[i], desc).value);
    return Ok(reduced);
  }

  /** The keep-mode loop that lists the header positions not kept. */
  method KeepModeRemovals(header: Row, keep: seq<nat>) returns (removeCols: seq<nat>)
    ensures removeCols == Complement(|header|, keep)
  {
    removeCols := [];
    var x := 0;
    while x < |header|
      invariant 0 <= x <= |header|
      invariant removeCols == Complement(x, keep)
    {
      ComplementStep(x, keep, removeCols);
      if x !in keep {
        removeCols := removeCols + [x];
      }
      x := x + 1;
    }
  }

  /** One step of the keep-mode loop, on the list built so far. */
  lemma ComplementStep(x: nat, keep: seq<nat>, built: seq<nat>)
    requires built == Complement(x, keep)
    ensures Complement(x + 1, keep) == if x in keep then built else built + [x]
  {
    assert built + [] == built;
  }

  /** The inner loop: `del row[col]` for each position of `desc` in turn. */
  method DeleteColumns(row0: Row, desc: seq<nat>) returns (r: Result<Row>)
    ensures r == DeleteAll(row0, desc)
  {
    var row := row0;
    var k := 0;
    while k < |desc|
      invariant 0 <= k <= |desc|
      invariant DeleteAll(row, desc[k..]) == DeleteAll(row0, desc)
    {
      if desc[k] >= |row| {
        return Err(IndexError);
      }
      assert desc[k..] == [desc[k]] + desc[k + 1..];
      row := Delete(row, desc[k]);
      k := k + 1;
    }
    assert desc[k..] == [];
    return Ok(row);
  }

  /** The positions listed in `s`, as a set. */
  function Listed(s: seq<nat>): (r: set<nat>)
    ensures forall x :: x in r <==> x in s
  {
    set x | x in s
  }

  /** Sorting keeps the listed positions. */
  lemma SortDescMembers(s: seq<nat>)
    ensures Listed(SortDesc(s)) == Listed(s)
  {
    forall x ensures x in SortDesc(s) <==> x in s {
      assert x in SortDesc(s) <==> x in multiset(SortDesc(s));
      assert x in s <==> x in multiset(s);
    }
  }

  /** One row in remove mode: distinct positions inside the row are removed
      exactly, whatever order they were listed in. */
  lemma RemoveModeRow(row: Row, cols: seq<nat>)
    requires Distinct(cols)
    requires forall k :: 0 <= k < |cols| ==> cols[k] < |row|
    ensures DeleteAll(row, SortDesc(cols)) == Ok(Keep(row, Listed(cols)))
  {
    var desc := SortDesc(cols);
    SortDescDistinct(cols);
    SortDescMembers(cols);
    forall k | 0 <= k < |desc| ensures desc[k] < |row| {
      assert desc[k] in Listed(cols);
    }
    DeleteDescending(row, desc);
  }

  /** One row in keep mode, the header having the row's length. */
  lemma KeepModeRow(row: Row, cols: seq<nat>)
    ensures DeleteAll(row, SortDesc(Complement(|row|, cols))) == Ok(Pick(row, Listed(cols)))
  {
    var comp := Complement(|row|, cols);
    ComplementMembers(|row|, cols);
    RemoveModeRow(row, comp);
    forall j: nat | j < |row| ensures j in Listed(comp) <==> j !in Listed(cols) {
      assert j in comp <==> j !in cols;
    }
    KeepIsPick(row, Listed(comp), Listed(cols));
  }

  /** Remove mode with distinct positions present in every row: each row,
      header included, loses exactly those positions and nothing else. */
  lemma RemoveModeExact(table: seq<Row>, cols: seq<nat>)
    requires Distinct(cols)
    requires forall i, k :: 0 <= i < |table| && 0 <= k < |cols| ==> cols[k] < |table[i]|
    ensures ColumnReducerSpec(table, cols, true).Ok?
    ensures forall i :: 0 <= i < |table| ==>
      ColumnReducerSpec(table, cols, true).value[i] == Keep(table[i], Listed(cols))
  {
    forall i | 0 <= i < |table|
      ensures DeleteAll(table[i], SortDesc(cols)) == Ok(Keep(table[i], Listed(cols)))
    {
      RemoveModeRow(table[i], cols);
    }
  }

  /** Keep mode on a rectangular table: each row retains exactly the listed
      positions, in ascending position order; unknown positions are ignored. */
  lemma KeepModeExact(table: seq<Row>, cols: seq<nat>)
    requires |table| > 0
    requires forall i :: 0 <= i < |table| ==> |table[i]| == |table[0]|
    ensures ColumnReducerSpec(table, cols, false).Ok?
    ensures forall i :: 0 <= i < |table| ==>
      ColumnReducerSpec(table, cols, false).value[i] == Pick(table[i], Listed(cols))
  {
    forall i | 0 <= i < |table|
      ensures DeleteAll(table[i], SortDesc(Complement(|table[0]|, cols))) == Ok(Pick(table[i], Listed(cols)))
    {
      KeepModeRow(table[i], cols);
    }
  }

  /** A position listed twice is deleted twice, taking the next column with
      it. */
  lemma RepeatedPositionDeletesTwice()
    ensures ColumnReducerSpec([["a", "b", "c"]], [1, 1], true) == Ok([["a"]])
  {
    assert SortDesc([1, 1]) == [1, 1];
    var row: Row := ["a", "b", "c"];
    assert Delete(row, 1) == ["a", "c"];
    assert Delete(["a", "c"], 1) == ["a"];
    assert DeleteAll(row, [1, 1]) == Ok(["a"]);
    assert AllDeletable([row], [1, 1]);
    assert seq(1, i requires 0 <= i < 1 => DeleteAll([row][i], [1, 1]).value) == [["a"]];
  }
}
