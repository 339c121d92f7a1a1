/** Left Join (`left_join` in python/CSV_Tools.py): merges the cells of a
    foreign table into the rows of a primary table on a key pair, editing the
    primary table's header and rows in place. */
module LeftJoin {
  import opened Errors
  import opened PyList
  import opened Tables
  import opened HeaderIndex

  // ---------------------------------------------------------------------------
  // The joined header

  /** The primary header with every foreign header other than the foreign key
      name added: at the end, or (insert mode) right after the primary key
      column, in foreign order. */
  function JoinedHeader(ph: Row, pkc: nat, fh: Row, keyName: string, insert: bool): (r: Row)
    requires pkc < |ph|
    ensures |r| == |ph| + |Without(fh, keyName)|
  {
    if insert then ph[..pkc + 1] + Without(fh, keyName) + ph[pkc + 1..]
    else ph + Without(fh, keyName)
  }

  // ---------------------------------------------------------------------------
  // Merging one primary row

  /** The row after the first `n` cells of the matching foreign row `fr` went
      through the cell loop: each cell different from the key cell is
      appended, or inserted at `pkc + cell_count`, where `cell_count` is the
      cell's own position in `fr`. */
  function MergeCells(acc: Row, fr: Row, n: nat, pkc: nat, fkc: nat, insert: bool): (r: Row)
    requires fkc < |fr| && n <= |fr|
    ensures |acc| <= |r| <= |acc| + n
  {
    if n == 0 then acc
    else
      var before := MergeCells(acc, fr, n - 1, pkc, fkc, insert);
      var cell := fr[n - 1];
      if cell == fr[fkc] then before
      else if insert then Insert(before, pkc + (n - 1), cell)
      else before + [cell]
  }

  /** The row after the scan of the deduplicated foreign data rows `rest`:
      every row whose key equals `key` has its cells merged. */
  function MergeAll(acc: Row, rest: seq<Row>, key: string, pkc: nat, fkc: nat, insert: bool): (r: Row)
    requires Reaches(rest, fkc)
    ensures |acc| <= |r|
  {
    if rest == [] then acc
    else
      var before := MergeAll(acc, rest[..|rest| - 1], key, pkc, fkc, insert);
      var fr := rest[|rest| - 1];
      if fr[fkc] == key then MergeCells(before, fr, |fr|, pkc, fkc, insert) else before
  }

  /** One primary row after the join: matching foreign cells merged, then one
      empty placeholder cell when its key is not among the collected foreign
      keys `keys`. */
  function JoinRow(prow: Row, pkc: nat, rest: seq<Row>, keys: seq<string>, fkc: nat, insert: bool): (r: Row)
    requires pkc < |prow| && Reaches(rest, fkc)
    ensures |prow| <= |r|
    ensures prow[pkc] !in keys ==> |prow| < |r|
  {
    var key := prow[pkc];
    var merged := MergeAll(prow, rest, key, pkc, fkc, insert);
    if key in keys then merged
    else if insert then Insert(merged, pkc + 1, "")
    else merged + [""]
  }

  // ---------------------------------------------------------------------------
  // The whole operation

  /** The first row at or after `i` too short to hold column `pkc` (where
      `pRow[p_key_col]` fails), or `|rows|` when there is none. */
  function FirstShort(rows: seq<Row>, pkc: nat, i: nat): (m: nat)
    requires i <= |rows|
    decreases |rows| - i
    ensures i <= m <= |rows|
    ensures forall k :: i <= k < m ==> pkc < |rows[k]|
    ensures m < |rows| ==> |rows[m]| <= pkc
  {
    if i == |rows| then i
    else if |rows[i]| <= pkc then i
    else FirstShort(rows, pkc, i + 1)
  }

  /** What `left_join` returns, and what the primary table holds afterwards
      (its header and rows are changed in place, also when a later step
      fails). */
  datatype Outcome = Outcome(result: Result<seq<Row>>, rows: seq<Row>)

  function LeftJoinSpec(pRows: seq<Row>, f: seq<Row>, pKey: string, fKey: string, insert: bool): Outcome
  {
    if |pRows| == 0 then Outcome(Err(IndexError), pRows)
    else match Resolve(pRows[0], pKey)
    case Err(e) => Outcome(Err(e), pRows)
    case Ok(pkc) =>
      if |f| == 0 then Outcome(Err(IndexError), pRows)
      else match Resolve(f[0], fKey)
      case Err(e) => Outcome(Err(e), pRows)
      case Ok(fkc) => JoinOnColumns(pRows, f, pkc, fkc, insert)
  }

  /** `left_join` once both key positions are known. */
  function JoinOnColumns(pRows: seq<Row>, f: seq<Row>, pkc: nat, fkc: nat, insert: bool): Outcome
    requires |pRows| > 0 && pkc < |pRows[0]| && |f| > 0 && fkc < |f[0]|
  {
    var withHeader := pRows[0 := JoinedHeader(pRows[0], pkc, f[0], f[0][fkc], insert)];
    if !Reaches(f, fkc) then Outcome(Err(IndexError), withHeader)
    else
      var kept := FirstPerKey(f, fkc, false);
      var rest := From(kept, 1);
      var keys := Column(kept, fkc);
      var m := FirstShort(withHeader, pkc, 1);
      var rows := JoinedRows(withHeader, m, pkc, rest, keys, fkc, insert);
      Outcome(if m == |pRows| then Ok(rows) else Err(IndexError), rows)
  }

  /** The primary table once rows `1..m-1` went through the join loop: the
      joined rows, the others as they were. */
  function JoinedRows(rows: seq<Row>, m: nat, pkc: nat, rest: seq<Row>, keys: seq<string>,
                      fkc: nat, insert: bool): seq<Row>
    requires 1 <= m <= |rows| && Reaches(rest, fkc)
    requires forall k :: 1 <= k < m ==> pkc < |rows[k]|
  {
    seq(|rows|, k requires 0 <= k < |rows| =>
      if 1 <= k < m then JoinRow(rows[k], pkc, rest, keys, fkc, insert) else rows[k])
  }

  // ---------------------------------------------------------------------------
  // Loop steps

  /** One step of the header loop in insert mode: the next header goes in at
      `p_key_col + field_count`, right after the headers placed so far. */
  lemma InsertAfterPlaced(ph: Row, pkc: nat, placed: Row, h: string)
    requires pkc < |ph|
    ensures Insert(ph[..pkc + 1] + placed + ph[pkc + 1..], pkc + (|placed| + 1), h)
      == ph[..pkc + 1] + (placed + [h]) + ph[pkc + 1..]
  {
    var s := ph[..pkc + 1] + placed + ph[pkc + 1..];
    var k := pkc + 1 + |placed|;
    assert s[..k] == ph[..pkc + 1] + placed;
    assert s[k..] == ph[pkc + 1..];
  }

  lemma WithoutSnoc(fh: Row, i: nat, keyName: string)
    requires i < |fh|
    ensures Without(fh[..i + 1], keyName)
      == Without(fh[..i], keyName) + (if fh[i] == keyName then [] else [fh[i]])
  {
    assert fh[..i + 1] == fh[..i] + [fh[i]];
    WithoutAppend(fh[..i], [fh[i]], keyName);
    assert [fh[i]][1..] == [];
  }

  /** One step of the foreign dedup loop: `row` is kept iff its key is not yet
      among the collected keys. */
  lemma DedupStep(f: seq<Row>, c: nat, i: nat)
    requires i < |f| && Reaches(f[..i], c) && c < |f[i]|
    ensures Reaches(f[..i + 1], c)
    ensures var kept := FirstPerKey(f[..i], c, false);
      FirstPerKey(f[..i + 1], c, false)
        == if f[i][c] in Column(kept, c) then kept else kept + [f[i]]
  {
    var next := f[..i + 1];
    assert next == f[..i] + [f[i]];
    ColumnSnoc(f[..i], f[i], c);
    assert next[..|next| - 1] == f[..i] && next[|next| - 1] == f[i];
    FirstPerKeyKeys(f[..i], c, false);
  }

  // ---------------------------------------------------------------------------
  // The operation as the source performs it

  /** The header loop: `p_table[0]` itself receives the foreign headers. */
  method JoinHeaders(p: Table, pkc: nat, fh: Row, keyName: string, insert: bool)
    requires |p.rows| > 0 && pkc < |p.rows[0]|
    modifies p
    ensures p.rows == old(p.rows)[0 := JoinedHeader(old(p.rows)[0], pkc, fh, keyName, insert)]
  {
    ghost var pRows := p.rows;
    var fieldCount := 1;
    assert pRows[0][..pkc + 1] + pRows[0][pkc + 1..] == pRows[0];
    assert pRows[0 := pRows[0]] == pRows;
    assert Without(fh[..0], keyName) == [];
    assert JoinedHeader(pRows[0], pkc, fh[..0], keyName, insert) == pRows[0];
    for i := 0 to |fh|
      invariant fieldCount == |Without(fh[..i], keyName)| + 1
      invariant p.rows == pRows[0 := JoinedHeader(pRows[0], pkc, fh[..i], keyName, insert)]
    {
      var h := fh[i];
      WithoutSnoc(fh, i, keyName);
      ghost var placed := Without(fh[..i], keyName);
      if h != keyName {
        if !insert {
          assert (pRows[0] + placed) + [h] == pRows[0] + (placed + [h]);
          p.rows := p.rows[0 := p.rows[0] + [h]];
        } else {
          InsertAfterPlaced(pRows[0], pkc, placed, h);
          p.rows := p.rows[0 := Insert(p.rows[0], pkc + fieldCount, h)];
        }
        fieldCount := fieldCount + 1;
      } else {
        assert placed + [] == placed;
      }
    }
    assert fh[..|fh|] == fh;
  }

  /** The foreign dedup loop: first occurrence of each key wins, the header
      row included; `ok` is false where some `row[f_key_col]` fails. */
  method DedupForeign(f: seq<Row>, fkc: nat) returns (ok: bool, f2: seq<Row>, fKeys: seq<string>)
    ensures ok <==> Reaches(f, fkc)
    ensures ok ==> f2 == FirstPerKey(f, fkc, false) && fKeys == Column(f2, fkc)
  {
    fKeys, f2 := [], [];
    for i := 0 to |f|
      invariant Reaches(f[..i], fkc)
      invariant f2 == FirstPerKey(f[..i], fkc, false)
      invariant fKeys == Column(f2, fkc)
    {
      if |f[i]| <= fkc {
        return false, f2, fKeys;
      }
      DedupStep(f, fkc, i);
      if f[i][fkc] !in fKeys {
        ColumnSnoc(f2, f[i], fkc);
        fKeys := fKeys + [f[i][fkc]];
        f2 := f2 + [f[i]];
      }
    }
    assert f[..|f|] == f;
    return true, f2, fKeys;
  }

  /** The cell loop for one matching foreign row. */
  method MergeMatch(joined0: Row, fRow: Row, pkc: nat, fkc: nat, insert: bool) returns (joined: Row)
    requires fkc < |fRow|
    ensures joined == MergeCells(joined0, fRow, |fRow|, pkc, fkc, insert)
  {
    joined := joined0;
    var cellCount := 0;
    for c := 0 to |fRow|
      invariant cellCount == c
      invariant joined == MergeCells(joined0, fRow, c, pkc, fkc, insert)
    {
      var cell := fRow[c];
      if cell != fRow[fkc] {
        if !insert {
          joined := joined + [cell];
        } else {
          joined := Insert(joined, pkc + cellCount, cell);
        }
      }
      cellCount := cellCount + 1;
    }
  }

  /** The body of the loop over `p_table[1:]` for one primary row. */
  method JoinOne(pRow: Row, pkc: nat, rest: seq<Row>, fKeys: seq<string>, fkc: nat, insert: bool)
    returns (joined: Row)
    requires pkc < |pRow| && Reaches(rest, fkc)
    ensures joined == JoinRow(pRow, pkc, rest, fKeys, fkc, insert)
  {
    var key := pRow[pkc];
    joined := pRow;
    for j := 0 to |rest|
      invariant joined == MergeAll(pRow, rest[..j], key, pkc, fkc, insert)
    {
      var fRow := rest[j];
      assert rest[..j + 1][..j] == rest[..j] && rest[..j + 1][j] == fRow;
      if fRow[fkc] == key {
        joined := MergeMatch(joined, fRow, pkc, fkc, insert);
      }
    }
    assert rest[..|rest|] == rest;
    if key !in fKeys {
      if !insert {
        joined := joined + [""];
      } else {
        joined := Insert(joined, pkc + 1, "");
      }
    }
  }

  method LeftJoin(p: Table, f: seq<Row>, pKey: string, fKey: string, insert: bool)
    returns (r: Result<seq<Row>>)
    modifies p
    ensures var o := LeftJoinSpec(old(p.rows), f, pKey, fKey, insert);
      r == o.result && p.rows == o.rows
  {
    if |p.rows| == 0 {
      return Err(IndexError);
    }
    IndexerSingle(p.rows[0], pKey);
    var pIdx := Indexer(p.rows[0], [pKey]);
    if pIdx.Err? {
      return Err(pIdx.error);
    }
    var pkc := pIdx.value[0];
    if |f| == 0 {
      return Err(IndexError);
    }
    IndexerSingle(f[0], fKey);
    var fIdx := Indexer(f[0], [fKey]);
    if fIdx.Err? {
      return Err(fIdx.error);
    }
    var fkc := fIdx.value[0];
    r := JoinOn(p, f, pkc, fkc, insert);
  }

  /** Everything after the two `indexer` calls. */
  method JoinOn(p: Table, f: seq<Row>, pkc: nat, fkc: nat, insert: bool) returns (r: Result<seq<Row>>)
    requires |p.rows| > 0 && pkc < |p.rows[0]| && |f| > 0 && fkc < |f[0]|
    modifies p
    ensures var o := JoinOnColumns(old(p.rows), f, pkc, fkc, insert);
      r == o.result && p.rows == o.rows
  {
    JoinHeaders(p, pkc, f[0], f[0][fkc], insert);
    var ok, f2, fKeys := DedupForeign(f, fkc);
    if !ok {
      return Err(IndexError);
    }
    var complete := JoinDataRows(p, pkc, From(f2, 1), fKeys, fkc, insert);
    if !complete {
      return Err(IndexError);
    }
    return Ok(p.rows);
  }

  /** The loop over `p_table[1:]`, each row extended in place, up to the
      first row too short to hold the primary key. */
  method JoinDataRows(p: Table, pkc: nat, rest: seq<Row>, fKeys: seq<string>, fkc: nat, insert: bool)
    returns (complete: bool)
    requires |p.rows| > 0 && Reaches(rest, fkc)
    modifies p
    ensures var m := FirstShort(old(p.rows), pkc, 1);
      complete == (m == |old(p.rows)|)
      && p.rows == JoinedRows(old(p.rows), m, pkc, rest, fKeys, fkc, insert)
  {
    ghost var pRows := p.rows;
    var n := |p.rows|;
    for i := 1 to n
      invariant |p.rows| == n == |pRows| && p.rows[0] == pRows[0]
      invariant forall k :: 1 <= k < i ==>
        (pkc < |pRows[k]| && p.rows[k] == JoinRow(pRows[k], pkc, rest, fKeys, fkc, insert))
      invariant forall k :: i <= k < n ==> p.rows[k] == pRows[k]
    {
      var pRow := p.rows[i];
      if |pRow| <= pkc {
        assert FirstShort(pRows, pkc, 1) == i;
        ghost var spec := JoinedRows(pRows, i, pkc, rest, fKeys, fkc, insert);
        assert forall k :: 0 <= k < n ==> p.rows[k] == spec[k];
        assert p.rows == spec;
        return false;
      }
      var joined := JoinOne(pRow, pkc, rest, fKeys, fkc, insert);
      p.rows := p.rows[i := joined];
    }
    assert FirstShort(pRows, pkc, 1) == n;
    ghost var spec := JoinedRows(pRows, n, pkc, rest, fKeys, fkc, insert);
    assert forall k :: 0 <= k < n ==> p.rows[k] == spec[k];
    assert p.rows == spec;
    return true;
  }

  // ---------------------------------------------------------------------------
  // What the join guarantees

  /** No two rows share a key in column `c`. */
  predicate DistinctKeys(rows: seq<Row>, c: nat)
    requires Reaches(rows, c)
  {
    forall i, j :: 0 <= i < j < |rows| ==> rows[i][c] != rows[j][c]
  }

  /** The first row whose column `c` holds `key`, if any. */
  function MatchOf(rows: seq<Row>, key: string, c: nat): (r: Option<Row>)
    requires Reaches(rows, c)
    ensures r.None? <==> forall i :: 0 <= i < |rows| ==> rows[i][c] != key
    ensures r.Some? ==> exists i :: (0 <= i < |rows| && rows[i] == r.value && rows[i][c] == key
      && forall j :: 0 <= j < i ==> rows[j][c] != key)
  {
    if rows == [] then None
    else if rows[0][c] == key then Some(rows[0])
    else
      var r := MatchOf(rows[1..], key, c);
      assert forall i :: 1 <= i < |rows| ==> rows[i] == rows[1..][i - 1];
      r
  }

  lemma {:induction false} MatchOfSnoc(rows: seq<Row>, x: Row, key: string, c: nat)
    requires Reaches(rows, c) && c < |x|
    ensures Reaches(rows + [x], c)
    ensures MatchOf(rows + [x], key, c)
      == if MatchOf(rows, key, c).Some? then MatchOf(rows, key, c)
         else if x[c] == key then Some(x) else None
  {
    if rows == [] {
      assert rows + [x] == [x];
    } else {
      assert (rows + [x])[0] == rows[0];
      assert (rows + [x])[1..] == rows[1..] + [x];
      MatchOfSnoc(rows[1..], x, key, c);
    }
  }

  /** Keeping the first row per key keeps the first row carrying any key. */
  lemma {:induction false} MatchOfFirstPerKey(rows: seq<Row>, key: string, c: nat)
    requires Reaches(rows, c)
    ensures MatchOf(FirstPerKey(rows, c, false), key, c) == MatchOf(rows, key, c)
  {
    if rows != [] {
      var prefix, last := rows[..|rows| - 1], rows[|rows| - 1];
      var kept := FirstPerKey(prefix, c, false);
      assert rows == prefix + [last];
      MatchOfFirstPerKey(prefix, key, c);
      MatchOfSnoc(prefix, last, key, c);
      if NewKey(rows, c, false) {
        assert FirstPerKey(rows, c, false) == kept + [last];
        MatchOfSnoc(kept, last, key, c);
      } else {
        assert FirstPerKey(rows, c, false) == kept;
        SeenKeyMatches(prefix, last[c], key, c);
      }
    }
  }

  /** A key already present in `rows` makes any later row with the same key
      irrelevant to `MatchOf`. */
  lemma SeenKeyMatches(rows: seq<Row>, seen: string, key: string, c: nat)
    requires Reaches(rows, c) && seen in Column(rows, c)
    ensures seen == key ==> MatchOf(rows, key, c).Some?
  {
    var i :| 0 <= i < |rows| && Column(rows, c)[i] == seen;
    assert rows[i][c] == seen;
  }

  lemma {:induction false} FirstPerKeyHead(rows: seq<Row>, c: nat)
    requires |rows| > 0 && Reaches(rows, c)
    ensures |FirstPerKey(rows, c, false)| > 0 && FirstPerKey(rows, c, false)[0] == rows[0]
  {
    var prefix := rows[..|rows| - 1];
    if |rows| == 1 {
      assert Column(prefix, c) == [];
    } else {
      FirstPerKeyHead(prefix, c);
    }
  }

  /** With distinct foreign keys the scan merges at most one row: the one
      carrying the primary row's key. */
  lemma {:induction false} MergeAllDistinct(acc: Row, rest: seq<Row>, key: string, pkc: nat, fkc: nat, insert: bool)
    requires Reaches(rest, fkc) && DistinctKeys(rest, fkc)
    ensures MergeAll(acc, rest, key, pkc, fkc, insert) ==
      match MatchOf(rest, key, fkc)
      case None => acc
      case Some(fr) => MergeCells(acc, fr, |fr|, pkc, fkc, insert)
  {
    if rest != [] {
      var prefix, last := rest[..|rest| - 1], rest[|rest| - 1];
      assert rest == prefix + [last];
      DistinctKeysPrefix(rest, fkc);
      MergeAllDistinct(acc, prefix, key, pkc, fkc, insert);
      MatchOfSnoc(prefix, last, key, fkc);
    }
  }

  /** Dropping the last row keeps the keys distinct, and the last key is
      found in no earlier row. */
  lemma DistinctKeysPrefix(rows: seq<Row>, c: nat)
    requires Reaches(rows, c) && DistinctKeys(rows, c) && rows != []
    ensures Reaches(rows[..|rows| - 1], c) && DistinctKeys(rows[..|rows| - 1], c)
    ensures forall i :: 0 <= i < |rows| - 1 ==> rows[i][c] != rows[|rows| - 1][c]
  {
    var prefix := rows[..|rows| - 1];
    assert forall i :: 0 <= i < |prefix| ==> prefix[i] == rows[i];
  }

  /** In append mode the matching row's cells are appended in foreign order,
      minus every cell equal to its key cell (not only the key cell). */
  lemma {:induction false} MergeCellsAppend(acc: Row, fr: Row, n: nat, pkc: nat, fkc: nat)
    requires fkc < |fr| && n <= |fr|
    ensures MergeCells(acc, fr, n, pkc, fkc, false) == acc + Without(fr[..n], fr[fkc])
  {
    if n == 0 {
      assert fr[..0] == [];
    } else {
      MergeCellsAppend(acc, fr, n - 1, pkc, fkc);
      WithoutSnoc(fr, n - 1, fr[fkc]);
      var placed := Without(fr[..n - 1], fr[fkc]);
      if fr[n - 1] == fr[fkc] {
        assert placed + [] == placed;
      } else {
        assert (acc + placed) + [fr[n - 1]] == acc + (placed + [fr[n - 1]]);
      }
    }
  }

  /** In insert mode the cells land right after the primary key, in foreign
      order, when the foreign key is column 0 and no other cell repeats
      the key value. */
  lemma {:induction false} MergeCellsInsertKeyFirst(acc: Row, fr: Row, n: nat, pkc: nat)
    requires 1 <= n <= |fr| && pkc < |acc|
    requires forall j :: 1 <= j < |fr| ==> fr[j] != fr[0]
    ensures MergeCells(acc, fr, n, pkc, 0, true) == acc[..pkc + 1] + fr[1..n] + acc[pkc + 1..]
  {
    if n == 1 {
      assert MergeCells(acc, fr, 0, pkc, 0, true) == acc;
      assert acc[..pkc + 1] + fr[1..1] + acc[pkc + 1..] == acc;
    } else {
      MergeCellsInsertKeyFirst(acc, fr, n - 1, pkc);
      InsertAfterPlaced(acc, pkc, fr[1..n - 1], fr[n - 1]);
      assert fr[1..n - 1] + [fr[n - 1]] == fr[1..n];
    }
  }

  /** In either mode the cells merged into the row are exactly the cells of
      `fr[..n]` other than the key value, wherever they land. */
  lemma {:induction false} MergeCellsCells(acc: Row, fr: Row, n: nat, pkc: nat, fkc: nat, insert: bool)
    requires fkc < |fr| && n <= |fr|
    ensures multiset(MergeCells(acc, fr, n, pkc, fkc, insert)) == multiset(acc) + multiset(Without(fr[..n], fr[fkc]))
  {
    if n == 0 {
      assert fr[..0] == [];
      assert Without(fr[..0], fr[fkc]) == [];
      assert MergeCells(acc, fr, 0, pkc, fkc, insert) == acc;
    } else {
      MergeCellsCells(acc, fr, n - 1, pkc, fkc, insert);
      MergeCellsCellsStep(acc, fr, n, pkc, fkc, insert);
    }
  }

  /** The step of MergeCellsCells: the `n`-th cell of `fr`. */
  lemma MergeCellsCellsStep(acc: Row, fr: Row, n: nat, pkc: nat, fkc: nat, insert: bool)
    requires fkc < |fr| && 0 < n <= |fr|
    requires multiset(MergeCells(acc, fr, n - 1, pkc, fkc, insert)) == multiset(acc) + multiset(Without(fr[..n - 1], fr[fkc]))
    ensures multiset(MergeCells(acc, fr, n, pkc, fkc, insert)) == multiset(acc) + multiset(Without(fr[..n], fr[fkc]))
  {
    var before := MergeCells(acc, fr, n - 1, pkc, fkc, insert);
    var r := MergeCells(acc, fr, n, pkc, fkc, insert);
    var cell, key := fr[n - 1], fr[fkc];
    var w, w' := Without(fr[..n - 1], key), Without(fr[..n], key);
    assert w' == w + (if cell == key then [] else [cell]) by {
      WithoutSnoc(fr, n - 1, key);
    }
    assert r == if cell == key then before else if insert then Insert(before, pkc + (n - 1), cell) else before + [cell];
    CellPlaced(before, r, cell, key, insert, pkc + (n - 1));
    MergedCellAdded(acc, before, r, w, w', cell, key);
  }

  /** Placing one cell, appended or inserted, adds it to the row's cells. */
  lemma CellPlaced(before: Row, after: Row, cell: string, key: string, insert: bool, at: nat)
    requires after == if cell == key then before else if insert then Insert(before, at, cell) else before + [cell]
    ensures cell != key ==> multiset(after) == multiset(before) + multiset{cell}
  {
    if cell != key && insert {
      InsertPlaces(before, at, cell);
    }
  }

  /** One more cell seen: the row gains it exactly when it is not the key,
      and so does the list of merged cells. */
  lemma MergedCellAdded(acc: Row, before: Row, after: Row, w: seq<string>, w': seq<string>, cell: string, key: string)
    requires multiset(before) == multiset(acc) + multiset(w)
    requires w' == w + (if cell == key then [] else [cell])
    requires cell == key ==> after == before
    requires cell != key ==> multiset(after) == multiset(before) + multiset{cell}
    ensures multiset(after) == multiset(acc) + multiset(w')
  {
    if cell != key {
      assert multiset(w + [cell]) == multiset(w) + multiset{cell};
    } else {
      assert w + [] == w;
    }
  }

  /** One primary row after the join, in terms of the foreign table itself:
      a key equal to the foreign key's column name is left alone (that name
      was collected as a key from the header row); otherwise the first
      foreign data row with that key is merged, or one "" placeholder goes
      in. */
  lemma JoinRowMeaning(prow: Row, pkc: nat, f: seq<Row>, fkc: nat, insert: bool)
    requires pkc < |prow| && |f| > 0 && Reaches(f, fkc)
    ensures var kept := FirstPerKey(f, fkc, false);
      var key := prow[pkc];
      JoinRow(prow, pkc, From(kept, 1), Column(kept, fkc), fkc, insert) ==
        if key == f[0][fkc] then prow
        else match MatchOf(f[1..], key, fkc)
          case Some(fr) => MergeCells(prow, fr, |fr|, pkc, fkc, insert)
          case None => if insert then Insert(prow, pkc + 1, "") else prow + [""]
  {
    var kept := FirstPerKey(f, fkc, false);
    var key := prow[pkc];
    KeptRest(f, fkc);
    var rest := kept[1..];
    assert From(kept, 1) == rest;
    MergeAllDistinct(prow, rest, key, pkc, fkc, insert);
    if key != f[0][fkc] {
      MatchOfFirstPerKey(f, key, fkc);
      assert MatchOf(kept, key, fkc) == MatchOf(rest, key, fkc);
      KeyOutsideHeader(f, key, fkc);
    }
  }

  /** After the foreign dedup, the rows after the header have distinct keys,
      none of them the header's key cell, and the collected keys are the
      foreign column's keys. */
  lemma KeptRest(f: seq<Row>, fkc: nat)
    requires |f| > 0 && Reaches(f, fkc)
    ensures var kept := FirstPerKey(f, fkc, false);
      && |kept| > 0 && kept[0] == f[0]
      && Reaches(kept[1..], fkc) && DistinctKeys(kept[1..], fkc)
      && MatchOf(kept[1..], f[0][fkc], fkc).None?
      && forall k :: k in Column(kept, fkc) <==> k in Column(f, fkc)
  {
    var kept := FirstPerKey(f, fkc, false);
    FirstPerKeyHead(f, fkc);
    FirstPerKeyKeys(f, fkc, false);
    var rest := kept[1..];
    var keys := Column(kept, fkc);
    forall i, j | 0 <= i < j < |rest| ensures rest[i][fkc] != rest[j][fkc] {
      assert rest[i] == kept[i + 1] && rest[j] == kept[j + 1];
      assert keys[i + 1] == rest[i][fkc] && keys[j + 1] == rest[j][fkc];
    }
    assert keys[0] == f[0][fkc];
    forall i | 0 <= i < |rest| ensures rest[i][fkc] != f[0][fkc] {
      assert rest[i] == kept[i + 1];
      assert keys[i + 1] == rest[i][fkc];
    }
  }

  /** A key other than the header's key cell is found in the foreign table
      exactly when it is found among its data rows, and then in the same
      row; it is among the column's keys exactly when it is found. */
  lemma KeyOutsideHeader(f: seq<Row>, key: string, fkc: nat)
    requires |f| > 0 && Reaches(f, fkc) && key != f[0][fkc]
    ensures MatchOf(f, key, fkc) == MatchOf(f[1..], key, fkc)
    ensures key in Column(f, fkc) <==> MatchOf(f[1..], key, fkc).Some?
  {
    if MatchOf(f, key, fkc).Some? {
      var i :| 0 <= i < |f| && f[i] == MatchOf(f, key, fkc).value && f[i][fkc] == key;
      assert Column(f, fkc)[i] == key;
    }
  }

  /** Row count, the error cases in the source's order, and what the primary
      table holds afterwards: untouched when a key cannot be resolved, its
      header already joined when a row turns out too short. */
  lemma LeftJoinOutcome(pRows: seq<Row>, f: seq<Row>, pKey: string, fKey: string, insert: bool)
    ensures var o := LeftJoinSpec(pRows, f, pKey, fKey, insert);
      && |o.rows| == |pRows|
      && (o.result.Ok? ==> o.result.value == o.rows)
      && (|pRows| == 0 ==> o.result == Err(IndexError))
      && (|pRows| > 0 && pKey !in pRows[0] ==> o.result == Err(ColumnNotFound(pKey)))
      && (|pRows| > 0 && pKey in pRows[0] && |f| == 0 ==> o.result == Err(IndexError))
      && (|pRows| > 0 && pKey in pRows[0] && |f| > 0 && fKey !in f[0] ==> o.result == Err(ColumnNotFound(fKey)))
      && (o.result.Ok? <==>
            |pRows| > 0 && pKey in pRows[0] && |f| > 0 && fKey in f[0]
            && Reaches(f, Resolve(f[0], fKey).value)
            && Reaches(pRows[1..], Resolve(pRows[0], pKey).value))
  {
    if |pRows| > 0 && pKey in pRows[0] && |f| > 0 && fKey in f[0] {
      var pkc := Resolve(pRows[0], pKey).value;
      var fkc := Resolve(f[0], fKey).value;
      var withHeader := pRows[0 := JoinedHeader(pRows[0], pkc, f[0], f[0][fkc], insert)];
      if Reaches(f, fkc) {
        var m := FirstShort(withHeader, pkc, 1);
        if m < |pRows| {
          assert pRows[1..][m - 1] == withHeader[m];
        } else {
          assert Reaches(pRows[1..], pkc) by {
            forall i | 0 <= i < |pRows[1..]| ensures pkc < |pRows[1..][i]| {
              assert pRows[1..][i] == withHeader[i + 1];
            }
          }
        }
      }
    }
  }

  /** Whenever both keys resolve, `p_table[0]` ends up as the joined header
      (even if a later row lookup fails): the primary header plus every
      foreign header except the foreign key name, appended, or inserted right
      after the primary key column. */
  lemma LeftJoinHeader(pRows: seq<Row>, f: seq<Row>, pKey: string, fKey: string, insert: bool)
    requires |pRows| > 0 && pKey in pRows[0] && |f| > 0 && fKey in f[0]
    ensures var o := LeftJoinSpec(pRows, f, pKey, fKey, insert);
      var ph, pkc := pRows[0], Resolve(pRows[0], pKey).value;
      o.rows[0] == if insert then ph[..pkc + 1] + Without(f[0], fKey) + ph[pkc + 1..]
                   else ph + Without(f[0], fKey)
  {
    var fkc := Resolve(f[0], fKey).value;
    assert f[0][fkc] == fKey;
  }

  /** A joined data row, in either mode. */
  lemma LeftJoinRow(pRows: seq<Row>, f: seq<Row>, pKey: string, fKey: string, insert: bool, k: nat)
    requires |pRows| > 0 && pKey in pRows[0] && |f| > 0 && fKey in f[0]
    requires LeftJoinSpec(pRows, f, pKey, fKey, insert).result.Ok? && 1 <= k < |pRows|
    ensures var pkc, fkc := Resolve(pRows[0], pKey).value, Resolve(f[0], fKey).value;
      && pkc < |pRows[k]| && Reaches(f, fkc)
      && var row, key := pRows[k], pRows[k][pkc];
      LeftJoinSpec(pRows, f, pKey, fKey, insert).rows[k] ==
        if key == fKey then row
        else match MatchOf(f[1..], key, fkc)
          case Some(fr) => MergeCells(row, fr, |fr|, pkc, fkc, insert)
          case None => if insert then Insert(row, pkc + 1, "") else row + [""]
  {
    var pkc, fkc := Resolve(pRows[0], pKey).value, Resolve(f[0], fKey).value;
    LeftJoinOutcome(pRows, f, pKey, fKey, insert);
    assert pRows[1..][k - 1] == pRows[k];
    assert f[0][fkc] == fKey;
    JoinRowMeaning(pRows[k], pkc, f, fkc, insert);
  }

  /** Append mode, the guarantee of a left join: a row whose key is found
      among the foreign data rows gets that first row's cells other than the
      key value, in foreign order; a row whose key is missing gets exactly
      one "" however many foreign columns there are. */
  lemma LeftJoinAppendRow(pRows: seq<Row>, f: seq<Row>, pKey: string, fKey: string, k: nat)
    requires |pRows| > 0 && pKey in pRows[0] && |f| > 0 && fKey in f[0]
    requires LeftJoinSpec(pRows, f, pKey, fKey, false).result.Ok? && 1 <= k < |pRows|
    ensures var pkc, fkc := Resolve(pRows[0], pKey).value, Resolve(f[0], fKey).value;
      && pkc < |pRows[k]| && Reaches(f, fkc)
      && var row, key := pRows[k], pRows[k][pkc];
      LeftJoinSpec(pRows, f, pKey, fKey, false).rows[k] ==
        row + if key == fKey then []
              else match MatchOf(f[1..], key, fkc)
                case Some(fr) => Without(fr, key)
                case None => [""]
  {
    var pkc, fkc := Resolve(pRows[0], pKey).value, Resolve(f[0], fKey).value;
    LeftJoinRow(pRows, f, pKey, fKey, false, k);
    var key := pRows[k][pkc];
    var m := MatchOf(f[1..], key, fkc);
    AppendModeRow(pRows[k], key, fKey, m, pkc, fkc, LeftJoinSpec(pRows, f, pKey, fKey, false).rows[k]);
  }

  /** The append-mode merge of one row, whatever row the scan found. */
  lemma AppendModeRow(row: Row, key: string, fKey: string, m: Option<Row>, pkc: nat, fkc: nat, out: Row)
    requires m.Some? ==> fkc < |m.value| && m.value[fkc] == key
    requires out == if key == fKey then row
      else match m
        case Some(fr) => MergeCells(row, fr, |fr|, pkc, fkc, false)
        case None => row + [""]
    ensures out == row + if key == fKey then []
      else match m
        case Some(fr) => Without(fr, key)
        case None => [""]
  {
    if key == fKey {
      assert row + [] == row;
    } else if m.Some? {
      var fr := m.value;
      MergeCellsAppend(row, fr, |fr|, pkc, fkc);
      assert fr[..|fr|] == fr;
    }
  }

  /** The append-mode example: unmatched primary rows get one placeholder,
      duplicate foreign keys keep their first row. */
  lemma LeftJoinAppendExample(p: seq<Row>, f: seq<Row>)
    requires p == [["id", "name"], ["1", "a"], ["2", "b"]]
    requires f == [["id", "score"], ["1", "10"], ["1", "99"], ["3", "5"]]
    ensures LeftJoinSpec(p, f, "id", "id", false).result
      == Ok([["id", "name", "score"], ["1", "a", "10"], ["2", "b", ""]])
  {
    var o := LeftJoinSpec(p, f, "id", "id", false);
    AppendExampleShape(p, f);
    AppendExampleHeader(p, f);
    AppendExampleRows(p, f);
    RowsOfThree(o.rows, ["id", "name", "score"], ["1", "a", "10"], ["2", "b", ""]);
  }

  lemma RowsOfThree(rows: seq<Row>, a: Row, b: Row, c: Row)
    requires |rows| == 3 && rows[0] == a && rows[1] == b && rows[2] == c
    ensures rows == [a, b, c]
  {
  }

  lemma AppendExampleShape(p: seq<Row>, f: seq<Row>)
    requires p == [["id", "name"], ["1", "a"], ["2", "b"]]
    requires f == [["id", "score"], ["1", "10"], ["1", "99"], ["3", "5"]]
    ensures var o := LeftJoinSpec(p, f, "id", "id", false);
      o.result.Ok? && o.result.value == o.rows && |o.rows| == 3
  {
    assert Resolve(p[0], "id") == Ok(0) && Resolve(f[0], "id") == Ok(0);
    LeftJoinOutcome(p, f, "id", "id", false);
    assert Reaches(p[1..], 0);
  }

  lemma AppendExampleHeader(p: seq<Row>, f: seq<Row>)
    requires p == [["id", "name"], ["1", "a"], ["2", "b"]]
    requires f == [["id", "score"], ["1", "10"], ["1", "99"], ["3", "5"]]
    ensures LeftJoinSpec(p, f, "id", "id", false).rows[0] == ["id", "name", "score"]
  {
    assert Resolve(p[0], "id") == Ok(0) && Resolve(f[0], "id") == Ok(0);
    LeftJoinHeader(p, f, "id", "id", false);
    assert Without(f[0], "id") == ["score"];
  }

  lemma AppendExampleRows(p: seq<Row>, f: seq<Row>)
    requires p == [["id", "name"], ["1", "a"], ["2", "b"]]
    requires f == [["id", "score"], ["1", "10"], ["1", "99"], ["3", "5"]]
    ensures var o := LeftJoinSpec(p, f, "id", "id", false);
      |o.rows| == 3 && o.rows[1] == ["1", "a", "10"] && o.rows[2] == ["2", "b", ""]
  {
    AppendExampleShape(p, f);
    AppendExampleMatched(p, f);
    AppendExampleUnmatched(p, f);
  }

  lemma AppendExampleMatched(p: seq<Row>, f: seq<Row>)
    requires p == [["id", "name"], ["1", "a"], ["2", "b"]]
    requires f == [["id", "score"], ["1", "10"], ["1", "99"], ["3", "5"]]
    ensures |LeftJoinSpec(p, f, "id", "id", false).rows| == 3
    ensures LeftJoinSpec(p, f, "id", "id", false).rows[1] == ["1", "a", "10"]
  {
    AppendExampleShape(p, f);
    AppendExampleKeys(p, f);
    MatchInExample(f[1..]);
    LeftJoinAppendRow(p, f, "id", "id", 1);
  }

  lemma AppendExampleUnmatched(p: seq<Row>, f: seq<Row>)
    requires p == [["id", "name"], ["1", "a"], ["2", "b"]]
    requires f == [["id", "score"], ["1", "10"], ["1", "99"], ["3", "5"]]
    ensures |LeftJoinSpec(p, f, "id", "id", false).rows| == 3
    ensures LeftJoinSpec(p, f, "id", "id", false).rows[2] == ["2", "b", ""]
  {
    AppendExampleShape(p, f);
    AppendExampleKeys(p, f);
    NoMatchInExample(f[1..]);
    LeftJoinAppendRow(p, f, "id", "id", 2);
  }

  /** The literal facts the two append-mode rows rest on. */
  lemma AppendExampleKeys(p: seq<Row>, f: seq<Row>)
    requires p == [["id", "name"], ["1", "a"], ["2", "b"]]
    requires f == [["id", "score"], ["1", "10"], ["1", "99"], ["3", "5"]]
    ensures |p| == 3 && |f| == 4 && Resolve(p[0], "id") == Ok(0) && Resolve(f[0], "id") == Ok(0)
    ensures f[1..] == [["1", "10"], ["1", "99"], ["3", "5"]]
    ensures p[1] == ["1", "a"] && p[2] == ["2", "b"]
  {
  }

  lemma MatchInExample(data: seq<Row>)
    requires data == [["1", "10"], ["1", "99"], ["3", "5"]]
    ensures Reaches(data, 0) && MatchOf(data, "1", 0) == Some(["1", "10"])
    ensures Without(["1", "10"], "1") == ["10"]
  {
    assert data[0][0] == "1";
    assert Without(["10"], "1") == ["10"];
  }

  lemma NoMatchInExample(data: seq<Row>)
    requires data == [["1", "10"], ["1", "99"], ["3", "5"]]
    ensures Reaches(data, 0) && MatchOf(data, "2", 0) == None
  {
    assert data[0][0] != "2" && data[1][0] != "2" && data[2][0] != "2";
  }

  /** Insert mode with the foreign key in column 1: the header goes in after
      the primary key, but the matched cell goes in at `p_key_col + 0`, in
      front of the key, so row and header disagree. */
  lemma LeftJoinInsertMisaligned(p: seq<Row>, f: seq<Row>)
    requires p == [["id", "name"], ["1", "a"]] && f == [["x", "id"], ["X", "1"]]
    ensures LeftJoinSpec(p, f, "id", "id", true).result == Ok([["id", "x", "name"], ["X", "1", "a"]])
  {
    var o := LeftJoinSpec(p, f, "id", "id", true);
    InsertExampleShape(p, f);
    InsertExampleHeader(p, f);
    InsertExampleRow(p, f);
    assert o.rows == [o.rows[0], o.rows[1]];
  }

  lemma InsertExampleShape(p: seq<Row>, f: seq<Row>)
    requires p == [["id", "name"], ["1", "a"]] && f == [["x", "id"], ["X", "1"]]
    ensures var o := LeftJoinSpec(p, f, "id", "id", true);
      o.result.Ok? && o.result.value == o.rows && |o.rows| == 2
  {
    assert Resolve(p[0], "id") == Ok(0) && Resolve(f[0], "id") == Ok(1);
    LeftJoinOutcome(p, f, "id", "id", true);
    assert Reaches(p[1..], 0);
  }

  lemma InsertExampleHeader(p: seq<Row>, f: seq<Row>)
    requires p == [["id", "name"], ["1", "a"]] && f == [["x", "id"], ["X", "1"]]
    ensures LeftJoinSpec(p, f, "id", "id", true).rows[0] == ["id", "x", "name"]
  {
    InsertExampleKeys(p, f);
    LeftJoinHeader(p, f, "id", "id", true);
  }

  lemma InsertExampleRow(p: seq<Row>, f: seq<Row>)
    requires p == [["id", "name"], ["1", "a"]] && f == [["x", "id"], ["X", "1"]]
    ensures |LeftJoinSpec(p, f, "id", "id", true).rows| == 2
    ensures LeftJoinSpec(p, f, "id", "id", true).rows[1] == ["X", "1", "a"]
  {
    InsertExampleShape(p, f);
    InsertExampleKeys(p, f);
    InsertExampleMerge(p[1], f[1..]);
    LeftJoinRow(p, f, "id", "id", true, 1);
  }

  /** The literal facts the insert-mode example rests on. */
  lemma InsertExampleKeys(p: seq<Row>, f: seq<Row>)
    requires p == [["id", "name"], ["1", "a"]] && f == [["x", "id"], ["X", "1"]]
    ensures |p| == 2 && |f| == 2 && Resolve(p[0], "id") == Ok(0) && Resolve(f[0], "id") == Ok(1)
    ensures Without(f[0], "id") == ["x"]
    ensures p[0][..1] + ["x"] + p[0][1..] == ["id", "x", "name"]
    ensures p[1] == ["1", "a"] && f[1..] == [["X", "1"]]
  {
    assert Without(["id"], "id") == [];
  }

  /** The foreign row found for key "1", and its cells merged in. */
  lemma InsertExampleMerge(row: Row, data: seq<Row>)
    requires row == ["1", "a"] && data == [["X", "1"]]
    ensures Reaches(data, 1) && MatchOf(data, "1", 1) == Some(data[0])
    ensures MergeCells(row, data[0], 2, 0, 1, true) == ["X", "1", "a"]
  {
    var fr := data[0];
    assert MergeCells(row, fr, 1, 0, 1, true) == Insert(row, 0, "X");
  }
}
