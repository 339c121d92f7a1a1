/** The list transforms of python/column_reducer.py: `csvReducer`'s
    projection loop (columns kept in the caller's order, reordering allowed)
    and `csvCombine`'s concatenation, both over tables already read into
    memory. */
module ReducerScript {
  import opened Errors
  import opened PyList
  import opened PyStr
  import opened Tables
  import opened Projector
  import opened Combiner

  // ---------------------------------------------------------------------------
  // csvReducer

  /** Every requested position can be read from every row (Python
      subscripts, so negative positions count from the end). */
  predicate AllReadable(rows: seq<Row>, cols: seq<int>) {
    forall i, k :: 0 <= i < |rows| && 0 <= k < |cols| ==> InRange(|rows[i]|, cols[k])
  }

  /** `[row[j] for j in cols]` */
  function Project(row: Row, cols: seq<int>): (r: Row)
    requires forall k :: 0 <= k < |cols| ==> InRange(|row|, cols[k])
    ensures |r| == |cols|
    ensures forall k :: 0 <= k < |cols| ==> r[k] == At(row, cols[k])
  {
    if cols == [] then [] else Project(row, cols[..|cols| - 1]) + [At(row, cols[|cols| - 1])]
  }

  /** What `csvReducer` returns for the rows the reader produced: IndexError
      when some requested position is missing from some row, otherwise each
      row projected onto `cols`, in `cols` order. */
  function CsvReducerSpec(rows: seq<Row>, cols: seq<int>): Result<seq<Row>>
  {
    if !AllReadable(rows, cols) then Err(IndexError)
    else Ok(seq(|rows|, i requires 0 <= i < |rows| => Project(rows[i], cols)))
  }

  method CsvReducer(rows: seq<Row>, cols: seq<int>) returns (r: Result<seq<Row>>)
    ensures r == CsvReducerSpec(rows, cols)
  {
    var slim: seq<Row> := [];
    for i := 0 to |rows|
      invariant |slim| == i
      invariant forall m :: 0 <= m < i ==> forall k :: 0 <= k < |cols| ==> InRange(|rows[m]|, cols[k])
      invariant forall m :: 0 <= m < i ==> slim[m] == Project(rows[m], cols)
    {
      slim := slim + [[]];
      for k := 0 to |cols|
        invariant |slim| == i + 1
        invariant forall m :: 0 <= m < i ==> slim[m] == Project(rows[m], cols)
        invariant forall q :: 0 <= q < k ==> InRange(|rows[i]|, cols[q])
        invariant slim[i] == Project(rows[i], cols[..k])
      {
        if !InRange(|rows[i]|, cols[k]) {
          return Err(IndexError);
        }
        assert cols[..k + 1][..k] == cols[..k];
        slim := slim[i := slim[i] + [At(rows[i], cols[k])]];
      }
      assert cols[..|cols|] == cols;
    }
    assert AllReadable(rows, cols);
    assert slim == seq(|rows|, i requires 0 <= i < |rows| => Project(rows[i], cols));
    return Ok(slim);
  }

  /** Each output row has one cell per requested position, in request order:
      cell `k` of row `i` is `rows[i][cols[k]]`; the row count is kept. */
  lemma CsvReducerCells(rows: seq<Row>, cols: seq<int>)
    requires CsvReducerSpec(rows, cols).Ok?
    ensures var out := CsvReducerSpec(rows, cols).value;
      && |out| == |rows|
      && forall i :: 0 <= i < |rows| ==>
        (|out[i]| == |cols| && forall k :: 0 <= k < |cols| ==> out[i][k] == At(rows[i], cols[k]))
  {
  }

  /** Reordering is allowed: asking for the same two columns in swapped order
      yields swapped cells. */
  lemma CsvReducerReorders(row: Row, a: nat, b: nat)
    requires a < |row| && b < |row|
    ensures CsvReducerSpec([row], [a, b]) == Ok([[row[a], row[b]]])
    ensures CsvReducerSpec([row], [b, a]) == Ok([[row[b], row[a]]])
  {
    assert AllReadable([row], [a, b]) && AllReadable([row], [b, a]);
    assert Project(row, [a, b]) == [row[a], row[b]];
    assert Project(row, [b, a]) == [row[b], row[a]];
    assert seq(1, i requires 0 <= i < 1 => Project([row][i], [a, b])) == [[row[a], row[b]]];
    assert seq(1, i requires 0 <= i < 1 => Project([row][i], [b, a])) == [[row[b], row[a]]];
  }

  /** A position past the end of any row makes the whole call fail. */
  lemma CsvReducerOutOfRange(rows: seq<Row>, cols: seq<int>, i: nat, k: nat)
    requires i < |rows| && k < |cols| && cols[k] >= |rows[i]|
    ensures CsvReducerSpec(rows, cols) == Err(IndexError)
  {
  }

  // The same projection through `column_reducer`'s keep mode.

  predicate StrictlyIncreasing(cols: seq<nat>) {
    forall i, j :: 0 <= i < j < |cols| ==> cols[i] < cols[j]
  }

  /** `Pick` only looks at positions inside the row. */
  lemma {:induction false} PickAgree(row: Row, s: set<nat>, t: set<nat>)
    requires forall j: nat :: j < |row| ==> (j in s <==> j in t)
    ensures Pick(row, s) == Pick(row, t)
  {
    if row != [] {
      PickAgree(row[..|row| - 1], s, t);
    }
  }

  /** Picking increasing positions yields the cells at those positions, in
      that order. */
  lemma {:induction false} PickIncreasing(row: Row, cols: seq<nat>)
    requires StrictlyIncreasing(cols)
    requires forall k :: 0 <= k < |cols| ==> cols[k] < |row|
    ensures Pick(row, Listed(cols)) == seq(|cols|, k requires 0 <= k < |cols| => row[cols[k]])
  {
    if |cols| > 0 {
      assert cols[0] < |row|;
    }
    if row != [] {
      var n := |row| - 1;
      var prefix := row[..n];
      if n in cols {
        var last := |cols| - 1;
        assert cols[last] == n by {
          var q :| 0 <= q < |cols| && cols[q] == n;
          assert cols[q] <= cols[last];
        }
        var front := cols[..last];
        forall k | 0 <= k < |front| ensures front[k] < n {
          assert cols[k] < cols[last];
        }
        PickIncreasing(prefix, front);
        PickAgree(prefix, Listed(cols), Listed(front));
        assert seq(|cols|, k requires 0 <= k < |cols| => row[cols[k]])
          == seq(|front|, k requires 0 <= k < |front| => prefix[front[k]]) + [row[n]];
      } else {
        forall k | 0 <= k < |cols| ensures cols[k] < n {
          assert cols[k] != n;
        }
        PickIncreasing(prefix, cols);
        assert seq(|cols|, k requires 0 <= k < |cols| => row[cols[k]])
          == seq(|cols|, k requires 0 <= k < |cols| => prefix[cols[k]]);
      }
    }
  }

  lemma ProjectIncreasing(row: Row, cols: seq<nat>)
    requires StrictlyIncreasing(cols)
    requires forall k :: 0 <= k < |cols| ==> cols[k] < |row|
    ensures Project(row, cols) == Pick(row, Listed(cols))
  {
    PickIncreasing(row, cols);
    assert Project(row, cols) == seq(|cols|, k requires 0 <= k < |cols| => row[cols[k]]);
  }

  /** On a rectangular table, `csvReducer` with increasing positions agrees
      with `column_reducer`'s keep mode; the two differ only in that
      `csvReducer` follows the requested order. */
  lemma CsvReducerAgreesWithKeepMode(table: seq<Row>, cols: seq<nat>)
    requires |table| > 0
    requires forall i :: 0 <= i < |table| ==> |table[i]| == |table[0]|
    requires StrictlyIncreasing(cols)
    requires forall k :: 0 <= k < |cols| ==> cols[k] < |table[0]|
    ensures CsvReducerSpec(table, cols) == ColumnReducerSpec(table, cols, false)
  {
    KeepModeExact(table, cols);
    assert AllReadable(table, cols) by {
      forall i, k | 0 <= i < |table| && 0 <= k < |cols| ensures InRange(|table[i]|, cols[k]) {
        assert cols[k] < |table[i]|;
      }
    }
    var mine := CsvReducerSpec(table, cols).value;
    var theirs := ColumnReducerSpec(table, cols, false).value;
    forall i | 0 <= i < |table| ensures mine[i] == theirs[i] {
      ProjectIncreasing(table[i], cols);
    }
    assert mine == theirs;
  }

  // ---------------------------------------------------------------------------
  // csvCombine

  /** What one directory entry adds: nothing unless it is a CSV; all its rows
      when it is the entry seen first (count 0); otherwise its rows from
      `headerRows` on. */
  function ScriptContribution(e: DirEntry, first: bool, headerRows: int): seq<Row>
  {
    if !IsCsv(e) then []
    else if first then e.contents
    else From(e.contents, headerRows)
  }

  /** What `csvCombine(folderPath, headerRows)` returns for the directory
      entries in listing order; `count` counts every entry. */
  function ScriptCombineSpec(entries: seq<DirEntry>, headerRows: int): seq<Row>
  {
    if entries == [] then []
    else
      ScriptCombineSpec(entries[..|entries| - 1], headerRows)
        + ScriptContribution(entries[|entries| - 1], |entries| == 1, headerRows)
  }

  method ScriptCombine(entries: seq<DirEntry>, headerRows: int) returns (combined: seq<Row>)
    ensures combined == ScriptCombineSpec(entries, headerRows)
  {
    combined := [];
    var count := 0;
    for i := 0 to |entries|
      invariant count == i
      invariant combined == ScriptCombineSpec(entries[..i], headerRows)
    {
      var e := entries[i];
      var next := entries[..i + 1];
      assert next[..|next| - 1] == entries[..i] && next[|next| - 1] == e;
      if EndsWith(e.name, ".csv") {
        if count == 0 {
          combined := combined + e.contents;
        } else {
          combined := combined + From(e.contents, headerRows);
        }
      }
      count := count + 1;
    }
    assert entries[..|entries|] == entries;
  }

  /** The rows that entries after the first contribute. */
  function ScriptLaterParts(entries: seq<DirEntry>, headerRows: int): seq<Row>
  {
    if entries == [] then []
    else
      ScriptLaterParts(entries[..|entries| - 1], headerRows)
        + ScriptContribution(entries[|entries| - 1], false, headerRows)
  }

  lemma {:induction false} ScriptCombineSplit(entries: seq<DirEntry>, headerRows: int)
    requires |entries| > 0
    ensures ScriptCombineSpec(entries, headerRows)
      == ScriptContribution(entries[0], true, headerRows) + ScriptLaterParts(entries[1..], headerRows)
  {
    if |entries| > 1 {
      var prefix := entries[..|entries| - 1];
      var first := ScriptContribution(entries[0], true, headerRows);
      var last := ScriptContribution(entries[|entries| - 1], false, headerRows);
      var earlier := ScriptLaterParts(prefix[1..], headerRows);
      calc {
        ScriptCombineSpec(entries, headerRows);
      == { ScriptCombineSnoc(entries, headerRows); }
        ScriptCombineSpec(prefix, headerRows) + last;
      == { ScriptCombineSplit(prefix, headerRows); assert prefix[0] == entries[0]; }
        (first + earlier) + last;
      == { assert (first + earlier) + last == first + (earlier + last); }
        first + (earlier + last);
      == { LaterPartsSnoc(entries, headerRows); }
        first + ScriptLaterParts(entries[1..], headerRows);
      }
    } else {
      assert entries[..0] == [] && entries[1..] == [];
    }
  }

  lemma ScriptCombineSnoc(entries: seq<DirEntry>, headerRows: int)
    requires |entries| > 1
    ensures ScriptCombineSpec(entries, headerRows)
      == ScriptCombineSpec(entries[..|entries| - 1], headerRows)
        + ScriptContribution(entries[|entries| - 1], false, headerRows)
  {
  }

  lemma LaterPartsSnoc(entries: seq<DirEntry>, headerRows: int)
    requires |entries| > 1
    ensures ScriptLaterParts(entries[1..], headerRows)
      == ScriptLaterParts(entries[..|entries| - 1][1..], headerRows)
        + ScriptContribution(entries[|entries| - 1], false, headerRows)
  {
    var es := entries[1..];
    assert es[..|es| - 1] == entries[..|entries| - 1][1..];
    assert es[|es| - 1] == entries[|entries| - 1];
  }

  /** A CSV listed first contributes all its rows, header rows included;
      every later CSV contributes its rows from `headerRows` on. */
  lemma ScriptCombineFirstCsv(entries: seq<DirEntry>, headerRows: int)
    requires |entries| > 0 && IsCsv(entries[0])
    ensures ScriptCombineSpec(entries, headerRows)
      == entries[0].contents + ScriptLaterParts(entries[1..], headerRows)
  {
    ScriptCombineSplit(entries, headerRows);
  }

  /** Because `count` counts every directory entry, a first entry that is
      not a CSV makes every CSV, the first one included, lose its header
      rows. */
  lemma ScriptCombineNonCsvFirst(entries: seq<DirEntry>, headerRows: int)
    requires |entries| > 0 && !IsCsv(entries[0])
    ensures ScriptCombineSpec(entries, headerRows) == ScriptLaterParts(entries[1..], headerRows)
  {
    ScriptCombineSplit(entries, headerRows);
  }

  /** Concretely: a non-CSV entry listed before two one-header-row CSVs
      leaves no header at all in the result. */
  lemma ScriptCombineLosesHeader()
    ensures ScriptCombineSpec([DirEntry("notes.txt", []), DirEntry("a.csv", [["h"], ["1"]]),
      DirEntry("b.csv", [["h"], ["2"]])], 1) == [["1"], ["2"]]
  {
    var es := [DirEntry("notes.txt", []), DirEntry("a.csv", [["h"], ["1"]]), DirEntry("b.csv", [["h"], ["2"]])];
    assert !IsCsv(es[0]) && IsCsv(es[1]) && IsCsv(es[2]);
    ScriptCombineNonCsvFirst(es, 1);
    var later := es[1..];
    assert later[..1] == [es[1]] && later[..1][..0] == [];
    assert ScriptLaterParts(later[..1], 1) == [["1"]];
  }
}
