/** Sorter: `csv_sort` of python/CSV_Tools.py. The header row stays first;
    the data rows are ordered by the string in the sort column, stably
    (Python's `sorted` keeps rows with equal keys in input order). */
module Sorter {
  import opened Errors
  import opened PyStr
  import opened Tables
  import opened HeaderIndex
  import opened RowFilter

  /** Rows in non-decreasing order of their cell in column `c`. */
  predicate Sorted(rows: seq<Row>, c: nat)
    requires Reaches(rows, c)
  {
    forall i, j :: 0 <= i < j < |rows| ==> LessEq(rows[i][c], rows[j][c])
  }

  /** Places `x` after every row whose key is not greater than its own. */
  function InsertByKey(x: Row, s: seq<Row>, c: nat): (r: seq<Row>)
    requires c < |x| && Reaches(s, c)
    ensures Reaches(r, c)
    ensures |r| == |s| + 1
  {
    if s == [] then [x]
    else if Less(x[c], s[0][c]) then [x] + s
    else [s[0]] + InsertByKey(x, s[1..], c)
  }

  /** `sorted(rows, key=lambda x: x[c])`, as a stable insertion sort. */
  function SortByKey(rows: seq<Row>, c: nat): (r: seq<Row>)
    requires Reaches(rows, c)
    ensures Reaches(r, c)
    ensures |r| == |rows|
  {
    if rows == [] then []
    else InsertByKey(rows[|rows| - 1], SortByKey(rows[..|rows| - 1], c), c)
  }

  /** What `csv_sort(csv_list, sort_col_name)` returns: IndexError on an
      empty table or when a data row has no cell in the sort column (every
      key is computed before sorting), ColumnNotFound for an unknown name. */
  function CsvSort(table: seq<Row>, name: string): (r: Result<seq<Row>>)
    ensures |table| == 0 ==> r == Err(IndexError)
    ensures |table| > 0 && name !in table[0] ==> r == Err(ColumnNotFound(name))
    ensures r.Ok? ==> |r.value| == |table| && r.value[0] == table[0]
  {
    if |table| == 0 then Err(IndexError)
    else
      match Resolve(table[0], name)
      case Err(e) => Err(e)
      case Ok(c) =>
        if !Reaches(table[1..], c) then Err(IndexError)
        else Ok([table[0]] + SortByKey(table[1..], c))
  }

  // ---------------------------------------------------------------------------
  // Permutation

  lemma {:induction false} InsertByKeyPerm(x: Row, s: seq<Row>, c: nat)
    requires c < |x| && Reaches(s, c)
    ensures multiset(InsertByKey(x, s, c)) == multiset(s) + multiset{x}
  {
    if s != [] && !Less(x[c], s[0][c]) {
      InsertByKeyPerm(x, s[1..], c);
      assert s == [s[0]] + s[1..];
    }
  }

  lemma {:induction false} SortByKeyPerm(rows: seq<Row>, c: nat)
    requires Reaches(rows, c)
    ensures multiset(SortByKey(rows, c)) == multiset(rows)
  {
    if rows != [] {
      SortByKeyPerm(rows[..|rows| - 1], c);
      InsertByKeyPerm(rows[|rows| - 1], SortByKey(rows[..|rows| - 1], c), c);
      assert rows == rows[..|rows| - 1] + [rows[|rows| - 1]];
    }
  }

  // ---------------------------------------------------------------------------
  // Order

  lemma {:induction false} InsertByKeySorted(x: Row, s: seq<Row>, c: nat)
    requires c < |x| && Reaches(s, c) && Sorted(s, c)
    ensures Sorted(InsertByKey(x, s, c), c)
  {
    if s == [] {
    } else if Less(x[c], s[0][c]) {
      forall j | 0 <= j < |s| ensures LessEq(x[c], s[j][c]) {
        LessEqOfLess(x[c], s[0][c]);
        if j > 0 {
          assert LessEq(s[0][c], s[j][c]);
          LessEqTransitive(x[c], s[0][c], s[j][c]);
        }
      }
    } else {
      var rest := InsertByKey(x, s[1..], c);
      InsertByKeySorted(x, s[1..], c);
      InsertByKeyPerm(x, s[1..], c);
      forall k | 0 <= k < |rest| ensures LessEq(s[0][c], rest[k][c]) {
        assert rest[k] in multiset(rest);
        if rest[k] != x {
          assert rest[k] in s[1..];
        }
      }
    }
  }

  lemma {:induction false} SortByKeySorted(rows: seq<Row>, c: nat)
    requires Reaches(rows, c)
    ensures Sorted(SortByKey(rows, c), c)
  {
    if rows != [] {
      SortByKeySorted(rows[..|rows| - 1], c);
      InsertByKeySorted(rows[|rows| - 1], SortByKey(rows[..|rows| - 1], c), c);
    }
  }

  // ---------------------------------------------------------------------------
  // Stability: for every key value, the rows carrying it come out in the
  // order they went in.

  /** When every key of `s` is greater than `v`, nothing in `s` matches. */
  lemma {:induction false} MatchingNoneAbove(s: seq<Row>, c: nat, v: string)
    requires Reaches(s, c)
    requires forall j :: 0 <= j < |s| ==> Less(v, s[j][c])
    ensures Matching(s, c, v) == []
  {
    if s != [] {
      MatchingNoneAbove(s[..|s| - 1], c, v);
      LessIrreflexive(v);
    }
  }

  /** In a sorted sequence, every key is above a key below the first. */
  lemma AboveFirst(s: seq<Row>, c: nat, v: string)
    requires Reaches(s, c) && Sorted(s, c) && s != [] && Less(v, s[0][c])
    ensures forall j :: 0 <= j < |s| ==> Less(v, s[j][c])
  {
    forall j | 0 < j < |s| ensures Less(v, s[j][c]) {
      assert LessEq(s[0][c], s[j][c]);
      if s[0][c] != s[j][c] {
        LessTotal(s[0][c], s[j][c]);
        LessTransitive(v, s[0][c], s[j][c]);
      }
    }
  }

  lemma InsertFrontStable(x: Row, s: seq<Row>, c: nat, v: string)
    requires c < |x| && Reaches(s, c) && Sorted(s, c) && s != [] && Less(x[c], s[0][c])
    ensures Matching([x] + s, c, v) == Matching(s, c, v) + (if x[c] == v then [x] else [])
  {
    MatchingCons(x, s, c, v);
    if x[c] == v {
      AboveFirst(s, c, v);
      MatchingNoneAbove(s, c, v);
    }
  }

  lemma {:induction false} InsertByKeyStable(x: Row, s: seq<Row>, c: nat, v: string)
    requires c < |x| && Reaches(s, c) && Sorted(s, c)
    ensures Matching(InsertByKey(x, s, c), c, v) == Matching(s, c, v) + (if x[c] == v then [x] else [])
  {
    if s == [] {
      MatchingCons(x, [], c, v);
    } else if Less(x[c], s[0][c]) {
      InsertFrontStable(x, s, c, v);
    } else {
      assert Sorted(s[1..], c);
      InsertByKeyStable(x, s[1..], c, v);
      InsertLaterStable(x, s, c, v);
    }
  }

  /** The step of `InsertByKeyStable` where `x` goes past the first row. */
  lemma InsertLaterStable(x: Row, s: seq<Row>, c: nat, v: string)
    requires c < |x| && Reaches(s, c) && s != [] && !Less(x[c], s[0][c])
    requires Matching(InsertByKey(x, s[1..], c), c, v) == Matching(s[1..], c, v) + (if x[c] == v then [x] else [])
    ensures Matching(InsertByKey(x, s, c), c, v) == Matching(s, c, v) + (if x[c] == v then [x] else [])
  {
    assert InsertByKey(x, s, c) == [s[0]] + InsertByKey(x, s[1..], c);
    ConsMatching(s[0], InsertByKey(x, s[1..], c), s[1..], c, v, if x[c] == v then [x] else []);
    assert [s[0]] + s[1..] == s;
  }

  /** Putting the same row in front of two sequences keeps the relation
      between what they match. */
  lemma ConsMatching(h: Row, a: seq<Row>, b: seq<Row>, c: nat, v: string, tail: seq<Row>)
    requires c < |h| && Reaches(a, c) && Reaches(b, c)
    requires Matching(a, c, v) == Matching(b, c, v) + tail
    ensures Reaches([h] + a, c) && Reaches([h] + b, c)
    ensures Matching([h] + a, c, v) == Matching([h] + b, c, v) + tail
  {
    MatchingCons(h, a, c, v);
    MatchingCons(h, b, c, v);
  }

  lemma {:induction false} SortByKeyStable(rows: seq<Row>, c: nat, v: string)
    requires Reaches(rows, c)
    ensures Matching(SortByKey(rows, c), c, v) == Matching(rows, c, v)
  {
    if rows != [] {
      var prefix, last := rows[..|rows| - 1], rows[|rows| - 1];
      SortByKeyStable(prefix, c, v);
      SortByKeySorted(prefix, c);
      InsertByKeyStable(last, SortByKey(prefix, c), c, v);
    }
  }

  // ---------------------------------------------------------------------------
  // Idempotence

  /** A row whose key is not below any key of `s` goes to the end. */
  lemma {:induction false} InsertByKeyLast(x: Row, s: seq<Row>, c: nat)
    requires c < |x| && Reaches(s, c)
    requires forall j :: 0 <= j < |s| ==> LessEq(s[j][c], x[c])
    ensures InsertByKey(x, s, c) == s + [x]
  {
    if s != [] {
      InsertByKeyLast(x, s[1..], c);
      assert [s[0]] + (s[1..] + [x]) == s + [x];
    }
  }

  /** Sorting already sorted rows changes nothing. */
  lemma {:induction false} SortByKeySortedInput(rows: seq<Row>, c: nat)
    requires Reaches(rows, c) && Sorted(rows, c)
    ensures SortByKey(rows, c) == rows
  {
    if rows != [] {
      var prefix, last := rows[..|rows| - 1], rows[|rows| - 1];
      assert rows == prefix + [last];
      SortedSplit(prefix, last, c);
      SortByKeySortedInput(prefix, c);
      InsertByKeyLast(last, prefix, c);
      assert prefix + [last] == rows;
    }
  }

  lemma SortedSplit(prefix: seq<Row>, last: Row, c: nat)
    requires Reaches(prefix + [last], c) && Sorted(prefix + [last], c)
    ensures Reaches(prefix, c) && Sorted(prefix, c) && c < |last|
    ensures forall j :: 0 <= j < |prefix| ==> LessEq(prefix[j][c], last[c])
  {
    var rows := prefix + [last];
    assert rows[|prefix|] == last;
    forall j | 0 <= j < |prefix| ensures prefix[j] == rows[j] {
    }
    forall j | 0 <= j < |prefix| ensures LessEq(prefix[j][c], last[c]) {
      assert LessEq(rows[j][c], rows[|prefix|][c]);
    }
  }

  // ---------------------------------------------------------------------------
  // csv_sort

  /** `csv_sort` keeps the header first; its data rows are a permutation of
      the input's, in non-decreasing order of the sort column, and for every
      key value the rows carrying it keep their input order. */
  lemma CsvSortMeaning(table: seq<Row>, name: string)
    requires CsvSort(table, name).Ok?
    ensures var c := Resolve(table[0], name).value;
      var r := CsvSort(table, name).value;
      && |r| == |table| && r[0] == table[0]
      && multiset(r[1..]) == multiset(table[1..])
      && Reaches(r[1..], c) && Sorted(r[1..], c)
      && forall v :: Matching(r[1..], c, v) == Matching(table[1..], c, v)
  {
    var c := Resolve(table[0], name).value;
    var r := CsvSort(table, name).value;
    assert r[1..] == SortByKey(table[1..], c);
    SortByKeyPerm(table[1..], c);
    SortByKeySorted(table[1..], c);
    forall v ensures Matching(r[1..], c, v) == Matching(table[1..], c, v) {
      SortByKeyStable(table[1..], c, v);
    }
    assert |multiset(r[1..])| == |multiset(table[1..])|;
  }

  /** Sorting twice gives the same table as sorting once. */
  lemma CsvSortIdempotent(table: seq<Row>, name: string)
    requires CsvSort(table, name).Ok?
    ensures CsvSort(CsvSort(table, name).value, name) == CsvSort(table, name)
  {
    var c := Resolve(table[0], name).value;
    var r := CsvSort(table, name).value;
    assert r[0] == table[0] && r[1..] == SortByKey(table[1..], c);
    SortByKeySorted(table[1..], c);
    SortByKeySortedInput(r[1..], c);
    assert [r[0]] + r[1..] == r;
  }

  /** The sorting example: keys "3", "1", "2", "1" come out as "1", "1",
      "2", "3". */
  lemma CsvSortExample(table: seq<Row>)
    requires table == [["k"], ["3"], ["1"], ["2"], ["1"]]
    ensures CsvSort(table, "k") == Ok([["k"], ["1"], ["1"], ["2"], ["3"]])
  {
    assert table[0] == ["k"] && Resolve(table[0], "k") == Ok(0);
    var data := table[1..];
    assert data == [["3"], ["1"], ["2"], ["1"]];
    assert Reaches(data, 0);
    SortExampleData(data);
    assert [table[0]] + SortByKey(data, 0) == [["k"], ["1"], ["1"], ["2"], ["3"]];
  }

  lemma SortExampleData(data: seq<Row>)
    requires data == [["3"], ["1"], ["2"], ["1"]]
    ensures Reaches(data, 0) && SortByKey(data, 0) == [["1"], ["1"], ["2"], ["3"]]
  {
    SortExampleThree(data[..3]);
    assert !Less("1", "1") && Less("1", "2");
    assert InsertByKey(["1"], [["2"], ["3"]], 0) == [["1"], ["2"], ["3"]];
  }

  lemma SortExampleThree(data: seq<Row>)
    requires data == [["3"], ["1"], ["2"]]
    ensures Reaches(data, 0) && SortByKey(data, 0) == [["1"], ["2"], ["3"]]
  {
    SortExampleTwo(data[..2]);
    assert !Less("2", "1") && Less("2", "3");
    assert InsertByKey(["2"], [["3"]], 0) == [["2"], ["3"]];
  }

  lemma SortExampleTwo(data: seq<Row>)
    requires data == [["3"], ["1"]]
    ensures Reaches(data, 0) && SortByKey(data, 0) == [["1"], ["3"]]
  {
    assert data[..1] == [["3"]] && data[..1][..0] == [];
    assert SortByKey(data[..1], 0) == [["3"]];
    assert Less("1", "3");
  }
}
