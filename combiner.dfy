/** Table Combiner and header fix-ups of python/CSV_Tools.py:
    `column_header_add`, `csv_combine` (over directory entries already read
    into memory) and `single_header`. */
module Combiner {
  import opened Errors
  import opened PyList
  import opened PyStr
  import opened Tables

  // ---------------------------------------------------------------------------
  // column_header_add

  /** `max(len(x) for x in rows)` for a non-empty table. */
  function MaxLen(rows: seq<Row>): (m: nat)
    requires |rows| > 0
    ensures forall i :: 0 <= i < |rows| ==> |rows[i]| <= m
    ensures exists i :: 0 <= i < |rows| && |rows[i]| == m
  {
    if |rows| == 1 then |rows[0]|
    else
      var m' := MaxLen(rows[..|rows| - 1]);
      assert forall i :: 0 <= i < |rows| - 1 ==> rows[..|rows| - 1][i] == rows[i];
      if |rows[|rows| - 1]| > m' then |rows[|rows| - 1]| else m'
  }

  /** `"Column" + str(k)` for k = 1 .. n. */
  function ColumnNames(n: nat): (r: Row)
    ensures |r| == n
    ensures forall k :: 0 <= k < n ==> r[k] == "Column" + Decimal(k + 1)
  {
    if n == 0 then [] else ColumnNames(n - 1) + ["Column" + Decimal(n)]
  }

  /** The generated names are pairwise distinct. */
  lemma ColumnNamesDistinct(n: nat)
    ensures forall i, j :: 0 <= i < j < n ==> ColumnNames(n)[i] != ColumnNames(n)[j]
  {
    forall i, j | 0 <= i < j < n ensures ColumnNames(n)[i] != ColumnNames(n)[j] {
      NumeralDistinct(DecimalDigits, i + 1, j + 1);
      PrefixKeepsDistinct("Column", Decimal(i + 1), Decimal(j + 1));
    }
  }

  /** Name k (counted from 0) is "Column" followed by digits that read back
      as k + 1. */
  lemma ColumnNamesNumbered(n: nat, k: nat)
    requires k < n
    ensures |ColumnNames(n)[k]| > 6 && ColumnNames(n)[k][..6] == "Column"
    ensures NumeralValue(DecimalDigits, ColumnNames(n)[k][6..]) == k + 1
  {
    var name := ColumnNames(n)[k];
    assert name == "Column" + Decimal(k + 1);
    assert name[6..] == Decimal(k + 1);
    DecimalRoundTrip(k + 1);
  }

  /** `column_header_add(csv_list)`: puts a row of generated names, as many
      as the longest row has cells, in front of the caller's table; `max` of
      an empty table fails and leaves the table alone. */
  method ColumnHeaderAdd(t: Table) returns (r: Result<()>)
    modifies t
    ensures |old(t.rows)| == 0 ==> r == Err(EmptyArgument) && t.rows == old(t.rows)
    ensures |old(t.rows)| > 0 ==> r == Ok(()) && t.rows == [ColumnNames(MaxLen(old(t.rows)))] + old(t.rows)
  {
    if |t.rows| == 0 {
      return Err(EmptyArgument);
    }
    var names := ColumnNames(MaxLen(t.rows));
    t.rows := Insert(t.rows, 0, names);
    return Ok(());
  }

  /** The added header is as wide as the widest row, its names are distinct,
      and the rows below it are the original ones. */
  lemma ColumnHeaderAddShape(rows: seq<Row>)
    requires |rows| > 0
    ensures var h := ColumnNames(MaxLen(rows));
      && (forall i :: 0 <= i < |rows| ==> |rows[i]| <= |h|)
      && (exists i :: 0 <= i < |rows| && |rows[i]| == |h|)
      && (forall i, j :: 0 <= i < j < |h| ==> h[i] != h[j])
      && (|h| > 0 ==> h[0] == "Column1")
  {
    ColumnNamesDistinct(MaxLen(rows));
    assert Decimal(1) == "1";
  }

  // ---------------------------------------------------------------------------
  // csv_combine

  /** Appends the file name to each row, as the source does in place. */
  function Tag(rows: seq<Row>, source: string): (r: seq<Row>)
    ensures |r| == |rows|
    ensures forall i :: 0 <= i < |rows| ==> r[i] == rows[i] + [source]
  {
    if rows == [] then [] else Tag(rows[..|rows| - 1], source) + [rows[|rows| - 1] + [source]]
  }

  predicate IsCsv(e: DirEntry) {
    EndsWith(e.name, ".csv")
  }

  /** What one directory entry adds: nothing unless its name ends in
      ".csv"; for the entry seen first (count 0) its header with
      "SourceFile" appended and its tagged data rows, IndexError when it has
      no rows; for any later entry its tagged rows without the first. */
  function Contribution(e: DirEntry, first: bool): Result<seq<Row>>
  {
    if !IsCsv(e) then Ok([])
    else if first then
      if |e.contents| == 0 then Err(IndexError)
      else Ok([e.contents[0] + ["SourceFile"]] + Tag(e.contents[1..], e.name))
    else Ok(From(Tag(e.contents, e.name), 1))
  }

  /** The rows every entry after the first contributes, in order. */
  function LaterParts(entries: seq<DirEntry>): seq<Row>
  {
    if entries == [] then []
    else LaterParts(entries[..|entries| - 1]) + Contribution(entries[|entries| - 1], false).value
  }

  /** What `csv_combine` returns for the directory entries in listing order.
      `count` counts every entry, so only entry 0 is ever "first": its
      contribution (or its error), then the data rows of every later CSV. */
  function CsvCombineSpec(entries: seq<DirEntry>): Result<seq<Row>>
  {
    if entries == [] then Ok([])
    else
      match Contribution(entries[0], true)
      case Err(e) => Err(e)
      case Ok(first) => Ok(first + LaterParts(entries[1..]))
  }

  /** Entry by entry: each entry after the first adds its contribution at
      the end of what the entries before it produced. */
  lemma CsvCombineSnoc(entries: seq<DirEntry>, i: nat)
    requires 0 < i < |entries|
    ensures CsvCombineSpec(entries[..i + 1]) ==
      match CsvCombineSpec(entries[..i])
      case Err(e) => Err(e)
      case Ok(acc) => Ok(acc + Contribution(entries[i], false).value)
  {
    var prefix, next := entries[..i], entries[..i + 1];
    assert prefix[0] == entries[0] && next[0] == entries[0];
    var tail := Contribution(entries[i], false).value;
    assert LaterParts(next[1..]) == LaterParts(prefix[1..]) + tail by {
      assert next[1..][..i - 1] == prefix[1..] && next[1..][i - 1] == entries[i];
    }
    match Contribution(entries[0], true)
    case Err(e) =>
    case Ok(first) =>
      assert (first + LaterParts(prefix[1..])) + tail == first + LaterParts(next[1..]);
  }

  /** `for row in rows[from:]: row.append(cell)`: every row from `from` on
      gets `cell` appended, the rows before it are kept. */
  method AppendCell(rows: seq<Row>, from: nat, cell: string) returns (tagged: seq<Row>)
    requires from <= |rows|
    ensures tagged == rows[..from] + Tag(rows[from..], cell)
  {
    tagged := rows;
    for j := from to |rows|
      invariant |tagged| == |rows|
      invariant forall k :: 0 <= k < from ==> tagged[k] == rows[k]
      invariant forall k :: from <= k < j ==> tagged[k] == rows[k] + [cell]
      invariant forall k :: j <= k < |rows| ==> tagged[k] == rows[k]
    {
      tagged := tagged[j := tagged[j] + [cell]];
    }
    var want := rows[..from] + Tag(rows[from..], cell);
    assert forall k :: 0 <= k < |rows| ==> tagged[k] == want[k];
  }

  method CsvCombine(entries: seq<DirEntry>) returns (r: Result<seq<Row>>)
    ensures r == CsvCombineSpec(entries)
  {
    var combined: seq<Row> := [];
    var count := 0;
    for i := 0 to |entries|
      invariant count == i
      invariant i == 0 ==> combined == []
      invariant i > 0 ==> CsvCombineSpec(entries[..i]) == Ok(combined)
    {
      var e := entries[i];
      var part: seq<Row> := [];
      if EndsWith(e.name, ".csv") {
        var rows := e.contents;
        if count == 0 {
          if |rows| == 0 {
            return Err(IndexError);
          }
          var withHeader := rows[0 := rows[0] + ["SourceFile"]];
          assert withHeader[..1] == [rows[0] + ["SourceFile"]] && withHeader[1..] == rows[1..];
          part := AppendCell(withHeader, 1, e.name);
        } else {
          var tagged := AppendCell(rows, 0, e.name);
          assert rows[..0] + Tag(rows[0..], e.name) == Tag(rows, e.name);
          part := From(tagged, 1);
        }
      }
      assert Contribution(e, count == 0) == Ok(part);
      if i == 0 {
        var one := entries[..1];
        assert one != [] && one[0] == e && one[1..] == [];
        assert LaterParts(one[1..]) == [];
        assert combined + part == part + [];
        assert CsvCombineSpec(entries[..1]) == Ok(combined + part);
      } else {
        CsvCombineSnoc(entries, i);
        assert CsvCombineSpec(entries[..i + 1]) == Ok(combined + part);
      }
      combined := combined + part;
      count := count + 1;
    }
    if |entries| == 0 {
      return Ok([]);
    }
    assert entries[..|entries|] == entries;
    return Ok(combined);
  }

  /** Every row a later entry contributes is one of that CSV's rows after
      its first, with the file name appended. */
  lemma {:induction false} LaterPartsTagged(entries: seq<DirEntry>)
    ensures forall row :: row in LaterParts(entries) ==>
      exists i, j :: (0 <= i < |entries| && IsCsv(entries[i]) && 1 <= j < |entries[i].contents|
        && row == entries[i].contents[j] + [entries[i].name])
  {
    if entries != [] {
      var prefix := entries[..|entries| - 1];
      var e := entries[|entries| - 1];
      LaterPartsTagged(prefix);
      forall row | row in LaterParts(entries)
        ensures exists i, j :: (0 <= i < |entries| && IsCsv(entries[i]) && 1 <= j < |entries[i].contents|
          && row == entries[i].contents[j] + [entries[i].name])
      {
        if row in LaterParts(prefix) {
          var i, j :| 0 <= i < |prefix| && IsCsv(prefix[i]) && 1 <= j < |prefix[i].contents|
            && row == prefix[i].contents[j] + [prefix[i].name];
          assert entries[i] == prefix[i];
        } else {
          assert IsCsv(e) && |e.contents| > 0;
          var part := Tag(e.contents, e.name)[1..];
          assert From(Tag(e.contents, e.name), 1) == part;
          var k :| 0 <= k < |part| && part[k] == row;
          assert entries[|entries| - 1] == e && row == e.contents[k + 1] + [e.name];
        }
      }
    }
  }

  /** Because `count` also counts entries that are not CSV files, a first
      entry that is not a CSV means no CSV is treated as first: no header
      row and no "SourceFile" column name are produced, and even the first
      CSV loses its header row. */
  lemma CsvCombineNonCsvFirst(entries: seq<DirEntry>)
    requires |entries| > 0 && !IsCsv(entries[0])
    ensures CsvCombineSpec(entries) == Ok(LaterParts(entries[1..]))
  {
    assert Contribution(entries[0], true) == Ok([]);
    assert [] + LaterParts(entries[1..]) == LaterParts(entries[1..]);
  }

  /** When the first entry is a CSV with rows, the output starts with its
      header extended by "SourceFile". */
  lemma CsvCombineHeader(entries: seq<DirEntry>)
    requires |entries| > 0 && IsCsv(entries[0]) && |entries[0].contents| > 0
    ensures CsvCombineSpec(entries).Ok? && |CsvCombineSpec(entries).value| > 0
    ensures CsvCombineSpec(entries).value[0] == entries[0].contents[0] + ["SourceFile"]
  {
  }

  // ---------------------------------------------------------------------------
  // single_header

  /** `single_header(csv_list, header_rows, title_row)` as written: reading
      `csv_list[title_row-1]` fails outside the list (negative positions
      count from the end), and otherwise the function returns None, because
      it returns the result of `list.insert`. */
  function SingleHeader(table: seq<Row>, headerRows: int, titleRow: int): (r: Result<Option<seq<Row>>>)
    ensures r.Err? <==> !InRange(|table|, titleRow - 1)
    ensures r.Ok? ==> r.value == None
  {
    if !InRange(|table|, titleRow - 1) then Err(IndexError)
    else Ok(None)
  }

  /** The evidently intended `single_header`: the title row, then the rows
      after the header block. */
  function SingleHeaderIntended(table: seq<Row>, headerRows: int, titleRow: int): (r: Result<seq<Row>>)
    ensures r.Err? <==> !InRange(|table|, titleRow - 1)
    ensures r.Ok? ==> |r.value| == |From(table, headerRows)| + 1
    ensures r.Ok? ==> r.value[0] == At(table, titleRow - 1) && r.value[1..] == From(table, headerRows)
  {
    if !InRange(|table|, titleRow - 1) then Err(IndexError)
    else
      InsertPlaces(From(table, headerRows), 0, At(table, titleRow - 1));
      Ok(Insert(From(table, headerRows), 0, At(table, titleRow - 1)))
  }

  /** For a title row inside the header block, the intended result keeps
      row `titleRow` (counted from 1) as the only header, and every row
      from `headerRows` on below it, in order. */
  lemma SingleHeaderIntendedMeaning(table: seq<Row>, headerRows: nat, titleRow: nat)
    requires 1 <= titleRow <= headerRows <= |table|
    ensures SingleHeaderIntended(table, headerRows, titleRow)
      == Ok([table[titleRow - 1]] + table[headerRows..])
  {
    var rest := From(table, headerRows);
    assert rest == table[headerRows..];
    assert Insert(rest, 0, At(table, titleRow - 1)) == [table[titleRow - 1]] + rest by {
      assert rest[..0] == [] && rest[0..] == rest;
    }
  }

  /** The discrepancy: on a well-formed three-row table with two header
      rows, the code returns None where the table with its second row as
      header was meant. */
  lemma SingleHeaderReturnsNothing()
    ensures SingleHeader([["title"], ["a", "b"], ["1", "2"]], 2, 2) == Ok(None)
    ensures SingleHeaderIntended([["title"], ["a", "b"], ["1", "2"]], 2, 2) == Ok([["a", "b"], ["1", "2"]])
  {
    var table: seq<Row> := [["title"], ["a", "b"], ["1", "2"]];
    SingleHeaderIntendedMeaning(table, 2, 2);
    assert [table[1]] + table[2..] == [["a", "b"], ["1", "2"]];
  }
}
