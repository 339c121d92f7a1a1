/** Tables as the engine sees them: a sequence of rows, each a sequence of
    cell strings, row 0 holding the column names. */
module Tables {

  type Row = seq<string>

  /** A table held by reference, for the operations that change the caller's
      list in place (`left_join`, `column_header_add`). */
  class Table {
    var rows: seq<Row>

    constructor (rows0: seq<Row>)
      ensures rows == rows0
    {
      rows := rows0;
    }
  }

  /** A directory entry handed to the combiners in place of `os.listdir` and
      the CSV reader: the file name and the rows the reader would produce. */
  datatype DirEntry = DirEntry(name: string, contents: seq<Row>)

  /** Every row has a cell at position `c`, so `row[c]` cannot fail. */
  predicate Reaches(rows: seq<Row>, c: nat) {
    forall i :: 0 <= i < |rows| ==> c < |rows[i]|
  }

  /** The cells of column `c`, top to bottom. */
  function Column(rows: seq<Row>, c: nat): (r: seq<string>)
    requires Reaches(rows, c)
    ensures |r| == |rows|
    ensures forall i :: 0 <= i < |rows| ==> r[i] == rows[i][c]
  {
    if rows == [] then [] else Column(rows[..|rows| - 1], c) + [rows[|rows| - 1][c]]
  }

  /** Adding a row that reaches `c` adds its cell to the column. */
  lemma ColumnSnoc(rows: seq<Row>, row: Row, c: nat)
    requires Reaches(rows, c) && c < |row|
    ensures Reaches(rows + [row], c)
    ensures Column(rows + [row], c) == Column(rows, c) + [row[c]]
  {
    assert (rows + [row])[..|rows|] == rows;
  }

  /** Whether the last row's key is kept by `FirstPerKey`: it is not empty
      (when empty keys are skipped) and no earlier row carries it. */
  predicate NewKey(rows: seq<Row>, c: nat, skipEmpty: bool)
    requires |rows| > 0 && Reaches(rows, c)
  {
    var key := rows[|rows| - 1][c];
    (!skipEmpty || key != "") && key !in Column(rows[..|rows| - 1], c)
  }

  /** "First occurrence wins": the rows whose key in column `c` appears in no
      earlier row, in input order; with `skipEmpty`, rows with an empty key
      are dropped as well. */
  function FirstPerKey(rows: seq<Row>, c: nat, skipEmpty: bool): (r: seq<Row>)
    requires Reaches(rows, c)
    ensures Reaches(r, c)
    ensures |r| <= |rows|
  {
    if rows == [] then []
    else
      FirstPerKey(rows[..|rows| - 1], c, skipEmpty)
        + (if NewKey(rows, c, skipEmpty) then [rows[|rows| - 1]] else [])
  }

  /** The keys of the kept rows are exactly the keys of the input (the
      non-empty ones when `skipEmpty`), and no key is kept twice. */
  lemma {:induction false} FirstPerKeyKeys(rows: seq<Row>, c: nat, skipEmpty: bool)
    requires Reaches(rows, c)
    ensures forall k :: (k in Column(FirstPerKey(rows, c, skipEmpty), c)
      <==> k in Column(rows, c) && (!skipEmpty || k != ""))
    ensures forall i, j :: 0 <= i < j < |FirstPerKey(rows, c, skipEmpty)| ==>
      Column(FirstPerKey(rows, c, skipEmpty), c)[i] != Column(FirstPerKey(rows, c, skipEmpty), c)[j]
  {
    if rows != [] {
      var prefix := rows[..|rows| - 1];
      FirstPerKeyKeys(prefix, c, skipEmpty);
      var kept := FirstPerKey(prefix, c, skipEmpty);
      var last := rows[|rows| - 1];
      assert rows == prefix + [last];
      ColumnSnoc(prefix, last, c);
      if NewKey(rows, c, skipEmpty) {
        assert FirstPerKey(rows, c, skipEmpty) == kept + [last];
        ColumnSnoc(kept, last, c);
      } else {
        assert FirstPerKey(rows, c, skipEmpty) == kept;
      }
    }
  }
}
