# CSV table engine and KML string helpers, in Dafny

This project models the in-memory table engine of `python/CSV_Tools.py`. A
table is a list of rows. Each row is a list of cell strings, and row 0 holds
the column names. The engine's operations are modelled one by one:

- `indexer` (column names to positions);
- `required_fields` and `attribute_filter` (row selection);
- `unique_col_values` (distinct values, or the first row per value);
- `csv_sort` (stable sort by one column);
- `column_reducer` (drop or keep columns);
- `left_join` (left outer join that edits the primary table in place);
- the header fix-ups `column_header_add` and `single_header`;
- `csv_combine`, over directory entries already read into memory.

It also models the list transforms of `python/column_reducer.py`
(`csvReducer` and `csvCombine`) and three string pieces of
`python/KML_Build.py`:

- the altitude-mode abbreviations of `altitude_modes`, for the altitude modes of OGC KML 2.2;
- the RRGGBB to aabbggrr reordering of `color`;
- the post-pass of `kml_build` that un-escapes XML entities inside CDATA sections of the serialized document.

Modules:

- `Errors` holds `Result`, `Option` and the error kinds. Python exceptions
  become values: `ColumnNotFound(name)` for `list.index`'s ValueError,
  `IndexError` for an out-of-range subscript, and `EmptyArgument` for `max()`
  of an empty list.
- `PyList` and `PyStr` write out the Python built-ins the code relies on:
  - `list.index`, clamped `list.insert`, slices with negative or oversized bounds;
  - string ordering, `str.find`, left-to-right `str.replace`, `str.endswith` and ASCII `str.lower`;
  - `str(n)` and `hex(n)[2:]`.
- `Tables` holds the row and table types, the `Table` class and the "first row per key" selection. `Table` is a reference to a table that `left_join` and `column_header_add` change in place.
- `HeaderIndex`, `RowFilter`, `Dedup`, `Sorter`, `Projector`, `Combiner` and `LeftJoin` follow the functions of `CSV_Tools.py`.
- `ReducerScript` follows `column_reducer.py`, and `Kml` follows `KML_Build.py`.

Functions that only compute a value are Dafny functions. Code that builds a
list in a loop is a method with loop invariants, proved equal to a
specification function; the properties the source promises are lemmas about
that function. `left_join` and `column_header_add` change the caller's table:
they take a `Table` and state its new contents.

Where the code and its documentation disagree, the model follows the code:

- `single_header` returns `None` rather than the table.
- `left_join` drops every foreign cell equal to the key value, not only the key cell.
- In insert mode, `left_join` places data cells at `p_key_col` plus the cell's foreign position, while the header names go right after the key column.
- `csv_combine` and `csvCombine` count non-CSV directory entries too.
- `required_fields` excludes rows by value.

## Model

| member | source | states |
|---|---|---|
| HeaderIndex.Resolve | python/CSV_Tools.py:120 | `header.index(name)`: Ok exactly when the name occurs; the position holds the name and no earlier position does; otherwise ColumnNotFound for that name |
| HeaderIndex.Indexer | python/CSV_Tools.py:113-121 | one position per requested name, in request order, each the first position of that name; fails exactly when some name is missing, reporting the first missing name |
| HeaderIndex.IndexerSingle | python/CSV_Tools.py:254-255 | `indexer(h, [name])[0]` agrees with `h.index(name)`, error included |
| PyList.IndexOf | python/CSV_Tools.py:120 | `list.index`: nothing exactly when the value does not occur; otherwise a position holding it with no earlier position holding it |
| PyList.Insert | python/CSV_Tools.py:297 | `list.insert` adds exactly one element and never fails; a position at or past the end appends |
| PyList.InsertPlaces | python/CSV_Tools.py:269 | `list.insert` adds the element to the multiset of the list; a position inside the list puts it there, with the elements before it unchanged and the rest shifted up by one |
| PyList.Slice | python/KML_Build.py:12 | `s[a:b]` is never longer than `s`; with bounds inside the list it is the elements from `a` up to `b`, and crossed bounds give an empty list |
| PyList.At | python/CSV_Tools.py:107 | `s[i]` is an element of `s`: the one at `i` for `i >= 0`, and the one `-i` from the end for a negative `i` |
| RowFilter.FailSetSnoc | python/CSV_Tools.py:131-134 | each data row adds itself to the rows to remove exactly when one of its checked cells is empty |
| RowFilter.RequiredFields | python/CSV_Tools.py:124-140 | the two loops compute `RequiredFieldsSpec`: IndexError when a checked column is missing from a data row, otherwise the rows whose value is not among the failing data rows |
| RowFilter.PassingRows | python/CSV_Tools.py:133-136 | a row is kept exactly when it is in the data and every checked column is non-empty |
| RowFilter.RequiredFieldsMeaning | python/CSV_Tools.py:131-140 | the data rows that survive are exactly those with every checked column non-empty, in input order; the header is dropped exactly when it equals a failing data row |
| RowFilter.ExcludeIsPassing | python/CSV_Tools.py:137-139 | excluding by the set of failing values equals filtering each row by its own cells |
| RowFilter.RequiredFieldsDropsEqualHeader | python/CSV_Tools.py:137-139 | a header equal to a failing data row is removed along with it |
| RowFilter.AttributeFilter | python/CSV_Tools.py:224-241 | the loop computes `AttributeFilterSpec`: ColumnNotFound for an unknown name, IndexError for a row too short, otherwise the header followed by every matching row |
| RowFilter.MatchingMembers | python/CSV_Tools.py:237-239 | the rows kept are exactly the input rows whose cell equals the target |
| RowFilter.AttributeFilterScansHeader | python/CSV_Tools.py:236-239 | the result is the header, the header again exactly when the target equals the column name, then the matching data rows in order |
| Dedup.NonEmptyCells | python/CSV_Tools.py:177 | holds exactly the non-empty cells of the column |
| Dedup.KeyColumn | python/CSV_Tools.py:176 | `csv_list[0].index(col_name)` through `indexer`: the first position of the name in the header row; IndexError on an empty table, ColumnNotFound for that name when the header lacks it |
| Dedup.InsertSorted | python/CSV_Tools.py:178 | adding to a sorted set keeps exactly the old members plus the new one |
| Dedup.SortedSetAscending | python/CSV_Tools.py:178 | `sorted(set(values))` is strictly ascending and holds exactly the values |
| Dedup.UniqueValues | python/CSV_Tools.py:176-182 | value mode: IndexError on an empty table, ColumnNotFound for an unknown name, and no empty string among the returned values |
| Dedup.UniqueValuesMeaning | python/CSV_Tools.py:176-182 | value mode succeeds exactly when the column exists and every data row reaches it; the list is strictly ascending and holds exactly the non-empty data cells of the column |
| Dedup.UniqueRecords | python/CSV_Tools.py:184-196 | records mode computes the header followed by the first data row for each non-empty key |
| Dedup.UniqueRecordsSpec | python/CSV_Tools.py:184-196 | records mode: IndexError on an empty table, ColumnNotFound for an unknown name; a result starts with the header and has no more rows than the table |
| Dedup.KeepFirstRecords | python/CSV_Tools.py:186-193 | the records loop keeps exactly the first data row for each non-empty key, in input order |
| Dedup.UniqueRecordsKeys | python/CSV_Tools.py:186-196 | records mode keeps the header first; the kept keys are exactly the value-mode values, none twice |
| Dedup.UniqueRecordsFirst | python/CSV_Tools.py:188-191 | every kept row is the first data row carrying its key |
| Tables.FirstPerKeyKeys | python/CSV_Tools.py:279-282 | first-occurrence selection keeps every key of the input (the non-empty ones when empty keys are skipped) and no key twice |
| Sorter.SortByKeyPerm | python/CSV_Tools.py:211 | sorting is a permutation of the rows |
| Sorter.SortByKeySorted | python/CSV_Tools.py:211 | sorted rows are in non-decreasing order of the key |
| Sorter.SortByKeyStable | python/CSV_Tools.py:211 | for every key value, the rows carrying it keep their input order |
| Sorter.CsvSort | python/CSV_Tools.py:199-221 | IndexError on an empty table, ColumnNotFound for an unknown name; a sorted table has as many rows as the input and keeps the header first |
| Sorter.CsvSortMeaning | python/CSV_Tools.py:199-221 | the header stays first; the data rows are a permutation of the input's, sorted by the column and stable |
| Sorter.CsvSortIdempotent | python/CSV_Tools.py:199-221 | sorting twice gives the same table as sorting once |
| Sorter.CsvSortExample | python/CSV_Tools.py:199-221 | keys 3, 1, 2, 1 come out as 1, 1, 2, 3 |
| PyStr.LessTransitive | python/CSV_Tools.py:211 | string order is transitive |
| PyStr.LessTotal | python/CSV_Tools.py:211 | two different strings are ordered one way or the other |
| PyStr.Less | python/CSV_Tools.py:211 | the string order used as the sort key is irreflexive: a string is never less than itself |
| Projector.SortDesc | python/CSV_Tools.py:160 | `sorted(cols, reverse=True)` is descending and a permutation of `cols` |
| Projector.Removals | python/CSV_Tools.py:148-157 | remove mode deletes the given positions; keep mode fails with IndexError exactly on an empty table and otherwise deletes exactly the header positions that are not listed |
| Projector.ColumnReducer | python/CSV_Tools.py:143-164 | the loops compute `ColumnReducerSpec` on a copy: the input is a value and is not changed |
| Projector.ColumnReducerSpec | python/CSV_Tools.py:159-164 | the row count is kept |
| Projector.KeepModeRemovals | python/CSV_Tools.py:151-157 | keep mode deletes the header positions not listed |
| Projector.ComplementMembers | python/CSV_Tools.py:151-157 | the positions below the header width that are not kept, each once, and nothing else |
| Projector.DeleteColumns | python/CSV_Tools.py:161-163 | the inner loop deletes the positions one after another, with IndexError at the first position past the shrunk row |
| Projector.DeleteDescending | python/CSV_Tools.py:160-163 | deleting strictly descending in-range positions removes exactly those positions |
| Projector.RemoveModeExact | python/CSV_Tools.py:159-164 | with distinct positions inside every row, each row, header included, loses exactly those positions |
| Projector.KeepModeExact | python/CSV_Tools.py:151-164 | on a rectangular table keep mode retains exactly the listed positions, in ascending position order |
| Projector.RepeatedPositionDeletesTwice | python/CSV_Tools.py:160-163 | a position listed twice deletes two columns |
| LeftJoin.LeftJoin | python/CSV_Tools.py:244-307 | returns `LeftJoinSpec(...).result` and leaves the primary table holding `LeftJoinSpec(...).rows` |
| LeftJoin.JoinHeaders | python/CSV_Tools.py:258-272 | `p_table[0]` becomes the joined header; nothing else changes |
| LeftJoin.JoinedHeader | python/CSV_Tools.py:260-272 | the joined header is the primary header lengthened by exactly the foreign header names other than the key name |
| LeftJoin.DedupForeign | python/CSV_Tools.py:276-282 | succeeds exactly when every foreign row has the key column; then the first row per key, header row included, and the collected keys |
| LeftJoin.MergeMatch | python/CSV_Tools.py:289-298 | the cell loop for a matching foreign row |
| LeftJoin.MergeCells | python/CSV_Tools.py:289-298 | merging the first `n` cells of a matching foreign row lengthens the row by at most `n` cells |
| LeftJoin.MergeCellsCells | python/CSV_Tools.py:289-298 | in either mode, the cells merged into the row are exactly the foreign row's cells other than the key value, wherever they land |
| LeftJoin.JoinOne | python/CSV_Tools.py:285-306 | one primary row after the scan and the missing-key placeholder |
| LeftJoin.JoinRow | python/CSV_Tools.py:285-306 | a joined row never loses a cell, and a row whose key is not among the foreign keys gets at least one more cell, the placeholder |
| LeftJoin.JoinDataRows | python/CSV_Tools.py:284-306 | each primary data row is joined in place, up to the first row too short for the key |
| LeftJoin.JoinOn | python/CSV_Tools.py:258-307 | everything after the key lookups: the result and the new primary table agree with `JoinOnColumns` |
| LeftJoin.MatchOf | python/CSV_Tools.py:288-289 | no match exactly when no row carries the key; otherwise the first row that does |
| LeftJoin.MatchOfFirstPerKey | python/CSV_Tools.py:276-289 | deduplicating first keeps the first foreign row for every key |
| LeftJoin.MergeAllDistinct | python/CSV_Tools.py:288-298 | with distinct foreign keys at most one row is merged: the one carrying the primary key |
| LeftJoin.MergeCellsAppend | python/CSV_Tools.py:291-295 | append mode adds the foreign cells in order, minus every cell equal to the key value |
| LeftJoin.MergeCellsInsertKeyFirst | python/CSV_Tools.py:291-298 | insert mode, with the foreign key in column 0 and no other cell repeating the key value, puts the other cells right after the primary key, in foreign order |
| LeftJoin.JoinRowMeaning | python/CSV_Tools.py:284-305 | a joined row in terms of the foreign table: a key equal to the foreign key's name is left alone, a matched key gets the first matching row's cells, a missing key gets one placeholder |
| LeftJoin.LeftJoinOutcome | python/CSV_Tools.py:254-307 | the primary table keeps its row count and an Ok result is that table; each error case in the source's order; Ok exactly when both keys resolve and every row holds its key column |
| LeftJoin.LeftJoinHeader | python/CSV_Tools.py:260-272 | once both keys resolve, `p_table[0]` holds the primary header plus every foreign header except the key name, appended or inserted after the key |
| LeftJoin.LeftJoinRow | python/CSV_Tools.py:284-306 | every joined data row, in either mode |
| LeftJoin.LeftJoinAppendRow | python/CSV_Tools.py:284-304 | append mode: a found key adds that first foreign row's cells other than the key value; a missing key adds exactly one "" |
| LeftJoin.LeftJoinAppendExample | python/CSV_Tools.py:244-307 | ids 1 and 2 against foreign ids 1, 1, 3: the first match wins and the unmatched row gets one placeholder |
| LeftJoin.LeftJoinInsertMisaligned | python/CSV_Tools.py:262-298 | insert mode with the foreign key in column 1: the header goes after the key but the cell goes before it |
| PyList.WithoutAppend | python/CSV_Tools.py:263-270 | dropping the key name from a concatenation drops it from each part |
| Combiner.MaxLen | python/CSV_Tools.py:49-50 | the longest row length: no row is longer and some row has it |
| Combiner.ColumnNames | python/CSV_Tools.py:51 | `n` names, the k-th being "Column" followed by k+1 in decimal |
| Combiner.ColumnNamesDistinct | python/CSV_Tools.py:51 | the generated names are pairwise distinct |
| Combiner.ColumnNamesNumbered | python/CSV_Tools.py:51 | name `k` is "Column" followed by digits that read back as `k + 1` |
| Combiner.ColumnHeaderAdd | python/CSV_Tools.py:43-52 | puts the generated header in front of the caller's table; an empty table fails and is left alone |
| Combiner.ColumnHeaderAddShape | python/CSV_Tools.py:49-52 | the header is as wide as the widest row, its names are distinct and the first is "Column1" |
| Combiner.Tag | python/CSV_Tools.py:79-80 | each row gets the file name appended, nothing else changes |
| Combiner.CsvCombine | python/CSV_Tools.py:55-96 | the loop computes `CsvCombineSpec` over the directory entries |
| Combiner.AppendCell | python/CSV_Tools.py:78-80 | the `row.append(str(fileName))` loop appends the file name to every row from the given position on and leaves the rows before it alone |
| Combiner.CsvCombineSnoc | python/CSV_Tools.py:84-93 | each entry after the first adds its contribution, its data rows with the file name appended, at the end of what was combined so far |
| Combiner.LaterPartsTagged | python/CSV_Tools.py:84-92 | every row from a later entry is a non-header row of a CSV with its file name appended |
| Combiner.CsvCombineNonCsvFirst | python/CSV_Tools.py:66-93 | a non-CSV first entry means no header and no "SourceFile" name |
| Combiner.CsvCombineHeader | python/CSV_Tools.py:72-82 | a CSV with rows listed first gives the header extended by "SourceFile" |
| Combiner.SingleHeader | python/CSV_Tools.py:99-110 | IndexError exactly when `title_row-1` is out of range, and None otherwise |
| Combiner.SingleHeaderReturnsNothing | python/CSV_Tools.py:107-110 | a well-formed two-header-row table gives None where the single-header table was meant |
| Combiner.SingleHeaderIntended | python/CSV_Tools.py:107-110 | the corrected `single_header`: IndexError exactly when `title_row-1` is out of range; otherwise the title row followed by `csv_list[header_rows:]` |
| Combiner.SingleHeaderIntendedMeaning | python/CSV_Tools.py:99-110 | the corrected `single_header` gives row `title_row` as the only header, followed by the rows from `header_rows` on |
| ReducerScript.Project | python/column_reducer.py:60-62 | one cell per requested position, cell `k` being `row[cols[k]]` |
| ReducerScript.CsvReducer | python/column_reducer.py:57-62 | the nested loops compute `CsvReducerSpec`; the input is only read |
| ReducerScript.CsvReducerCells | python/column_reducer.py:57-62 | the row count is kept; each row has `len(colsToKeep)` cells in request order |
| ReducerScript.CsvReducerReorders | python/column_reducer.py:60-62 | swapping two requested positions swaps the output cells |
| ReducerScript.CsvReducerOutOfRange | python/column_reducer.py:62 | a position past the end of any row makes the call fail |
| ReducerScript.PickIncreasing | python/column_reducer.py:60-62 | picking increasing positions yields the cells at those positions, in that order |
| ReducerScript.CsvReducerAgreesWithKeepMode | python/column_reducer.py:57-62 | with increasing positions on a rectangular table, `csvReducer` equals `column_reducer`'s keep mode |
| ReducerScript.ScriptCombine | python/column_reducer.py:65-95 | the loop computes `ScriptCombineSpec` over the directory entries |
| ReducerScript.ScriptCombineSplit | python/column_reducer.py:68-92 | the first entry's contribution, then every later CSV's rows from `headerRows` on |
| ReducerScript.ScriptCombineFirstCsv | python/column_reducer.py:72-91 | a CSV listed first contributes all its rows |
| ReducerScript.ScriptCombineNonCsvFirst | python/column_reducer.py:68-92 | a non-CSV first entry makes every CSV lose its header rows |
| ReducerScript.ScriptCombineLosesHeader | python/column_reducer.py:68-92 | a text file listed before two CSVs leaves no header at all |
| Kml.AltitudeModes | python/KML_Build.py:20-39 | each of the five abbreviations gives its mode name; anything else gives clampToGround |
| Kml.ParseMode | python/KML_Build.py:26-37 | a recognised name reads back as the mode it names |
| Kml.AltitudeModesClosed | python/KML_Build.py:36-39 | whatever the input, the result is one of the five mode names |
| Kml.ModeNamesDistinct | python/KML_Build.py:26-35 | names and abbreviations each identify their mode |
| Kml.Bgr | python/KML_Build.py:11-13 | for a six-digit colour, the result is six digits: blue, then green, then red |
| Kml.Color | python/KML_Build.py:11-17 | the colour is as long as the alpha digits plus the reordered channels, and holds no upper-case letter |
| Kml.BgrInvolution | python/KML_Build.py:11-15 | the channel swap gives blue, green, red and undoes itself |
| Kml.ColorLayout | python/KML_Build.py:11-17 | the colour is the unpadded alpha digits then the lower-cased blue, green, red; 8 characters from alpha 16 up, 7 below |
| Kml.LowerOfHex | python/KML_Build.py:14-15 | `hex` digits are already lower case |
| PyStr.Lower | python/KML_Build.py:15 | `str.lower()` keeps the length and lower-cases each character on its own |
| PyStr.HexTail | python/KML_Build.py:14 | `hex(n)[2:]` has at least one character, and for `n >= 0` every character is a lower-case hex digit |
| PyStr.HexLength | python/KML_Build.py:14 | `hex(n)[2:]` has one digit below 16 and two from 16 to 255 |
| PyStr.HexRoundTrip | python/KML_Build.py:14 | the digits of `hex(n)[2:]` read back as `n` |
| PyStr.LowerAppend | python/KML_Build.py:15 | lower-casing distributes over concatenation |
| Kml.ColorUnpaddedAlpha | python/KML_Build.py:14-15 | zero opacity yields the 7-character "00000ff" |
| Kml.AlphaByte | python/KML_Build.py:14 | the padded alpha has two digits |
| Kml.ColorPaddedLayout | python/KML_Build.py:14-15 | the corrected colour always has 8 characters: the alpha byte's two digits, then blue, green, red; it equals `color` from alpha 16 up |
| PyStr.FindFirst | python/KML_Build.py:387 | `find` returns the first occurrence at or after the start, and -1 only when there is none |
| PyStr.Find | python/KML_Build.py:387 | `str.find` returns -1 or a position at or after the start where the pattern occurs |
| PyStr.OccurrencesExact | python/KML_Build.py:384-392 | the counted positions are exactly the occurrences of the opener, ascending and each once |
| PyStr.OccurrencesByFind | python/KML_Build.py:386-390 | one `find` call from `last_found + 1` yields the next occurrence |
| PyStr.OccurrencesNext | python/KML_Build.py:386-390 | a `find` that fails leaves exactly the occurrences collected so far; one that succeeds appends the next occurrence and the rest follow it |
| Kml.CountCdata | python/KML_Build.py:384-392 | the `while True` loop collects exactly the opener positions of the original text |
| Kml.UnescapeFirstSection | python/KML_Build.py:396-409 | one pass of the `for` loop |
| Kml.CdataPass | python/KML_Build.py:396-409 | when an opener is found and the first closer is not before it, a pass never lengthens the text and keeps everything before the opener |
| Kml.PassAt | python/KML_Build.py:399-409 | with the opener and the closer inside the text in that order, the pass rewrites exactly the span from the opener through the closer, never lengthens the text and keeps what comes before the opener |
| Kml.CdataUnescape | python/KML_Build.py:384-411 | as many passes as there were openers in the original text |
| Kml.UnescapeInOrder | python/KML_Build.py:403-407 | the five entity replacements, in the source's order |
| Kml.CdataPassFrame | python/KML_Build.py:396-409 | with the closer at or after the opener, a pass rewrites only the span from the opener through the closer |
| Kml.CdataUnescapeNoSection | python/KML_Build.py:384-395 | a text without an escaped opener comes back unchanged |
| PyStr.ReplaceAbsent | python/KML_Build.py:403-407 | replacing a pattern that does not occur changes nothing |
| PyStr.Replace | python/KML_Build.py:403-407 | `str.replace` with a replacement equal to the pattern returns the text unchanged |
| PyStr.ReplaceShrinks | python/KML_Build.py:403-407 | replacing by a shorter string never lengthens the text |
| Kml.UnescapeShrinks | python/KML_Build.py:403-407 | un-escaping a section never lengthens it |
| Kml.CdataCloseBeforeOpen | python/KML_Build.py:396-401 | an escaped `]]>` before the first section duplicates text and leaves the section escaped |
| Kml.CdataPassIntendedShrinks | python/KML_Build.py:396-409 | the corrected pass, with the closer searched from the opener, never lengthens the text and keeps everything before the opener |

## Left out

- File and directory I/O is not modelled:
  - `csv_reader`, `csv_writer` and `text_writer`;
  - `csvWriter` and `main` in `column_reducer.py`;
  - `os.listdir` and `open`.
  
  The combiners take a sequence of (file name, rows) entries in listing order instead. The CSV module's parsing and quoting are not modelled either.
- `python/GIS_Basics.py` is not part of this model. It is floating-point trigonometry.
- The KML element builders and the ElementTree serialisation in `kml_build` are not modelled. The post-pass takes the serialized string as its input.
- Kml.Color: takes the alpha byte `int(round(opacity / 100 * 255, 0))` as an input. It does not model the floating-point rounding of the opacity.
- Column positions passed by the caller are natural numbers. This applies to `required_fields`, `column_reducer` and `left_join`'s resolved keys. Python's negative subscripts are modelled only in `csvReducer`, `single_header` and the slice helpers.
- PyStr.LowerChar: lower-cases ASCII letters only. Python's full Unicode case mapping is not modelled.
- Dedup.NonEmptyCells: takes `is not ""` as string inequality. CPython string interning is not modelled.
- LeftJoin.LeftJoin: the foreign table is a value, so the model assumes it shares no row object with the primary table. A self-join, or a foreign row that is also a primary row, would see the primary table's edits in CPython; the model does not. The model also assumes that the primary table's rows, header included, are distinct list objects. In CPython, a row object listed twice is extended once per listing, so every listing shows all the merged cells: with `r = ["1"]`, `p_table = [["id"], r, r]` and `f_table = [["id","v"],["1","a"]]` in append mode, both rows read `["1","a","a"]`, where the model gives `["1","a"]` twice. Likewise, a header object that is also a data row is joined again as data after its header extension. The model joins each position once.
- LeftJoin.JoinOne: shows a row after all its cells are merged. The individual `append`/`insert` calls on the row object are steps of `MergeMatch`, and no other code observes them.
- Combiner.CsvCombine: the rows `csv_reader` returns are fresh lists, so appending to them is modelled on values.
- `str()` of non-string cells or targets in `attribute_filter` and `left_join` is not modelled. Cells are strings, and the target is taken as its string form.
- Non-boolean `remove`, `records` and `insert_w_pkey` flags are not modelled. The source tests them with `is False` / `is True`.
- The `print` call in `csvCombine` is not modelled.

## Findings

| source | as written | input that shows it | evidently intended | confidence | as-written member | corrected member |
|---|---|---|---|---|---|---|
| python/CSV_Tools.py:109-110 | returns the result of `list.insert`, which is None | `single_header([["title"], ["a","b"], ["1","2"]], 2, 2)` | the table with row `title_row` as its only header, followed by the rows from `header_rows` on | high (not executed) | Combiner.SingleHeaderReturnsNothing | Combiner.SingleHeaderIntendedMeaning |
| python/KML_Build.py:14 | `hex(alpha)[2:]` is not zero-padded, so alpha below 16 gives a 7-character colour | `color("FF0000", 0)` gives "00000ff" | the two-digit alpha byte, giving an 8-digit aabbggrr value | high (not executed) | Kml.ColorUnpaddedAlpha | Kml.ColorPaddedLayout |
| python/KML_Build.py:396-401 | the closer is searched from the start of the text, not from the opener | "]]&gt;x&lt;![CDATA[y]]&gt;" becomes "]]&gt;xx&lt;![CDATA[y]]&gt;" | un-escape from the opener through the next closer after it | medium (not executed) | Kml.CdataCloseBeforeOpen | Kml.CdataPassIntendedShrinks |
