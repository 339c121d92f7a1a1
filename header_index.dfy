/** Header Index: resolves column names to zero-based positions
    (`indexer` in python/CSV_Tools.py). */
module HeaderIndex {
  import opened Errors
  import opened PyList
  import opened Tables

  /** `header.index(name)`: the first position of `name`, or ColumnNotFound. */
  function Resolve(header: Row, name: string): (r: Result<nat>)
    ensures r.Ok? <==> name in header
    ensures r.Ok? ==> r.value < |header| && header[r.value] == name
    ensures r.Ok? ==> forall j :: 0 <= j < r.value ==> header[j] != name
    ensures r.Err? ==> r.error == ColumnNotFound(name)
  {
    match IndexOf(header, name)
    case None => Err(ColumnNotFound(name))
    case Some(i) => Ok(i)
  }

  /** `p` is the first position of `name` in `header`. */
  predicate FirstPosition(header: Row, name: string, p: nat) {
    p < |header| && header[p] == name && forall j :: 0 <= j < p ==> header[j] != name
  }

  /** `indexer(header_list, cols_to_index)`: one position per requested name,
      in request order, each the first position holding that name; the first
      missing name (in request order) is the one reported. */
  function Indexer(header: Row, names: seq<string>): (r: Result<seq<nat>>)
    ensures r.Ok? <==> forall k :: 0 <= k < |names| ==> names[k] in header
    ensures r.Ok? ==> |r.value| == |names|
    ensures r.Ok? ==> forall k :: 0 <= k < |names| ==> FirstPosition(header, names[k], r.value[k])
    ensures r.Err? ==> exists k :: (0 <= k < |names| && r.error == ColumnNotFound(names[k])
      && names[k] !in header && forall j :: 0 <= j < k ==> names[j] in header)
  {
    if names == [] then Ok([])
    else
      match Resolve(header, names[0])
      case Err(e) => Err(e)
      case Ok(i) =>
        match Indexer(header, names[1..])
        case Err(e) =>
          assert forall j :: 1 <= j < |names| ==> names[j] == names[1..][j - 1];
          Err(e)
        case Ok(rest) => Ok([i] + rest)
  }

  /** Resolving one name through `indexer` (as `indexer(h, [name])[0]`) and
      through `header.index(name)` agree, error included. */
  lemma IndexerSingle(header: Row, name: string)
    ensures Indexer(header, [name]) ==
      match Resolve(header, name)
      case Ok(i) => Ok([i])
      case Err(e) => Err(e)
  {
    assert [name][1..] == [];
    assert Indexer(header, []) == Ok([]);
    if Resolve(header, name).Ok? {
      assert [Resolve(header, name).value] + [] == [Resolve(header, name).value];
    }
  }
}
