/** The few built-in list operations of Python whose edge cases the table
    engine depends on: `list.index`, `list.insert` and slicing. */
module PyList {
  import opened Errors

  /** `s.index(x)`: the first position that holds `x`, or nothing when `x`
      does not occur (where Python raises ValueError). */
  function IndexOf<T(==)>(s: seq<T>, x: T): (r: Option<nat>)
    ensures r.Some? ==> r.value < |s| && s[r.value] == x && x !in s[..r.value]
    ensures r.Some? ==> forall j :: 0 <= j < r.value ==> s[j] != x
    ensures r.None? <==> x !in s
  {
    if |s| == 0 then None
    else if s[0] == x then Some(0)
    else
      match IndexOf(s[1..], x)
      case None => None
      case Some(i) =>
        assert s[..i + 1] == [s[0]] + s[1..][..i];
        Some(i + 1)
  }

  /** Python's normalisation of a slice bound or insertion point for a list
      of length `n`: negative values count from the end, and the result is
      clamped to `0..n`. */
  function Clamp(n: nat, i: int): (k: nat)
    ensures k <= n
    ensures 0 <= i <= n ==> k == i
  {
    if i < 0 then (if n + i < 0 then 0 else n + i)
    else if i > n then n
    else i
  }

  /** `s.insert(i, x)`: never fails; a position past the end appends. */
  function Insert<T>(s: seq<T>, i: int, x: T): (r: seq<T>)
    ensures |r| == |s| + 1
    ensures i >= |s| ==> r == s + [x]
  {
    var k := Clamp(|s|, i);
    s[..k] + [x] + s[k..]
  }

  /** Whatever the position, `insert` adds exactly one element; a position
      inside the list puts it there and shifts the rest up by one. */
  lemma InsertPlaces<T>(s: seq<T>, i: int, x: T)
    ensures multiset(Insert(s, i, x)) == multiset(s) + multiset{x}
    ensures 0 <= i <= |s| ==> Insert(s, i, x)[i] == x && Insert(s, i, x)[..i] == s[..i] && Insert(s, i, x)[i + 1..] == s[i..]
  {
    var k := Clamp(|s|, i);
    assert s == s[..k] + s[k..];
    assert Insert(s, i, x) == s[..k] + [x] + s[k..];
  }

  /** `s[a:b]` with Python's clamping; an empty result when the bounds cross. */
  function Slice<T>(s: seq<T>, a: int, b: int): (r: seq<T>)
    ensures |r| <= |s|
    ensures 0 <= a <= b <= |s| ==> r == s[a..b]
    ensures 0 <= b <= a ==> r == []
  {
    var i, j := Clamp(|s|, a), Clamp(|s|, b);
    if i < j then s[i..j] else []
  }

  /** `s[a:]` */
  function From<T>(s: seq<T>, a: int): (r: seq<T>)
    ensures |r| <= |s|
  {
    s[Clamp(|s|, a)..]
  }

  /** `s[:b]` */
  function Upto<T>(s: seq<T>, b: int): (r: seq<T>)
    ensures |r| <= |s|
  {
    s[..Clamp(|s|, b)]
  }

  /** Whether the subscript `s[i]` succeeds (negative `i` counts from the end). */
  predicate InRange(n: nat, i: int) {
    -(n as int) <= i < n
  }

  /** The element `s[i]` denotes when `InRange(|s|, i)`. */
  function At<T>(s: seq<T>, i: int): (r: T)
    requires InRange(|s|, i)
    ensures r in s
    ensures 0 <= i ==> r == s[i]
    ensures i < 0 ==> r == s[|s| + i]
  {
    if i < 0 then s[|s| + i] else s[i]
  }

  /** The elements of `s` different from `x`, in order. */
  function Without(s: seq<string>, x: string): (r: seq<string>)
    ensures x !in r
    ensures |r| <= |s|
    ensures forall y :: y in r <==> y in s && y != x
  {
    if s == [] then []
    else (if s[0] == x then [] else [s[0]]) + Without(s[1..], x)
  }

  lemma WithoutAppend(a: seq<string>, b: seq<string>, x: string)
    ensures Without(a + b, x) == Without(a, x) + Without(b, x)
  {
    if a != [] {
      assert (a + b)[1..] == a[1..] + b;
      WithoutAppend(a[1..], b, x);
      assert (a + b)[0] == a[0];
    } else {
      assert a + b == b;
    }
  }
}
