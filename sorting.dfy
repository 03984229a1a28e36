/**
 * `sort_unstable_by_key(|t| (t.r, t.c))`: tiles ordered by row, then by
 * column. The library's algorithm is not modelled; the model sorts by
 * insertion, which yields one of the orders the library may produce.
 */
module Sorting {

  /** The key every tile list is sorted by: its grid row, then its grid column. */
  datatype GridKey = GridKey(r: int, c: int)

  /** Lexicographic order on `(r, c)`, as Rust orders tuples. */
  predicate KeyLe(a: GridKey, b: GridKey) {
    a.r < b.r || (a.r == b.r && a.c <= b.c)
  }

  predicate SortedBy<T>(s: seq<T>, key: T -> GridKey) {
    forall i, j :: 0 <= i < j < |s| ==> KeyLe(key(s[i]), key(s[j]))
  }

  /** `x` placed before the first element whose key is larger than its own. */
  function Insert<T(==)>(x: T, s: seq<T>, key: T -> GridKey): (r: seq<T>)
    requires SortedBy(s, key)
    ensures SortedBy(r, key)
    ensures multiset(r) == multiset(s) + multiset{x}
    ensures |r| == |s| + 1
  {
    if s == [] then [x]
    else if KeyLe(key(x), key(s[0])) then [x] + s
    else
      var rest := Insert(x, s[1..], key);
      assert s == [s[0]] + s[1..];
      HeadBelow(s, rest, x, key);
      [s[0]] + rest
  }

  /** Every element of `rest`, which holds the tail of `s` and `x`, is at least the head of `s`. */
  lemma HeadBelow<T>(s: seq<T>, rest: seq<T>, x: T, key: T -> GridKey)
    requires SortedBy(s, key) && s != [] && !KeyLe(key(x), key(s[0]))
    requires multiset(rest) == multiset(s[1..]) + multiset{x}
    ensures forall j :: 0 <= j < |rest| ==> KeyLe(key(s[0]), key(rest[j]))
  {
    forall j | 0 <= j < |rest| ensures KeyLe(key(s[0]), key(rest[j])) {
      var y := rest[j];
      assert y in multiset(rest);
      if y != x {
        assert y in multiset(s[1..]);
        var i :| 0 <= i < |s[1..]| && s[1..][i] == y;
        assert s[i + 1] == y;
      }
    }
  }

  /** The tiles of `s`, each exactly as often as in `s`, in ascending `(r, c)` order. */
  function SortByKey<T(==)>(s: seq<T>, key: T -> GridKey): (r: seq<T>)
    ensures SortedBy(r, key)
    ensures multiset(r) == multiset(s)
    ensures |r| == |s|
  {
    if s == [] then []
    else
      assert s == [s[0]] + s[1..];
      Insert(s[0], SortByKey(s[1..], key), key)
  }
}
