/** Sorting by a total preorder, for the `.sort(...)` calls of the source. Sorting is stable for the
    elements the order ties, as insertion sort is; the source's sorts promise no order among ties. */
module Sorting {

  /** `le` is total and transitive: a sort key compared by `<=` or `>=`. */
  ghost predicate TotalPreorder<T(!new)>(le: (T, T) -> bool) {
    && (forall a, b :: le(a, b) || le(b, a))
    && (forall a, b, c :: le(a, b) && le(b, c) ==> le(a, c))
  }

  predicate SortedBy<T>(xs: seq<T>, le: (T, T) -> bool) {
    forall i, j :: 0 <= i < j < |xs| ==> le(xs[i], xs[j])
  }

  function Insert<T>(x: T, xs: seq<T>, le: (T, T) -> bool): (r: seq<T>)
    ensures multiset(r) == multiset(xs) + multiset{x}
  {
    if xs == [] || le(x, xs[0]) then [x] + xs
    else
      assert xs == [xs[0]] + xs[1..];
      [xs[0]] + Insert(x, xs[1..], le)
  }

  /** Insertion sort; the result is a permutation of the input. */
  function Sort<T>(xs: seq<T>, le: (T, T) -> bool): (r: seq<T>)
    ensures multiset(r) == multiset(xs)
    ensures |r| == |xs|
  {
    if xs == [] then []
    else
      assert xs == [xs[0]] + xs[1..];
      Insert(xs[0], Sort(xs[1..], le), le)
  }

  lemma {:induction false} InsertSorted<T(!new)>(x: T, xs: seq<T>, le: (T, T) -> bool)
    requires TotalPreorder(le) && SortedBy(xs, le)
    ensures SortedBy(Insert(x, xs, le), le)
  {
    if xs != [] && !le(x, xs[0]) {
      InsertSorted(x, xs[1..], le);
      var r := Insert(x, xs[1..], le);
      forall y | y in r ensures le(xs[0], y) {
        assert y in multiset(r);
        if y != x {
          assert y in multiset(xs[1..]);
          var k :| 0 <= k < |xs[1..]| && xs[1..][k] == y;
          assert xs[k + 1] == y;
        }
      }
      var s := [xs[0]] + r;
      forall i, j | 0 <= i < j < |s| ensures le(s[i], s[j]) {
        if i == 0 { assert s[j] in r; } else { assert s[i] == r[i - 1] && s[j] == r[j - 1]; }
      }
    }
  }

  lemma {:induction false} SortSorted<T(!new)>(xs: seq<T>, le: (T, T) -> bool)
    requires TotalPreorder(le)
    ensures SortedBy(Sort(xs, le), le)
  {
    if xs != [] {
      SortSorted(xs[1..], le);
      InsertSorted(xs[0], Sort(xs[1..], le), le);
    }
  }

  /** In a sorted sequence the first `n` elements are `le` every later one. */
  lemma PrefixDominates<T>(xs: seq<T>, le: (T, T) -> bool, n: nat, x: T, y: T)
    requires SortedBy(xs, le) && n <= |xs|
    requires x in xs[..n] && y in xs[n..]
    ensures le(x, y)
  {
    var i :| 0 <= i < n && xs[..n][i] == x;
    var j :| 0 <= j < |xs| - n && xs[n..][j] == y;
    assert xs[i] == x && xs[n + j] == y;
  }
}
