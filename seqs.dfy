/** Sequence operations the source performs with `filter`, `new Set(...)` and `slice`. */
module Seqs {

  /** `xs.filter(p)`: the elements satisfying `p`, in their original order. */
  function Filter<T(!new)>(xs: seq<T>, p: T -> bool): (r: seq<T>)
    ensures |r| <= |xs|
    ensures forall x :: x in r <==> x in xs && p(x)
  {
    if xs == [] then []
    else
      assert xs == [xs[0]] + xs[1..];
      if p(xs[0]) then [xs[0]] + Filter(xs[1..], p) else Filter(xs[1..], p)
  }

  lemma {:induction false} FilterAppend<T(!new)>(a: seq<T>, b: seq<T>, p: T -> bool)
    ensures Filter(a + b, p) == Filter(a, p) + Filter(b, p)
  {
    if a != [] {
      assert (a + b)[1..] == a[1..] + b;
      FilterAppend(a[1..], b, p);
    } else {
      assert a + b == b;
    }
  }

  /** The filter keeps every copy of an element that satisfies `p` and no copy of one that does not. */
  lemma {:induction false} FilterMultiplicity<T(!new)>(xs: seq<T>, p: T -> bool, x: T)
    ensures multiset(Filter(xs, p))[x] == if p(x) then multiset(xs)[x] else 0
  {
    if xs != [] {
      assert xs == [xs[0]] + xs[1..];
      FilterMultiplicity(xs[1..], p, x);
    }
  }

  /** No element occurs twice. */
  predicate NoDuplicates<T(==)>(xs: seq<T>) {
    forall i, j :: 0 <= i < j < |xs| ==> xs[i] != xs[j]
  }

  lemma {:induction false} NoDuplicatesCount<T>(a: seq<T>, x: T)
    requires NoDuplicates(a)
    ensures multiset(a)[x] <= 1
  {
    if a != [] {
      assert a == [a[0]] + a[1..];
      NoDuplicatesCount(a[1..], x);
      if a[0] == x {
        assert forall k :: 0 <= k < |a[1..]| ==> a[1..][k] == a[k + 1];
      }
    }
  }

  /** A permutation of a sequence without duplicates has none either. */
  lemma NoDuplicatesPermutation<T>(a: seq<T>, b: seq<T>)
    requires NoDuplicates(a) && multiset(a) == multiset(b)
    ensures NoDuplicates(b)
  {
    forall i, j | 0 <= i < j < |b| ensures b[i] != b[j] {
      if b[i] == b[j] {
        var x := b[i];
        assert b == b[..j] + b[j..];
        assert x in b[..j] && x in b[j..];
        assert multiset(b)[x] == multiset(b[..j])[x] + multiset(b[j..])[x];
        NoDuplicatesCount(a, x);
      }
    }
  }

  /** `[...new Set(xs)]`: each distinct element once, in order of first occurrence. */
  function Distinct<T(==,!new)>(xs: seq<T>): (r: seq<T>)
    ensures NoDuplicates(r)
    ensures forall x :: x in r <==> x in xs
    ensures |r| <= |xs|
  {
    if xs == [] then []
    else
      var d := Distinct(xs[..|xs| - 1]);
      var x := xs[|xs| - 1];
      assert xs == xs[..|xs| - 1] + [x];
      if x in d then d else d + [x]
  }

  /** Index of the first occurrence of `x` in `xs`. */
  function FirstIndex<T(==)>(xs: seq<T>, x: T): (i: nat)
    requires x in xs
    ensures i < |xs| && xs[i] == x && x !in xs[..i]
  {
    if xs[0] == x then 0 else 1 + FirstIndex(xs[1..], x)
  }

  /** `Distinct` lists the elements in the order in which they first occur. */
  lemma {:induction false} DistinctFirstOccurrenceOrder<T(!new)>(xs: seq<T>, i: nat, j: nat)
    requires i < j < |Distinct(xs)|
    ensures FirstIndex(xs, Distinct(xs)[i]) < FirstIndex(xs, Distinct(xs)[j])
  {
    var pre := xs[..|xs| - 1];
    var x := xs[|xs| - 1];
    var d := Distinct(pre);
    assert xs == pre + [x];
    var a, b := Distinct(xs)[i], Distinct(xs)[j];
    PrefixFirstIndex(pre, x, a);
    if j < |d| {
      DistinctFirstOccurrenceOrder(pre, i, j);
      PrefixFirstIndex(pre, x, b);
    } else {
      // b is the last element, new in xs: it first occurs at the end
      assert b == x && x !in pre;
      assert FirstIndex(xs, b) == |pre|;
    }
  }

  lemma PrefixFirstIndex<T>(pre: seq<T>, x: T, a: T)
    requires a in pre
    ensures FirstIndex(pre + [x], a) == FirstIndex(pre, a)
  {
    var k := FirstIndex(pre, a);
    assert (pre + [x])[k] == a;
  }

  /** The values of `m` under the keys `0 .. n - 1`, in ascending key order: a collection's
      natural order when ids are handed out by a counter. */
  function InKeyOrder<V(==)>(m: map<nat, V>, n: nat): (r: seq<V>)
    ensures forall k :: k in m && k < n ==> m[k] in r
    ensures forall v :: v in r ==> v in m.Values
  {
    if n == 0 then [] else InKeyOrder(m, n - 1) + (if n - 1 in m then [m[n - 1]] else [])
  }

  /** Counting the documents that satisfy `p` in the listing is counting the keys whose value does. */
  lemma {:induction false} CountInKeyOrder<V(!new)>(m: map<nat, V>, n: nat, p: V -> bool)
    ensures |Filter(InKeyOrder(m, n), p)| == |KeysWhere(m, n, p)|
  {
    if n > 0 {
      CountInKeyOrder(m, n - 1, p);
      KeysWhereStep(m, n, p);
      FilterKeyStep(m, n, p);
    }
  }

  /** Listing one more key adds one matching document exactly when the key is present and its value matches. */
  lemma FilterKeyStep<V(!new)>(m: map<nat, V>, n: nat, p: V -> bool)
    requires n > 0
    ensures |Filter(InKeyOrder(m, n), p)| == |Filter(InKeyOrder(m, n - 1), p)| + (if n - 1 in m && p(m[n - 1]) then 1 else 0)
  {
    var front := InKeyOrder(m, n - 1);
    if n - 1 in m {
      var x := m[n - 1];
      assert InKeyOrder(m, n) == front + [x];
      FilterAppend(front, [x], p);
      FilterSingleton(x, p);
    } else {
      assert InKeyOrder(m, n) == front;
    }
  }

  lemma FilterSingleton<T(!new)>(x: T, p: T -> bool)
    ensures |Filter([x], p)| == if p(x) then 1 else 0
  {
    assert [x][1..] == [];
  }

  /** Raising the bound by one adds the new key exactly when it is present and its value satisfies `p`. */
  lemma KeysWhereStep<V>(m: map<nat, V>, n: nat, p: V -> bool)
    requires n > 0
    ensures |KeysWhere(m, n, p)| == |KeysWhere(m, n - 1, p)| + (if n - 1 in m && p(m[n - 1]) then 1 else 0)
  {
    if n - 1 in m && p(m[n - 1]) {
      assert KeysWhere(m, n, p) == KeysWhere(m, n - 1, p) + {n - 1};
    } else {
      assert KeysWhere(m, n, p) == KeysWhere(m, n - 1, p);
    }
  }

  /** The keys below `n` whose value satisfies `p`. */
  function KeysWhere<V>(m: map<nat, V>, n: nat, p: V -> bool): set<nat> {
    set k | k in m && k < n && p(m[k])
  }

  /** `xs.find(p)` from position `from` on, as an index: the first position satisfying `p`, if any. */
  function FirstWhere<T>(xs: seq<T>, p: T -> bool, from: nat): (k: int)
    requires from <= |xs|
    ensures k == -1 || from <= k < |xs|
    ensures k == -1 ==> forall i :: from <= i < |xs| ==> !p(xs[i])
    ensures k != -1 ==> p(xs[k]) && forall i :: from <= i < k ==> !p(xs[i])
    decreases |xs| - from
  {
    if from == |xs| then -1
    else if p(xs[from]) then from
    else FirstWhere(xs, p, from + 1)
  }

  /** `xs.slice(0, n)` */
  function Take<T>(xs: seq<T>, n: nat): (r: seq<T>)
    ensures |r| == if |xs| < n then |xs| else n
    ensures r == xs[..|r|]
  {
    if |xs| < n then xs else xs[..n]
  }
}
