/** Counting occurrences, as the pages do with `acc[k] = (acc[k] || 0) + 1`. */
module Tally {
  import opened Seqs

  /** The count object after one pass over `xs`: each value seen maps to how often it occurs. */
  function CountMap(xs: seq<string>): (m: map<string, nat>)
    ensures forall k :: k in m <==> k in xs
    ensures forall k :: k in m ==> m[k] == multiset(xs)[k]
  {
    if xs == [] then map[]
    else
      var pre := xs[..|xs| - 1];
      var x := xs[|xs| - 1];
      assert xs == pre + [x];
      var m := CountMap(pre);
      m[x := (if x in m then m[x] else 0) + 1]
  }

  /** One more element raises its own count by one and leaves every other count alone. */
  lemma CountMapStep(xs: seq<string>, x: string)
    ensures CountMap(xs + [x]) == CountMap(xs)[x := (if x in CountMap(xs) then CountMap(xs)[x] else 0) + 1]
  {
    assert (xs + [x])[..|xs + [x]| - 1] == xs;
  }

  /** Counting one element further into `xs` raises that element's count by one. */
  lemma CountMapPrefix(xs: seq<string>, i: nat)
    requires i < |xs|
    ensures CountMap(xs[..i + 1]) == CountMap(xs[..i])[xs[i] := (if xs[i] in CountMap(xs[..i]) then CountMap(xs[..i])[xs[i]] else 0) + 1]
  {
    assert xs[..i + 1] == xs[..i] + [xs[i]];
    CountMapStep(xs[..i], xs[i]);
  }

  /** The count of each of `keys` in `xs`, in the order of `keys`. */
  function Counts(keys: seq<string>, xs: seq<string>): (r: seq<nat>)
    ensures |r| == |keys|
    ensures forall i :: 0 <= i < |keys| ==> r[i] == multiset(xs)[keys[i]]
  {
    seq(|keys|, i requires 0 <= i < |keys| => multiset(xs)[keys[i]])
  }

  function Sum(ns: seq<nat>): nat {
    if ns == [] then 0 else ns[0] + Sum(ns[1..])
  }

  /** One more element adds one to the summed counts exactly when it is one of the keys. */
  lemma {:induction false} SumCountsStep(keys: seq<string>, xs: seq<string>, x: string)
    requires NoDuplicates(keys)
    ensures Sum(Counts(keys, xs + [x])) == Sum(Counts(keys, xs)) + (if x in keys then 1 else 0)
  {
    if keys != [] {
      assert NoDuplicates(keys[1..]);
      SumCountsStep(keys[1..], xs, x);
      assert Counts(keys, xs)[1..] == Counts(keys[1..], xs);
      assert Counts(keys, xs + [x])[1..] == Counts(keys[1..], xs + [x]);
      if keys[0] == x {
        assert x !in keys[1..] by {
          assert forall i :: 0 <= i < |keys[1..]| ==> keys[1..][i] == keys[i + 1] != keys[0];
        }
      } else {
        assert x in keys <==> x in keys[1..];
      }
    }
  }

  lemma {:induction false} SumCountsEmpty(keys: seq<string>)
    ensures Sum(Counts(keys, [])) == 0
  {
    if keys != [] {
      assert Counts(keys, [])[1..] == Counts(keys[1..], []);
      SumCountsEmpty(keys[1..]);
    }
  }

  /** Summed over keys that name every element once, the counts add up to the number of elements. */
  lemma {:induction false} SumCountsTotal(keys: seq<string>, xs: seq<string>)
    requires NoDuplicates(keys)
    requires forall x :: x in xs ==> x in keys
    ensures Sum(Counts(keys, xs)) == |xs|
  {
    if xs == [] {
      SumCountsEmpty(keys);
    } else {
      var pre := xs[..|xs| - 1];
      var x := xs[|xs| - 1];
      assert xs == pre + [x];
      SumCountsTotal(keys, pre);
      SumCountsStep(keys, pre, x);
    }
  }

  /** The values of the count object, taken over its keys, sum to the number of elements counted. */
  lemma CountsSumToLength(xs: seq<string>)
    ensures Sum(Counts(Distinct(xs), xs)) == |xs|
  {
    SumCountsTotal(Distinct(xs), xs);
  }
}
