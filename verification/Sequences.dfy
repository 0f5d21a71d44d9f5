/** Order-preserving removal of duplicates, the way the program's vectors do it. */
module Sequences {

  ghost predicate NoDuplicates<T>(xs: seq<T>) {
    forall i, j :: 0 <= i < j < |xs| ==> xs[i] != xs[j]
  }

  /** Each element once, at its first occurrence. */
  function Distinct<T(==,!new)>(xs: seq<T>): (r: seq<T>)
    ensures NoDuplicates(r)
    ensures forall x :: x in r <==> x in xs
  {
    if xs == [] then [] else
      var last := |xs| - 1;
      assert xs == xs[..last] + [xs[last]];
      var init := Distinct(xs[..last]);
      if xs[last] in init then init else init + [xs[last]]
  }

  lemma {:induction false} DistinctKeeps<T(!new)>(xs: seq<T>)
    requires NoDuplicates(xs)
    ensures Distinct(xs) == xs
  {
    if xs != [] {
      DistinctKeeps(xs[..|xs| - 1]);
      assert xs == xs[..|xs| - 1] + [xs[|xs| - 1]];
    }
  }

  /** Elements of the result are ordered as their first occurrences are. */
  lemma {:induction false} DistinctOrder<T(!new)>(xs: seq<T>, i: nat, j: nat) returns (p: nat, q: nat)
    requires i < j < |Distinct(xs)|
    ensures p < q < |xs| && xs[p] == Distinct(xs)[i] && xs[q] == Distinct(xs)[j]
    ensures xs[p] !in xs[..p] && xs[q] !in xs[..q]
  {
    var last := |xs| - 1;
    var init := xs[..last];
    if j < |Distinct(init)| {
      p, q := DistinctOrder(init, i, j);
      assert xs[..p] == init[..p] && xs[..q] == init[..q];
    } else {
      q := last;
      p := DistinctFirst(init, i);
      assert xs[..p] == init[..p];
    }
  }

  lemma {:induction false} DistinctFirst<T(!new)>(xs: seq<T>, i: nat) returns (p: nat)
    requires i < |Distinct(xs)|
    ensures p < |xs| && xs[p] == Distinct(xs)[i] && xs[p] !in xs[..p]
  {
    var last := |xs| - 1;
    var init := xs[..last];
    if i < |Distinct(init)| {
      p := DistinctFirst(init, i);
      assert xs[..p] == init[..p];
    } else {
      p := last;
    }
  }

  method RemoveDuplicates<T(==,!new)>(xs: seq<T>) returns (r: seq<T>)
    ensures r == Distinct(xs)
  {
    r := [];
    for i := 0 to |xs|
      invariant r == Distinct(xs[..i])
    {
      assert xs[..i + 1][..i] == xs[..i];
      if xs[i] !in r {
        r := r + [xs[i]];
      }
    }
    assert xs[..|xs|] == xs;
  }
}
