/** Keeping a list in order while it grows. */
module Sorting {
  import opened Sequences

  ghost predicate InOrder<T(!new)>(leq: (T, T) -> bool, xs: seq<T>) {
    forall i, j :: 0 <= i < j < |xs| ==> leq(xs[i], xs[j])
  }

  ghost predicate TotalPreorder<T(!new)>(leq: (T, T) -> bool) {
    && (forall x, y :: leq(x, y) || leq(y, x))
    && (forall x, y, z :: leq(x, y) && leq(y, z) ==> leq(x, z))
  }

  function Inserted<T>(xs: seq<T>, at: nat, x: T): seq<T>
    requires at <= |xs|
  {
    xs[..at] + [x] + xs[at..]
  }

  lemma InsertedMembers<T>(xs: seq<T>, at: nat, x: T)
    requires at <= |xs|
    ensures multiset(Inserted(xs, at, x)) == multiset(xs) + multiset{x}
    ensures forall y :: y in Inserted(xs, at, x) <==> y == x || y in xs
    ensures NoDuplicates(xs) && x !in xs ==> NoDuplicates(Inserted(xs, at, x))
  {
    assert xs == xs[..at] + xs[at..];
    var r := Inserted(xs, at, x);
    forall i, j | NoDuplicates(xs) && x !in xs && 0 <= i < j < |r|
      ensures r[i] != r[j]
    {
      assert i != at ==> r[i] == xs[if i < at then i else i - 1];
      assert j != at ==> r[j] == xs[if j < at then j else j - 1];
    }
  }

  /** The new element goes after all that do not come later than it. */
  method Insert<T(!new)>(leq: (T, T) -> bool, sorted: seq<T>, x: T) returns (r: seq<T>, at: nat)
    requires TotalPreorder(leq) && InOrder(leq, sorted)
    ensures at <= |sorted| && r == Inserted(sorted, at, x) && InOrder(leq, r)
  {
    at := |sorted|;
    while at > 0 && !leq(sorted[at - 1], x)
      invariant at <= |sorted|
      invariant forall k :: at <= k < |sorted| ==> leq(x, sorted[k])
    {
      at := at - 1;
    }
    assert forall k :: 0 <= k < at ==> leq(sorted[k], x);
    r := Inserted(sorted, at, x);
  }

  method Sort<T(!new)>(leq: (T, T) -> bool, xs: seq<T>) returns (r: seq<T>)
    requires TotalPreorder(leq)
    ensures InOrder(leq, r) && multiset(r) == multiset(xs)
  {
    r := [];
    for i := 0 to |xs|
      invariant InOrder(leq, r) && multiset(r) == multiset(xs[..i])
    {
      assert xs[..i + 1] == xs[..i] + [xs[i]];
      var before := r;
      var at;
      r, at := Insert(leq, before, xs[i]);
      InsertedMembers(before, at, xs[i]);
    }
    assert xs[..|xs|] == xs;
  }
}
