/**
 Delivery dependencies of consolidated claims. A retired claim may be uploaded only when
 every claim that carries its knowledge has been acknowledged, or has itself been retired
 into carriers for which the same holds. The groups form an AND/OR graph that may be cyclic.
 */
module ConsolidationDelivery {
  import opened Claims

  datatype Group = Group(before: Claim, retired: Claim, carriers: seq<Claim>)

  // ---- The backtracking search ----

  /** The ids the search can ever put on its path, apart from the one it starts from. */
  function CarrierIds(groups: seq<Group>): set<ClaimId> {
    set g, c | g in groups && c in g.carriers :: c.id
  }

  /** A claim that needs no further derivation. */
  predicate Live(c: Claim, acknowledged: seq<Claim>, current: seq<Claim>) {
    c.status != Deprecated && c in current && c in acknowledged
  }

  predicate CarrierReady(c: Claim, groups: seq<Group>, acknowledged: seq<Claim>, current: seq<Claim>,
                         visiting: set<ClaimId>)
    decreases if c.id in CarrierIds(groups) then 0 else 1, CarrierIds(groups) - visiting
  {
    Live(c, acknowledged, current) ||
    (c.id !in visiting &&
     exists g :: g in groups && g.before == c && g.retired in current && g.carriers != [] &&
       forall k :: k in g.carriers ==> CarrierReady(k, groups, acknowledged, current, visiting + {c.id}))
  }

  predicate Ready(claim: Claim, groups: seq<Group>, acknowledged: seq<Claim>, current: seq<Claim>) {
    forall g :: g in groups && g.retired == claim ==>
      g.carriers != [] &&
      forall k :: k in g.carriers ==> CarrierReady(k, groups, acknowledged, current, {})
  }

  // ---- The search as the program runs it: one visiting set, extended and restored ----

  ghost predicate AllReady(ks: seq<Claim>, groups: seq<Group>, acknowledged: seq<Claim>, current: seq<Claim>,
                           visiting: set<ClaimId>)
  {
    forall k :: k in ks ==> CarrierReady(k, groups, acknowledged, current, visiting)
  }

  /** Group `g` carries `c` further: one disjunct of the search. */
  ghost predicate Delivers(g: Group, c: Claim, groups: seq<Group>, acknowledged: seq<Claim>, current: seq<Claim>,
                           visiting: set<ClaimId>)
  {
    g.before == c && g.retired in current && g.carriers != [] &&
    AllReady(g.carriers, groups, acknowledged, current, visiting)
  }

  class SearchPath {
    var ids: set<ClaimId>

    constructor ()
      ensures ids == {}
    {
      ids := {};
    }
  }

  method SearchCarrier(c: Claim, groups: seq<Group>, acknowledged: seq<Claim>, current: seq<Claim>,
                       visiting: SearchPath)
    returns (ready: bool)
    modifies visiting
    ensures visiting.ids == old(visiting.ids)
    ensures ready == CarrierReady(c, groups, acknowledged, current, visiting.ids)
    ensures (forall g :: g in groups ==> g.before != c) ==>
              (ready <==> c.status != Deprecated && c in current && c in acknowledged)
    decreases if c.id in CarrierIds(groups) then 0 else 1, CarrierIds(groups) - visiting.ids, 1
  {
    if Live(c, acknowledged, current) {
      return true;
    }
    if c.id in visiting.ids {
      return false;
    }
    ghost var path := visiting.ids + {c.id};
    visiting.ids := visiting.ids + {c.id};
    ready := false;
    var i := 0;
    while i < |groups| && !ready
      invariant 0 <= i <= |groups|
      invariant visiting.ids == path
      invariant ready <==> exists j :: 0 <= j < i && Delivers(groups[j], c, groups, acknowledged, current, path)
    {
      var g := groups[i];
      if g.before == c && g.retired in current && g.carriers != [] {
        ready := SearchAll(g.carriers, groups, acknowledged, current, visiting);
      }
      i := i + 1;
    }
    visiting.ids := visiting.ids - {c.id};
    assert visiting.ids == old(visiting.ids);
    assert ready <==> exists g :: g in groups && Delivers(g, c, groups, acknowledged, current, path);
  }

  method SearchAll(ks: seq<Claim>, groups: seq<Group>, acknowledged: seq<Claim>, current: seq<Claim>,
                   visiting: SearchPath)
    returns (ready: bool)
    requires forall k :: k in ks ==> k.id in CarrierIds(groups)
    modifies visiting
    ensures visiting.ids == old(visiting.ids)
    ensures ready == AllReady(ks, groups, acknowledged, current, visiting.ids)
    decreases 0, CarrierIds(groups) - visiting.ids, 2
  {
    ready := true;
    var i := 0;
    while i < |ks| && ready
      invariant 0 <= i <= |ks|
      invariant visiting.ids == old(visiting.ids)
      invariant ready == AllReady(ks[..i], groups, acknowledged, current, visiting.ids)
    {
      ready := SearchCarrier(ks[i], groups, acknowledged, current, visiting);
      assert ks[..i + 1] == ks[..i] + [ks[i]];
      i := i + 1;
    }
    if ready {
      assert ks[..i] == ks;
    }
  }

  /** One group's part of the answer, each carrier with a search of its own. */
  method SearchCarriers(g: Group, groups: seq<Group>, acknowledged: seq<Claim>, current: seq<Claim>)
    returns (ready: bool)
    ensures ready <==> g.carriers != [] && AllReady(g.carriers, groups, acknowledged, current, {})
  {
    ready := g.carriers != [];
    var i := 0;
    while i < |g.carriers| && ready
      invariant 0 <= i <= |g.carriers|
      invariant ready <==> g.carriers != [] && AllReady(g.carriers[..i], groups, acknowledged, current, {})
    {
      var path := new SearchPath();
      ready := SearchCarrier(g.carriers[i], groups, acknowledged, current, path);
      assert g.carriers[..i + 1] == g.carriers[..i] + [g.carriers[i]];
      i := i + 1;
    }
    if ready {
      assert g.carriers[..i] == g.carriers;
    }
  }

  /** Whether a claim may be uploaded. */
  method SearchRetired(claim: Claim, groups: seq<Group>, acknowledged: seq<Claim>, current: seq<Claim>)
    returns (ready: bool)
    ensures ready == Ready(claim, groups, acknowledged, current)
    ensures (forall g :: g in groups ==> g.retired != claim) ==> ready
    ensures ready && (exists g :: g in groups && g.retired == claim) ==>
              exists k :: k in acknowledged && k in current && k.status != Deprecated
  {
    ready := true;
    var i := 0;
    while i < |groups| && ready
      invariant 0 <= i <= |groups|
      invariant ready <==> forall j :: 0 <= j < i && groups[j].retired == claim ==>
                  groups[j].carriers != [] && AllReady(groups[j].carriers, groups, acknowledged, current, {})
    {
      if groups[i].retired == claim {
        ready := SearchCarriers(groups[i], groups, acknowledged, current);
      }
      i := i + 1;
    }
    if ready {
      forall g | g in groups && g.retired == claim
        ensures g.carriers != [] && AllReady(g.carriers, groups, acknowledged, current, {})
      {
        var j :| 0 <= j < |groups| && groups[j] == g;
      }
      if g :| g in groups && g.retired == claim {
        var k := g.carriers[0];
        assert k in g.carriers;
        var x := ReadyNeedsAcknowledgement(claim, g, k, groups, acknowledged, current);
      }
    }
  }

  // ---- What a true answer means ----

  /** Evidence that a claim is carried: a finite tree of retirements. */
  datatype Derivation = Leaf(claim: Claim) | Step(group: Group, parts: seq<Derivation>)
  {
    function Root(): Claim {
      match this
      case Leaf(c) => c
      case Step(g, _) => g.before
    }
  }

  /** Every leaf is live, and every inner node is a group in force with all its carriers derived. */
  ghost predicate Sound(d: Derivation, groups: seq<Group>, acknowledged: seq<Claim>, current: seq<Claim>) {
    match d
    case Leaf(c) => c.status != Deprecated && c in current && c in acknowledged
    case Step(g, parts) =>
      g in groups && g.retired in current && g.carriers != [] && |parts| == |g.carriers| &&
      forall i :: 0 <= i < |parts| ==>
        parts[i].Root() == g.carriers[i] && Sound(parts[i], groups, acknowledged, current)
  }

  /** No id occurs twice among the retired claims of one branch, nor in `seen`. */
  ghost predicate Unrepeated(d: Derivation, seen: set<ClaimId>) {
    match d
    case Leaf(_) => true
    case Step(g, parts) =>
      g.before.id !in seen &&
      forall i :: 0 <= i < |parts| ==> Unrepeated(parts[i], seen + {g.before.id})
  }

  ghost predicate Derives(d: Derivation, c: Claim, groups: seq<Group>, acknowledged: seq<Claim>, current: seq<Claim>)
  {
    d.Root() == c && Sound(d, groups, acknowledged, current)
  }

  /** A true answer has a finite derivation without repetition along any branch. */
  lemma {:induction false} ReadyHasDerivation(c: Claim, groups: seq<Group>, acknowledged: seq<Claim>,
                                              current: seq<Claim>, visiting: set<ClaimId>)
    returns (d: Derivation)
    requires CarrierReady(c, groups, acknowledged, current, visiting)
    ensures Derives(d, c, groups, acknowledged, current) && Unrepeated(d, visiting)
    decreases if c.id in CarrierIds(groups) then 0 else 1, CarrierIds(groups) - visiting, 0
  {
    if Live(c, acknowledged, current) {
      d := Leaf(c);
    } else {
      var g :| g in groups && Delivers(g, c, groups, acknowledged, current, visiting + {c.id});
      assert Delivers(g, c, groups, acknowledged, current, visiting + {c.id});
      var parts: seq<Derivation> := [];
      while |parts| < |g.carriers|
        invariant |parts| <= |g.carriers|
        invariant forall i :: 0 <= i < |parts| ==>
          Derives(parts[i], g.carriers[i], groups, acknowledged, current) &&
          Unrepeated(parts[i], visiting + {c.id})
      {
        var k := g.carriers[|parts|];
        assert k in g.carriers;
        var part := ReadyHasDerivation(k, groups, acknowledged, current, visiting + {c.id});
        parts := parts + [part];
      }
      d := Step(g, parts);
    }
  }

  /** The claim is one of the leaves. */
  ghost predicate Under(d: Derivation, x: Claim) {
    match d
    case Leaf(c) => x == c
    case Step(_, parts) => exists i :: 0 <= i < |parts| && Under(parts[i], x)
  }

  lemma {:induction false} SomeLeaf(d: Derivation, groups: seq<Group>, acknowledged: seq<Claim>, current: seq<Claim>)
    returns (x: Claim)
    requires Sound(d, groups, acknowledged, current)
    ensures Under(d, x) && x.status != Deprecated && x in current && x in acknowledged
  {
    match d
    case Leaf(c) => x := c;
    case Step(_, parts) =>
      x := SomeLeaf(parts[0], groups, acknowledged, current);
  }

  /** Below every carrier of a ready claim stands a claim in force, in its current version, that was acknowledged. */
  lemma ReadyNeedsAcknowledgement(claim: Claim, g: Group, k: Claim, groups: seq<Group>, acknowledged: seq<Claim>,
                                  current: seq<Claim>)
    returns (x: Claim)
    requires Ready(claim, groups, acknowledged, current)
    requires g in groups && g.retired == claim && k in g.carriers
    ensures x.status != Deprecated && x in current && x in acknowledged
    ensures exists d :: Derives(d, k, groups, acknowledged, current) && Under(d, x)
  {
    var d := ReadyHasDerivation(k, groups, acknowledged, current, {});
    x := SomeLeaf(d, groups, acknowledged, current);
  }

  /** A claim that nothing retires further is ready exactly in force, current and acknowledged. */
  lemma UnretiredIsReadyWhen(c: Claim, groups: seq<Group>, acknowledged: seq<Claim>, current: seq<Claim>,
                             visiting: set<ClaimId>)
    requires forall g :: g in groups ==> g.before != c
    ensures CarrierReady(c, groups, acknowledged, current, visiting) <==>
            c.status != Deprecated && c in current && c in acknowledged
  {
  }

  /** Conversely a derivation without repetition is always found. */
  lemma {:induction false} DerivationIsFound(d: Derivation, groups: seq<Group>, acknowledged: seq<Claim>,
                                             current: seq<Claim>, visiting: set<ClaimId>)
    requires Sound(d, groups, acknowledged, current) && Unrepeated(d, visiting)
    ensures CarrierReady(d.Root(), groups, acknowledged, current, visiting)
  {
    match d
    case Leaf(_) =>
    case Step(g, parts) =>
      forall k | k in g.carriers
        ensures CarrierReady(k, groups, acknowledged, current, visiting + {g.before.id})
      {
        var i :| 0 <= i < |g.carriers| && g.carriers[i] == k;
        DerivationIsFound(parts[i], groups, acknowledged, current, visiting + {g.before.id});
      }
  }

  /** The search decides exactly the existence of an unrepeated derivation, on every group graph. */
  lemma CarrierReadyExact(c: Claim, groups: seq<Group>, acknowledged: seq<Claim>, current: seq<Claim>,
                          visiting: set<ClaimId>)
    ensures CarrierReady(c, groups, acknowledged, current, visiting) <==>
            exists d :: Derives(d, c, groups, acknowledged, current) && Unrepeated(d, visiting)
  {
    if CarrierReady(c, groups, acknowledged, current, visiting) {
      var d := ReadyHasDerivation(c, groups, acknowledged, current, visiting);
    }
    forall d | Derives(d, c, groups, acknowledged, current) && Unrepeated(d, visiting)
      ensures CarrierReady(c, groups, acknowledged, current, visiting)
    {
      DerivationIsFound(d, groups, acknowledged, current, visiting);
    }
  }

  // ---- When the answer is the least fixed point ----

  /** The claim can be derived in at most `n` rounds of the retirement rules. */
  ghost predicate DerivableWithin(n: nat, c: Claim, groups: seq<Group>, acknowledged: seq<Claim>, current: seq<Claim>)
  {
    Live(c, acknowledged, current) ||
    (n > 0 &&
     exists g :: g in groups && g.before == c && g.retired in current && g.carriers != [] &&
       forall k :: k in g.carriers ==> DerivableWithin(n - 1, k, groups, acknowledged, current))
  }

  lemma {:induction false} WithinMonotone(m: nat, n: nat, c: Claim, groups: seq<Group>, acknowledged: seq<Claim>,
                                          current: seq<Claim>)
    requires m <= n && DerivableWithin(m, c, groups, acknowledged, current)
    ensures DerivableWithin(n, c, groups, acknowledged, current)
  {
    if !Live(c, acknowledged, current) {
      var g :| g in groups && g.before == c && g.retired in current && g.carriers != [] &&
        forall k :: k in g.carriers ==> DerivableWithin(m - 1, k, groups, acknowledged, current);
      forall k | k in g.carriers
        ensures DerivableWithin(n - 1, k, groups, acknowledged, current)
      {
        WithinMonotone(m - 1, n - 1, k, groups, acknowledged, current);
      }
    }
  }

  lemma {:induction false} DerivationIsWithin(d: Derivation, groups: seq<Group>, acknowledged: seq<Claim>,
                                              current: seq<Claim>)
    returns (n: nat)
    requires Sound(d, groups, acknowledged, current)
    ensures DerivableWithin(n, d.Root(), groups, acknowledged, current)
  {
    n := 0;
    match d
    case Leaf(_) =>
    case Step(g, parts) =>
      var i := 0;
      while i < |parts|
        invariant 0 <= i <= |parts|
        invariant forall j :: 0 <= j < i ==> DerivableWithin(n, g.carriers[j], groups, acknowledged, current)
      {
        var m := DerivationIsWithin(parts[i], groups, acknowledged, current);
        forall j | 0 <= j <= i
          ensures DerivableWithin(m + n, g.carriers[j], groups, acknowledged, current)
        {
          WithinMonotone(if j < i then n else m, m + n, g.carriers[j], groups, acknowledged, current);
        }
        n, i := m + n, i + 1;
      }
      n := n + 1;
  }

  /** Groups whose originals share an id retire the same version of it. */
  ghost predicate OneOriginalPerId(groups: seq<Group>) {
    forall g, h :: g in groups && h in groups && g.before.id == h.before.id ==> g.before == h.before
  }

  /** The visiting set never hides a derivation shorter than those already being tried. */
  lemma {:induction false} WithinIsFound(n: nat, c: Claim, groups: seq<Group>, acknowledged: seq<Claim>,
                                         current: seq<Claim>, visiting: set<ClaimId>)
    requires OneOriginalPerId(groups)
    requires DerivableWithin(n, c, groups, acknowledged, current)
    requires forall g :: g in groups && g.before.id in visiting ==>
               !DerivableWithin(n, g.before, groups, acknowledged, current)
    ensures CarrierReady(c, groups, acknowledged, current, visiting)
  {
    if Live(c, acknowledged, current) {
      return;
    }
    forall g | g in groups && g.before.id in visiting
      ensures !DerivableWithin(n - 1, g.before, groups, acknowledged, current)
    {
      if DerivableWithin(n - 1, g.before, groups, acknowledged, current) {
        WithinMonotone(n - 1, n, g.before, groups, acknowledged, current);
      }
    }
    if DerivableWithin(n - 1, c, groups, acknowledged, current) {
      WithinIsFound(n - 1, c, groups, acknowledged, current, visiting);
    } else {
      var g :| g in groups && g.before == c && g.retired in current && g.carriers != [] &&
        forall k :: k in g.carriers ==> DerivableWithin(n - 1, k, groups, acknowledged, current);
      forall k | k in g.carriers
        ensures CarrierReady(k, groups, acknowledged, current, visiting + {c.id})
      {
        WithinIsFound(n - 1, k, groups, acknowledged, current, visiting + {c.id});
      }
    }
  }

  /** With one original per id, cycles included, the search computes the least fixed point. */
  lemma CarrierReadyIsLeastFixedPoint(c: Claim, groups: seq<Group>, acknowledged: seq<Claim>, current: seq<Claim>)
    requires OneOriginalPerId(groups)
    ensures CarrierReady(c, groups, acknowledged, current, {}) <==>
            exists d :: Derives(d, c, groups, acknowledged, current)
  {
    if CarrierReady(c, groups, acknowledged, current, {}) {
      var d := ReadyHasDerivation(c, groups, acknowledged, current, {});
    }
    forall d | Derives(d, c, groups, acknowledged, current)
      ensures CarrierReady(c, groups, acknowledged, current, {})
    {
      var n := DerivationIsWithin(d, groups, acknowledged, current);
      WithinIsFound(n, c, groups, acknowledged, current, {});
    }
  }

  /** Without that condition the search can miss a derivation: a branch may not pass two versions of one id. */
  lemma TwoOriginalsOfOneIdCanHideADerivation()
    ensures exists c, groups, acknowledged, current ::
              UniqueIds(current) &&
              (exists d :: Derives(d, c, groups, acknowledged, current)) &&
              !CarrierReady(c, groups, acknowledged, current, {})
  {
    var a1 := Claim(1, "a", "first", "", 0, High, Active, 0, None, [], "");
    var a2 := a1.(statement := "second");
    var b := a1.(id := 2);
    var live := a1.(id := 3);
    var gone1 := a1.(status := Deprecated);
    var gone2 := b.(status := Deprecated);
    var groups := [Group(a1, gone1, [b]), Group(b, gone2, [a2]), Group(a2, gone1, [live])];
    var acknowledged := [live];
    var current := [gone1, gone2, live];
    var d := ThroughTwoVersions(groups, acknowledged, current);
    HiddenByThePath(groups, acknowledged, current);
    assert UniqueIds(current);
  }

  lemma ThroughTwoVersions(groups: seq<Group>, acknowledged: seq<Claim>, current: seq<Claim>) returns (d: Derivation)
    requires |groups| == 3 && groups[0].carriers == [groups[1].before] && groups[1].carriers == [groups[2].before]
    requires |groups[2].carriers| == 1 && Live(groups[2].carriers[0], acknowledged, current)
    requires groups[0].retired in current && groups[1].retired in current && groups[2].retired in current
    ensures Derives(d, groups[0].before, groups, acknowledged, current)
  {
    var leaf := Leaf(groups[2].carriers[0]);
    assert Sound(leaf, groups, acknowledged, current);
    var d3 := Step(groups[2], [leaf]);
    assert Sound(d3, groups, acknowledged, current);
    var d2 := Step(groups[1], [d3]);
    assert Sound(d2, groups, acknowledged, current);
    d := Step(groups[0], [d2]);
  }

  lemma HiddenByThePath(groups: seq<Group>, acknowledged: seq<Claim>, current: seq<Claim>)
    requires |groups| == 3 && groups[0].carriers == [groups[1].before] && groups[1].carriers == [groups[2].before]
    requires groups[0].before.id == groups[2].before.id && groups[0].before != groups[2].before
    requires groups[1].before.id != groups[0].before.id
    requires forall i :: 0 <= i < 3 ==> !Live(groups[i].before, acknowledged, current)
    ensures !CarrierReady(groups[0].before, groups, acknowledged, current, {})
  {
    var a1, b, a2 := groups[0].before, groups[1].before, groups[2].before;
    var path := {} + {a1.id};
    assert !CarrierReady(a2, groups, acknowledged, current, path + {b.id});
    assert a2 in groups[1].carriers && b in groups[0].carriers;
    assert !CarrierReady(b, groups, acknowledged, current, path);
  }

  /** Retirements that only lean on each other, with no live claim among them, are never ready. */
  lemma UnfoundedIsNeverReady(stuck: set<Claim>, c: Claim, groups: seq<Group>, acknowledged: seq<Claim>,
                              current: seq<Claim>, visiting: set<ClaimId>)
    requires forall k :: k in stuck ==> !Live(k, acknowledged, current)
    requires forall g :: g in groups && g.before in stuck && g.carriers != [] ==>
               exists k :: k in g.carriers && k in stuck
    requires c in stuck
    ensures !CarrierReady(c, groups, acknowledged, current, visiting)
  {
    if CarrierReady(c, groups, acknowledged, current, visiting) {
      var d := ReadyHasDerivation(c, groups, acknowledged, current, visiting);
      NoDerivationFromStuck(stuck, d, groups, acknowledged, current);
    }
  }

  lemma {:induction false} NoDerivationFromStuck(stuck: set<Claim>, d: Derivation, groups: seq<Group>,
                                                 acknowledged: seq<Claim>, current: seq<Claim>)
    requires forall k :: k in stuck ==> !Live(k, acknowledged, current)
    requires forall g :: g in groups && g.before in stuck && g.carriers != [] ==>
               exists k :: k in g.carriers && k in stuck
    requires d.Root() in stuck
    ensures !Sound(d, groups, acknowledged, current)
  {
    match d
    case Leaf(_) =>
    case Step(g, parts) =>
      if Sound(d, groups, acknowledged, current) {
        var k :| k in g.carriers && k in stuck;
        var i :| 0 <= i < |g.carriers| && g.carriers[i] == k;
        NoDerivationFromStuck(stuck, parts[i], groups, acknowledged, current);
      }
  }

  // ---- Garbage collection ----

  function RelatedIds(groups: seq<Group>): set<ClaimId> {
    (set g | g in groups :: g.retired.id) + CarrierIds(groups)
  }

  /** The indices whose retirement is still waiting for delivery. */
  function Seeds(groups: seq<Group>, pending: seq<Claim>): set<nat> {
    set i | 0 <= i < |groups| && groups[i].retired in pending
  }

  /** The indices one pass adds: groups that retire a carrier of a kept group. */
  function Successors(groups: seq<Group>, keep: set<nat>): set<nat> {
    set i, j | i in keep && 0 <= i < |groups| && 0 <= j < |groups| && groups[j].before in groups[i].carriers :: j
  }

  ghost predicate Closed(groups: seq<Group>, keep: set<nat>) {
    Successors(groups, keep) <= keep
  }

  /** What has to be kept: the indices in every closed set above the seeds. */
  ghost function LeastClosed(groups: seq<Group>, pending: seq<Claim>): set<nat> {
    set i: nat | i < |groups| && Needed(i, groups, pending)
  }

  ghost predicate Needed(i: nat, groups: seq<Group>, pending: seq<Claim>) {
    forall keep: set<nat> :: Seeds(groups, pending) <= keep && Closed(groups, keep) ==> i in keep
  }

  /** The group retires a claim still pending, or retires a carrier of a group that is leaned on in fewer steps. */
  ghost predicate LeanedOn(n: nat, g: Group, groups: seq<Group>, pending: seq<Claim>) {
    g in groups &&
    if n == 0 then g.retired in pending
    else exists h :: LeanedOn(n - 1, h, groups, pending) && g.before in h.carriers
  }

  lemma {:induction false} LeanedOnIsNeeded(n: nat, i: nat, groups: seq<Group>, pending: seq<Claim>)
    requires i < |groups| && LeanedOn(n, groups[i], groups, pending)
    ensures i in LeastClosed(groups, pending)
  {
    LeastClosedIsClosed(groups, pending);
    if n == 0 {
      assert i in Seeds(groups, pending);
    } else {
      var h :| LeanedOn(n - 1, h, groups, pending) && groups[i].before in h.carriers;
      var j :| 0 <= j < |groups| && groups[j] == h;
      LeanedOnIsNeeded(n - 1, j, groups, pending);
      assert i in Successors(groups, LeastClosed(groups, pending));
    }
  }

  ghost function LeanedOnIndices(groups: seq<Group>, pending: seq<Claim>): set<nat> {
    set i | 0 <= i < |groups| && SomehowLeanedOn(groups[i], groups, pending)
  }

  lemma LeanedOnIsClosed(groups: seq<Group>, pending: seq<Claim>)
    ensures Seeds(groups, pending) <= LeanedOnIndices(groups, pending)
    ensures Closed(groups, LeanedOnIndices(groups, pending))
  {
    forall i | i in Seeds(groups, pending)
      ensures i in LeanedOnIndices(groups, pending)
    {
      assert LeanedOn(0, groups[i], groups, pending);
    }
    forall j | j in Successors(groups, LeanedOnIndices(groups, pending))
      ensures j in LeanedOnIndices(groups, pending)
    {
      var i :| i in LeanedOnIndices(groups, pending) && 0 <= i < |groups| && groups[j].before in groups[i].carriers;
      var n: nat :| LeanedOn(n, groups[i], groups, pending);
      assert LeanedOn(n + 1, groups[j], groups, pending);
    }
  }

  ghost predicate SomehowLeanedOn(g: Group, groups: seq<Group>, pending: seq<Claim>) {
    exists n: nat :: LeanedOn(n, g, groups, pending)
  }

  /** A collection keeps a group exactly if a chain of carriers leads to it from a pending retirement. */
  lemma PrunedExactly(groups: seq<Group>, pending: seq<Claim>, g: Group)
    ensures g in PrunedGroups(groups, pending) <==> SomehowLeanedOn(g, groups, pending)
  {
    LeanedOnIsClosed(groups, pending);
    if SomehowLeanedOn(g, groups, pending) {
      var n: nat :| LeanedOn(n, g, groups, pending);
      var i :| 0 <= i < |groups| && groups[i] == g;
      LeanedOnIsNeeded(n, i, groups, pending);
      assert g in Select(groups, LeastClosed(groups, pending));
    }
    if g in Select(groups, LeastClosed(groups, pending)) {
      var i :| i in LeastClosed(groups, pending) && 0 <= i < |groups| && groups[i] == g;
      assert Needed(i, groups, pending);
      assert i in LeanedOnIndices(groups, pending);
    }
  }

  /** And an acknowledgement exactly if a kept group retires its id or names it as a carrier. */
  lemma PrunedAcksExactly(groups: seq<Group>, acknowledged: seq<Claim>, pending: seq<Claim>, c: Claim)
    ensures c in PrunedAcks(groups, acknowledged, pending) <==>
            && c in acknowledged
            && exists g :: g in PrunedGroups(groups, pending) && Mentions(g, c.id)
  {
  }

  ghost predicate Mentions(g: Group, id: ClaimId) {
    g.retired.id == id || exists k :: k in g.carriers && k.id == id
  }

  lemma LeastClosedIsClosed(groups: seq<Group>, pending: seq<Claim>)
    ensures Seeds(groups, pending) <= LeastClosed(groups, pending)
    ensures Closed(groups, LeastClosed(groups, pending))
  {
  }

  /** The elements at the kept indices, in order. */
  function Select(groups: seq<Group>, keep: set<nat>): (r: seq<Group>)
    ensures forall g :: g in r <==> exists i :: i in keep && 0 <= i < |groups| && groups[i] == g
  {
    if groups == [] then [] else
      var last := |groups| - 1;
      var init := Select(groups[..last], keep);
      if last in keep then init + [groups[last]] else init
  }

  function SelectAcks(acknowledged: seq<Claim>, ids: set<ClaimId>): (r: seq<Claim>)
    ensures forall c :: c in r <==> c in acknowledged && c.id in ids
  {
    if acknowledged == [] then [] else
      var last := |acknowledged| - 1;
      assert acknowledged == acknowledged[..last] + [acknowledged[last]];
      var init := SelectAcks(acknowledged[..last], ids);
      if acknowledged[last].id in ids then init + [acknowledged[last]] else init
  }

  ghost function PrunedGroups(groups: seq<Group>, pending: seq<Claim>): seq<Group> {
    Select(groups, LeastClosed(groups, pending))
  }

  ghost function PrunedAcks(groups: seq<Group>, acknowledged: seq<Claim>, pending: seq<Claim>): seq<Claim> {
    SelectAcks(acknowledged, RelatedIds(PrunedGroups(groups, pending)))
  }

  /** What survives, as values: a closed part of the groups that holds every pending retirement. */
  lemma PrunedIsClosed(groups: seq<Group>, pending: seq<Claim>)
    ensures var kept := PrunedGroups(groups, pending);
            && (forall g :: g in kept ==> g in groups)
            && (forall g :: g in groups && g.retired in pending ==> g in kept)
            && (forall g, h :: g in kept && h in groups && h.before in g.carriers ==> h in kept)
  {
  }

  /** Carriers of surviving groups keep their answer, whatever is being visited. */
  lemma {:induction false} PruneKeepsCarriers(c: Claim, groups: seq<Group>, acknowledged: seq<Claim>,
                                              pending: seq<Claim>, current: seq<Claim>, visiting: set<ClaimId>)
    requires exists g :: g in PrunedGroups(groups, pending) && c in g.carriers
    ensures CarrierReady(c, groups, acknowledged, current, visiting) ==
            CarrierReady(c, PrunedGroups(groups, pending), PrunedAcks(groups, acknowledged, pending), current, visiting)
    decreases CarrierIds(groups) - visiting
  {
    var kept, acks := PrunedGroups(groups, pending), PrunedAcks(groups, acknowledged, pending);
    PrunedIsClosed(groups, pending);
    assert c.id in RelatedIds(kept) && c.id in CarrierIds(groups);
    assert Live(c, acknowledged, current) == Live(c, acks, current);
    if c.id !in visiting {
      forall g | g in kept && g.before == c
        ensures Delivers(g, c, groups, acknowledged, current, visiting + {c.id}) ==
                Delivers(g, c, kept, acks, current, visiting + {c.id})
      {
        forall k | k in g.carriers
          ensures CarrierReady(k, groups, acknowledged, current, visiting + {c.id}) ==
                  CarrierReady(k, kept, acks, current, visiting + {c.id})
        {
          PruneKeepsCarriers(k, groups, acknowledged, pending, current, visiting + {c.id});
        }
      }
      assert (exists g :: g in groups && Delivers(g, c, groups, acknowledged, current, visiting + {c.id})) <==>
             (exists g :: g in kept && Delivers(g, c, kept, acks, current, visiting + {c.id}));
    }
  }

  /** Garbage collection never changes whether a pending claim may be delivered. */
  lemma PruneKeepsReady(claim: Claim, groups: seq<Group>, acknowledged: seq<Claim>, pending: seq<Claim>,
                        current: seq<Claim>)
    requires claim in pending
    ensures Ready(claim, groups, acknowledged, current) ==
            Ready(claim, PrunedGroups(groups, pending), PrunedAcks(groups, acknowledged, pending), current)
  {
    PrunedIsClosed(groups, pending);
    var kept := PrunedGroups(groups, pending);
    forall g, k | g in kept && k in g.carriers
      ensures CarrierReady(k, groups, acknowledged, current, {}) ==
              CarrierReady(k, kept, PrunedAcks(groups, acknowledged, pending), current, {})
    {
      PruneKeepsCarriers(k, groups, acknowledged, pending, current, {});
    }
  }

  /** The kept indices all of whose copies among the survivors are kept again. */
  ghost function KeptAgain(groups: seq<Group>, pending: seq<Claim>): set<nat> {
    var kept := PrunedGroups(groups, pending);
    set i | i in LeastClosed(groups, pending) &&
      forall j :: 0 <= j < |kept| && kept[j] == groups[i] ==> j in LeastClosed(kept, pending)
  }

  lemma KeptAgainHoldsSeeds(groups: seq<Group>, pending: seq<Claim>)
    ensures Seeds(groups, pending) <= KeptAgain(groups, pending)
  {
  }

  lemma KeptAgainIsClosed(groups: seq<Group>, pending: seq<Claim>)
    ensures Closed(groups, KeptAgain(groups, pending))
  {
    var least, kept, back := LeastClosed(groups, pending), PrunedGroups(groups, pending), KeptAgain(groups, pending);
    LeastClosedIsClosed(groups, pending);
    LeastClosedIsClosed(kept, pending);
    forall m | m in Successors(groups, back)
      ensures m in back
    {
      var i :| i in back && 0 <= i < |groups| && groups[m].before in groups[i].carriers;
      assert m in Successors(groups, least);
      assert groups[i] in kept;
      var j :| 0 <= j < |kept| && kept[j] == groups[i];
      forall n | 0 <= n < |kept| && kept[n] == groups[m]
        ensures n in LeastClosed(kept, pending)
      {
        assert n in Successors(kept, LeastClosed(kept, pending));
      }
    }
  }

  lemma SurvivorsAreKeptAgain(groups: seq<Group>, pending: seq<Claim>, j: nat)
    requires j < |PrunedGroups(groups, pending)|
    ensures j in LeastClosed(PrunedGroups(groups, pending), pending)
  {
    var kept := PrunedGroups(groups, pending);
    KeptAgainHoldsSeeds(groups, pending);
    KeptAgainIsClosed(groups, pending);
    assert kept[j] in kept;
    var i :| i in LeastClosed(groups, pending) && 0 <= i < |groups| && groups[i] == kept[j];
    assert Needed(i, groups, pending);
    assert i in KeptAgain(groups, pending);
  }

  /** A second collection against the same pending claims finds nothing to remove. */
  lemma PruneTwice(groups: seq<Group>, acknowledged: seq<Claim>, pending: seq<Claim>)
    ensures PrunedGroups(PrunedGroups(groups, pending), pending) == PrunedGroups(groups, pending)
    ensures PrunedAcks(PrunedGroups(groups, pending), PrunedAcks(groups, acknowledged, pending), pending) ==
            PrunedAcks(groups, acknowledged, pending)
  {
    var kept := PrunedGroups(groups, pending);
    forall j | 0 <= j < |kept|
      ensures j in LeastClosed(kept, pending)
    {
      SurvivorsAreKeptAgain(groups, pending, j);
    }
    SelectAll(kept, LeastClosed(kept, pending));
    SelectAcksAll(PrunedAcks(groups, acknowledged, pending), RelatedIds(kept));
  }

  lemma {:induction false} SelectAll(groups: seq<Group>, keep: set<nat>)
    requires forall i :: 0 <= i < |groups| ==> i in keep
    ensures Select(groups, keep) == groups
  {
    if groups != [] {
      SelectAll(groups[..|groups| - 1], keep);
    }
  }

  lemma {:induction false} SelectAcksAll(acknowledged: seq<Claim>, ids: set<ClaimId>)
    requires forall c :: c in acknowledged ==> c.id in ids
    ensures SelectAcks(acknowledged, ids) == acknowledged
  {
    if acknowledged != [] {
      var init, last := acknowledged[..|acknowledged| - 1], acknowledged[|acknowledged| - 1];
      assert acknowledged == init + [last];
      assert last in acknowledged;
      SelectAcksAll(init, ids);
    }
  }

  // ---- The rewrites between queries ----

  /** The claims of other ids, in order. */
  function Others(acknowledged: seq<Claim>, id: ClaimId): seq<Claim> {
    if acknowledged == [] then [] else
      var last := |acknowledged| - 1;
      var init := Others(acknowledged[..last], id);
      if acknowledged[last].id == id then init else init + [acknowledged[last]]
  }

  function Acknowledged(acknowledged: seq<Claim>, claim: Claim): seq<Claim> {
    Others(acknowledged, claim.id) + [claim]
  }

  /** Other ids keep their versions, as often as they were on record. */
  lemma {:induction false} OthersCounted(acknowledged: seq<Claim>, id: ClaimId, c: Claim)
    ensures multiset(Others(acknowledged, id))[c] == if c.id == id then 0 else multiset(acknowledged)[c]
  {
    if acknowledged != [] {
      var last := |acknowledged| - 1;
      assert acknowledged == acknowledged[..last] + [acknowledged[last]];
      OthersCounted(acknowledged[..last], id, c);
    }
  }

  /** And they keep their order. */
  lemma {:induction false} OthersInOrder(acknowledged: seq<Claim>, id: ClaimId, i: nat, j: nat)
    returns (p: nat, q: nat)
    requires i <= j < |Others(acknowledged, id)|
    ensures p <= q < |acknowledged| && (p == q <==> i == j)
    ensures acknowledged[p] == Others(acknowledged, id)[i] && acknowledged[q] == Others(acknowledged, id)[j]
  {
    var last := |acknowledged| - 1;
    var init := acknowledged[..last];
    if j < |Others(init, id)| {
      p, q := OthersInOrder(init, id, i, j);
    } else if i < j {
      p, q := OthersInOrder(init, id, i, i);
      q := last;
    } else {
      p, q := last, last;
    }
  }

  /** Exactly one version of the acknowledged id is on record, and no other id is touched. */
  lemma AcknowledgedHolds(acknowledged: seq<Claim>, claim: Claim, c: Claim)
    ensures c in Acknowledged(acknowledged, claim) <==>
            c == claim || (c in acknowledged && c.id != claim.id)
    ensures multiset(Acknowledged(acknowledged, claim))[c] ==
            if c == claim then 1 else if c.id == claim.id then 0 else multiset(acknowledged)[c]
  {
    OthersCounted(acknowledged, claim.id, c);
    assert c in multiset(Acknowledged(acknowledged, claim)) <==> c in Acknowledged(acknowledged, claim);
    assert c in multiset(acknowledged) <==> c in acknowledged;
  }

  /** A dependency replaces the one its retired claim had, if any. */
  function Staged(groups: seq<Group>, g: Group): (r: seq<Group>)
    ensures forall h :: h in r <==> h == g || (h in groups && h.retired.id != g.retired.id)
  {
    Retiring(groups, g.retired.id) + [g]
  }

  /** The groups that retire other ids, in order. */
  function Retiring(groups: seq<Group>, notId: ClaimId): (r: seq<Group>)
    ensures forall h :: h in r <==> h in groups && h.retired.id != notId
  {
    if groups == [] then [] else
      var last := |groups| - 1;
      assert groups == groups[..last] + [groups[last]];
      var init := Retiring(groups[..last], notId);
      if groups[last].retired.id == notId then init else init + [groups[last]]
  }

  function Superseded(groups: seq<Group>, claim: Claim): (r: seq<Group>)
    ensures claim.status != Deprecated ==> forall g :: g in r <==> g in groups && g.retired.id != claim.id
    ensures claim.status == Deprecated ==> |r| == |groups|
    ensures claim.status == Deprecated ==> forall i :: 0 <= i < |r| ==>
              r[i] == if groups[i].retired.id == claim.id then groups[i].(retired := claim) else groups[i]
  {
    if groups == [] then [] else
      var last := |groups| - 1;
      var g := groups[last];
      assert groups == groups[..last] + [g];
      var init := Superseded(groups[..last], claim);
      if g.retired.id != claim.id then init + [g]
      else if claim.status != Deprecated then init
      else init + [g.(retired := claim)]
  }

  /** A later deprecated version waits for the carriers of every group that retired its id. */
  lemma SupersedeKeepsDependencies(claim: Claim, groups: seq<Group>, acknowledged: seq<Claim>, current: seq<Claim>)
    requires claim.status == Deprecated
    ensures var next := Superseded(groups, claim);
            Ready(claim, next, acknowledged, current) <==>
            forall g :: g in groups && g.retired.id == claim.id ==>
              g.carriers != [] && AllReady(g.carriers, next, acknowledged, current, {})
  {
  }

  /** Reviving a claim withdraws its retirement: no version of it waits for anything. */
  lemma SupersedeWithdraws(claim: Claim, version: Claim, groups: seq<Group>, acknowledged: seq<Claim>,
                           current: seq<Claim>)
    requires claim.status != Deprecated && version.id == claim.id
    ensures Ready(version, Superseded(groups, claim), acknowledged, current)
  {
  }

  // ---- Runs ----

  /** What happens to the queue between the moment a claim becomes ready and its upload. */
  datatype Event = Uploaded(claim: Claim) | Collected(pending: seq<Claim>)

  ghost function Run(groups: seq<Group>, acknowledged: seq<Claim>, events: seq<Event>): (seq<Group>, seq<Claim>)
    decreases |events|
  {
    if events == [] then (groups, acknowledged) else
      match events[0]
      case Uploaded(c) => Run(groups, Acknowledged(acknowledged, c), events[1..])
      case Collected(pending) =>
        Run(PrunedGroups(groups, pending), PrunedAcks(groups, acknowledged, pending), events[1..])
  }

  /** Acknowledging a current version takes nothing away from anyone. */
  lemma {:induction false} AcknowledgeKeepsCarriers(claim: Claim, c: Claim, groups: seq<Group>,
                                                    acknowledged: seq<Claim>, current: seq<Claim>,
                                                    visiting: set<ClaimId>)
    requires UniqueIds(current) && claim in current
    requires CarrierReady(c, groups, acknowledged, current, visiting)
    ensures CarrierReady(c, groups, Acknowledged(acknowledged, claim), current, visiting)
    decreases if c.id in CarrierIds(groups) then 0 else 1, CarrierIds(groups) - visiting
  {
    var acks := Acknowledged(acknowledged, claim);
    if Live(c, acknowledged, current) {
      AcknowledgedHolds(acknowledged, claim, c);
      assert Live(c, acks, current);
    } else {
      var g :| g in groups && Delivers(g, c, groups, acknowledged, current, visiting + {c.id});
      assert Delivers(g, c, groups, acknowledged, current, visiting + {c.id});
      forall k | k in g.carriers
        ensures CarrierReady(k, groups, acks, current, visiting + {c.id})
      {
        AcknowledgeKeepsCarriers(claim, k, groups, acknowledged, current, visiting + {c.id});
      }
    }
  }

  /** Once ready, a claim stays ready through any uploads of current claims and any collections while it is pending. */
  lemma {:induction false} ReadyIsStable(claim: Claim, groups: seq<Group>, acknowledged: seq<Claim>,
                                         current: seq<Claim>, events: seq<Event>)
    requires UniqueIds(current)
    requires forall e :: e in events && e.Uploaded? ==> e.claim in current
    requires forall e :: e in events && e.Collected? ==> claim in e.pending
    requires Ready(claim, groups, acknowledged, current)
    ensures Ready(claim, Run(groups, acknowledged, events).0, Run(groups, acknowledged, events).1, current)
    decreases |events|
  {
    if events != [] {
      assert events[0] in events;
      match events[0]
      case Uploaded(c) =>
        var acks := Acknowledged(acknowledged, c);
        forall g, k | g in groups && g.retired == claim && k in g.carriers
          ensures CarrierReady(k, groups, acks, current, {})
        {
          AcknowledgeKeepsCarriers(c, k, groups, acknowledged, current, {});
        }
        ReadyIsStable(claim, groups, acks, current, events[1..]);
      case Collected(pending) =>
        PruneKeepsReady(claim, groups, acknowledged, pending, current);
        ReadyIsStable(claim, PrunedGroups(groups, pending), PrunedAcks(groups, acknowledged, pending), current,
                      events[1..]);
    }
  }

  // ---- The queue file's two lists, rewritten in place ----

  class DeliveryQueue {
    var groups: seq<Group>
    var acknowledged: seq<Claim>

    constructor (groups: seq<Group>, acknowledged: seq<Claim>)
      ensures this.groups == groups && this.acknowledged == acknowledged
    {
      this.groups, this.acknowledged := groups, acknowledged;
    }

    /** The claim comes last, alone of its id; the other claims keep their number and their order. */
    method Acknowledge(claim: Claim)
      modifies this`acknowledged
      ensures acknowledged == Acknowledged(old(acknowledged), claim)
      ensures forall c :: multiset(acknowledged)[c] ==
                if c == claim then 1 else if c.id == claim.id then 0 else multiset(old(acknowledged))[c]
      ensures acknowledged[|acknowledged| - 1] == claim
    {
      var was := acknowledged;
      var others: seq<Claim> := [];
      for i := 0 to |was|
        invariant others == Others(was[..i], claim.id)
      {
        assert was[..i + 1][..i] == was[..i];
        if was[i].id != claim.id {
          others := others + [was[i]];
        }
      }
      assert was[..|was|] == was;
      acknowledged := others + [claim];
      forall c
        ensures multiset(acknowledged)[c] ==
                if c == claim then 1 else if c.id == claim.id then 0 else multiset(was)[c]
      {
        AcknowledgedHolds(was, claim, c);
      }
    }

    /** Retires a claim into its carriers, or gives a retired one new carriers. */
    method Stage(group: Group)
      modifies this`groups
      ensures groups == Staged(old(groups), group)
      ensures forall h :: h in groups && h.retired.id == group.retired.id <==> h == group
    {
      var rest := RetainOthers(groups, group.retired.id);
      groups := rest + [group];
    }

    method Supersede(claim: Claim)
      modifies this`groups
      ensures groups == Superseded(old(groups), claim)
    {
      var was := groups;
      var next: seq<Group> := [];
      var i := 0;
      while i < |was|
        invariant 0 <= i <= |was|
        invariant next == Superseded(was[..i], claim)
      {
        assert was[..i + 1][..i] == was[..i];
        if was[i].retired.id != claim.id {
          next := next + [was[i]];
        } else if claim.status == Deprecated {
          next := next + [was[i].(retired := claim)];
        }
        i := i + 1;
      }
      assert was[..i] == was;
      groups := next;
    }

    /** Drops every group no pending retirement still leans on, and the acknowledgements that go with them. */
    method Prune(pending: seq<Claim>)
      modifies this
      ensures groups == PrunedGroups(old(groups), pending)
      ensures acknowledged == PrunedAcks(old(groups), old(acknowledged), pending)
      ensures forall g :: g in groups <==> SomehowLeanedOn(g, old(groups), pending)
      ensures forall c :: c in acknowledged <==>
                c in old(acknowledged) && exists g :: g in groups && Mentions(g, c.id)
    {
      var keep := KeptIndices(groups, pending);
      ghost var was, acks := groups, acknowledged;
      groups := Select(groups, keep);
      acknowledged := SelectAcks(acknowledged, RelatedIds(groups));
      forall g
        ensures g in groups <==> SomehowLeanedOn(g, was, pending)
      {
        PrunedExactly(was, pending, g);
      }
      forall c
        ensures c in acknowledged <==> c in acks && exists g :: g in groups && Mentions(g, c.id)
      {
        PrunedAcksExactly(was, acks, pending, c);
      }
    }
  }

  method RetainOthers(groups: seq<Group>, id: ClaimId) returns (rest: seq<Group>)
    ensures rest == Retiring(groups, id)
  {
    rest := [];
    for i := 0 to |groups|
      invariant rest == Retiring(groups[..i], id)
    {
      assert groups[..i + 1][..i] == groups[..i];
      if groups[i].retired.id != id {
        rest := rest + [groups[i]];
      }
    }
    assert groups[..|groups|] == groups;
  }

  /** Passes add what the kept groups lean on until a pass adds nothing. */
  method KeptIndices(groups: seq<Group>, pending: seq<Claim>) returns (keep: set<nat>)
    ensures keep == LeastClosed(groups, pending)
  {
    keep := Seeds(groups, pending);
    ghost var all := set i | 0 <= i < |groups| && groups[i] in groups;
    while !(Successors(groups, keep) <= keep)
      invariant Seeds(groups, pending) <= keep <= all
      invariant keep <= LeastClosed(groups, pending)
      decreases all - keep
    {
      PassStaysWithin(groups, pending, keep);
      keep := keep + Successors(groups, keep);
    }
    ClosedContainsLeast(groups, pending, keep);
  }

  lemma PassStaysWithin(groups: seq<Group>, pending: seq<Claim>, keep: set<nat>)
    requires keep <= LeastClosed(groups, pending)
    ensures Successors(groups, keep) <= LeastClosed(groups, pending)
  {
    LeastClosedIsClosed(groups, pending);
    assert Successors(groups, keep) <= Successors(groups, LeastClosed(groups, pending));
  }

  lemma ClosedContainsLeast(groups: seq<Group>, pending: seq<Claim>, keep: set<nat>)
    requires Seeds(groups, pending) <= keep && Closed(groups, keep)
    ensures LeastClosed(groups, pending) <= keep
  {
  }
}
