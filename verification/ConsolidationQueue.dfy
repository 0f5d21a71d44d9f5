/**
 The dependency groups over the life of the upload queue. Every writer of the queue file keeps one group per
 retired id, so on each queue that can come about the carrier search misses nothing.
 */
module ConsolidationQueue {
  import opened Claims
  import opened ConsolidationDelivery

  datatype Event =
    // A Dream commit stages a retirement; the original is the earlier version of the retired claim.
    | Stages(group: Group)
    // A later review gives a waiting retirement new carriers.
    | Rebinds(previous: Group, carriers: seq<Claim>)
    // A newer version of some claim is staged or found in the local store.
    | Overtakes(claim: Claim)
    // A withdrawn policy deprecated these claims outright.
    | Withdraws(ids: set<ClaimId>)
    // An upload attempt ends, or a withdrawal is complete.
    | Collects(pending: seq<Claim>)

  predicate Possible(groups: seq<Group>, e: Event) {
    match e
    case Stages(g) => g.before.id == g.retired.id
    case Rebinds(previous, _) => previous in groups
    case _ => true
  }

  function NotRetiring(groups: seq<Group>, ids: set<ClaimId>): (r: seq<Group>)
    ensures forall g :: g in r <==> g in groups && g.retired.id !in ids
  {
    if groups == [] then [] else
      var last := |groups| - 1;
      assert groups == groups[..last] + [groups[last]];
      var init := NotRetiring(groups[..last], ids);
      if groups[last].retired.id in ids then init else init + [groups[last]]
  }

  ghost function Next(groups: seq<Group>, e: Event): seq<Group> {
    match e
    case Stages(g) => Staged(groups, g)
    case Rebinds(previous, carriers) => Staged(groups, previous.(carriers := carriers))
    case Overtakes(claim) => Superseded(groups, claim)
    case Withdraws(ids) => NotRetiring(groups, ids)
    case Collects(pending) => PrunedGroups(groups, pending)
  }

  ghost predicate PossibleRun(groups: seq<Group>, events: seq<Event>)
    decreases |events|
  {
    events == [] || (Possible(groups, events[0]) && PossibleRun(Next(groups, events[0]), events[1..]))
  }

  ghost function After(groups: seq<Group>, events: seq<Event>): seq<Group>
    decreases |events|
  {
    if events == [] then groups else After(Next(groups, events[0]), events[1..])
  }

  /** A group retires a version of its own original, and no id is retired by two groups. */
  ghost predicate Inv(groups: seq<Group>) {
    && (forall g :: g in groups ==> g.before.id == g.retired.id)
    && (forall g, h :: g in groups && h in groups && g.retired.id == h.retired.id ==> g == h)
  }

  lemma OvertakenKeepsInv(groups: seq<Group>, claim: Claim)
    requires Inv(groups)
    ensures Inv(Superseded(groups, claim))
  {
    var next := Superseded(groups, claim);
    if claim.status == Deprecated {
      forall g | g in next
        ensures exists h :: h in groups && h.retired.id == g.retired.id &&
                  g == if h.retired.id == claim.id then h.(retired := claim) else h
      {
        var i :| 0 <= i < |next| && next[i] == g;
        assert groups[i] in groups;
      }
    }
  }

  lemma StepKeepsInv(groups: seq<Group>, e: Event)
    requires Inv(groups) && Possible(groups, e)
    ensures Inv(Next(groups, e))
  {
    match e
    case Overtakes(claim) => OvertakenKeepsInv(groups, claim);
    case Collects(pending) => PrunedIsClosed(groups, pending);
    case _ =>
  }

  lemma {:induction false} RunKeepsInv(groups: seq<Group>, events: seq<Event>)
    requires Inv(groups) && PossibleRun(groups, events)
    ensures Inv(After(groups, events))
    decreases |events|
  {
    if events != [] {
      StepKeepsInv(groups, events[0]);
      RunKeepsInv(Next(groups, events[0]), events[1..]);
    }
  }

  /** On every queue that can come about the search computes the least fixed point. */
  lemma SearchIsCompleteOnQueues(events: seq<Event>, c: Claim, acknowledged: seq<Claim>, current: seq<Claim>)
    requires PossibleRun([], events)
    ensures CarrierReady(c, After([], events), acknowledged, current, {}) <==>
            exists d :: Derives(d, c, After([], events), acknowledged, current)
  {
    RunKeepsInv([], events);
    CarrierReadyIsLeastFixedPoint(c, After([], events), acknowledged, current);
  }

  /** So a queued claim is delivered exactly when each group that retires it has carriers, all of them derivable. */
  lemma ReadyOnQueues(events: seq<Event>, claim: Claim, acknowledged: seq<Claim>, current: seq<Claim>)
    requires PossibleRun([], events)
    ensures var groups := After([], events);
            Ready(claim, groups, acknowledged, current) <==>
            forall g :: g in groups && g.retired == claim ==>
              g.carriers != [] &&
              forall k :: k in g.carriers ==> exists d :: Derives(d, k, groups, acknowledged, current)
  {
    var groups := After([], events);
    forall k
      ensures CarrierReady(k, groups, acknowledged, current, {}) <==>
              exists d :: Derives(d, k, groups, acknowledged, current)
    {
      SearchIsCompleteOnQueues(events, k, acknowledged, current);
    }
  }
}
