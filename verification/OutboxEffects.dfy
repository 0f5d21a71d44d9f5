/** What the Maintainer's operations write, field by field. */
module OutboxEffects {
  import opened Claims
  import opened Sequences
  import opened Outbox
  import opened OutboxRuns

  // ---- Announcing ----

  /** An entry as it is first written: unmarked, carrying the policy as it stands. */
  ghost predicate FreshEntry(e: Entry, id: InboxId, p: Policy, now: Instant) {
    && e.inboxId == id && e.createdAt == now && e.offered == [] && e.delivered == []
    && e.message.id == id && e.message.policy == p && e.message.kind == p.messageType && e.message.handledAt == None
  }

  ghost predicate IsNew(before: map<InboxId, Entry>, after: map<InboxId, Entry>, id: InboxId) {
    id in after && id !in before
  }

  /** One entry for everyone where no recipients are named; otherwise one for each of them and for no one else. */
  ghost predicate Addressed(before: map<InboxId, Entry>, after: map<InboxId, Entry>, p: Policy) {
    && AddressedOnce(before, after)
    && match p.targetAgents
       case None =>
         && (exists k :: IsNew(before, after, k))
         && (forall k :: IsNew(before, after, k) ==> after[k].target == Broadcast)
       case Some(agents) =>
         && (forall a :: a in agents ==> exists k :: IsNew(before, after, k) && after[k].target == Targeted(a))
         && (forall k :: IsNew(before, after, k) ==> after[k].target.Targeted? && after[k].target.agent in agents)
  }

  ghost predicate AddressedOnce(before: map<InboxId, Entry>, after: map<InboxId, Entry>) {
    forall j, k :: IsNew(before, after, j) && IsNew(before, after, k) && after[j].target == after[k].target ==> j == k
  }

  /** Old entries stay as they are; the new ones carry the policy under one action that no entry had. */
  ghost predicate Announces(before: map<InboxId, Entry>, after: map<InboxId, Entry>, p: Policy, now: Instant) {
    && (forall k :: k in before ==> k in after && after[k] == before[k])
    && (forall k :: IsNew(before, after, k) ==> FreshEntry(after[k], k, p, now))
    && (forall j, k :: IsNew(before, after, j) && IsNew(before, after, k) ==> after[j].action == after[k].action)
    && (forall j, k :: IsNew(before, after, j) && k in before ==> after[j].action != before[k].action)
    && Addressed(before, after, p)
  }

  /** Same recipients, none twice, and nobody in particular instead of nobody at all. */
  ghost predicate Recipients(named: Option<seq<AgentId>>, r: Option<seq<AgentId>>) {
    && (r.Some? ==> r.value != [] && NoDuplicates(r.value))
    && forall a :: (named.Some? && a in named.value) <==> (r.Some? && a in r.value)
  }

  lemma NewAt(outbox: map<InboxId, Entry>, p: Policy, action: ActionId, now: Instant, ids: seq<InboxId>, id: InboxId)
    returns (i: nat)
    requires |ids| == |TargetsOf(p)| && FreshIds(outbox, ids)
    requires IsNew(outbox, WithEntries(outbox, p, action, now, ids), id)
    ensures i < |ids| && ids[i] == id
    ensures WithEntries(outbox, p, action, now, ids)[id] == NewEntry(p, action, now, TargetsOf(p)[i], id)
  {
    EntryElsewhere(outbox, p, action, now, ids, id);
    i :| 0 <= i < |ids| && ids[i] == id;
    EntryAt(outbox, p, action, now, ids, i);
  }

  lemma AnnouncingWrites(outbox: map<InboxId, Entry>, p: Policy, action: ActionId, now: Instant, ids: seq<InboxId>)
    requires |ids| == |TargetsOf(p)| && FreshIds(outbox, ids) && FreshAction(outbox, action) && Normalized(p)
    ensures Announces(outbox, WithEntries(outbox, p, action, now, ids), p, now)
  {
    var after := WithEntries(outbox, p, action, now, ids);
    forall k | k in outbox
      ensures k in after && after[k] == outbox[k]
    {
      EntryElsewhere(outbox, p, action, now, ids, k);
    }
    forall k | IsNew(outbox, after, k)
      ensures FreshEntry(after[k], k, p, now) && after[k].action == action
    {
      var i := NewAt(outbox, p, action, now, ids, k);
    }
    AddressesEach(outbox, p, action, now, ids);
  }

  lemma AddressesOnce(outbox: map<InboxId, Entry>, p: Policy, action: ActionId, now: Instant, ids: seq<InboxId>)
    requires |ids| == |TargetsOf(p)| && FreshIds(outbox, ids) && Normalized(p)
    ensures AddressedOnce(outbox, WithEntries(outbox, p, action, now, ids))
  {
    var after := WithEntries(outbox, p, action, now, ids);
    forall j, k | IsNew(outbox, after, j) && IsNew(outbox, after, k) && after[j].target == after[k].target
      ensures j == k
    {
      var i := NewAt(outbox, p, action, now, ids, j);
      var m := NewAt(outbox, p, action, now, ids, k);
      TargetsDiffer(p, i, m);
    }
  }

  lemma AddressesTargets(outbox: map<InboxId, Entry>, p: Policy, action: ActionId, now: Instant, ids: seq<InboxId>)
    requires |ids| == |TargetsOf(p)| && FreshIds(outbox, ids)
    ensures var after := WithEntries(outbox, p, action, now, ids);
            && (forall i :: 0 <= i < |ids| ==>
                  IsNew(outbox, after, ids[i]) && after[ids[i]].target == TargetsOf(p)[i])
            && (forall k :: IsNew(outbox, after, k) ==> after[k].target in TargetsOf(p))
  {
    var after := WithEntries(outbox, p, action, now, ids);
    forall i | 0 <= i < |ids|
      ensures IsNew(outbox, after, ids[i]) && after[ids[i]].target == TargetsOf(p)[i]
    {
      EntryAt(outbox, p, action, now, ids, i);
      assert ids[i] in ids;
    }
    forall k | IsNew(outbox, after, k)
      ensures after[k].target in TargetsOf(p)
    {
      var i := NewAt(outbox, p, action, now, ids, k);
    }
  }

  lemma AddressesEach(outbox: map<InboxId, Entry>, p: Policy, action: ActionId, now: Instant, ids: seq<InboxId>)
    requires |ids| == |TargetsOf(p)| && FreshIds(outbox, ids) && Normalized(p)
    ensures Addressed(outbox, WithEntries(outbox, p, action, now, ids), p)
  {
    var after := WithEntries(outbox, p, action, now, ids);
    AddressesOnce(outbox, p, action, now, ids);
    AddressesTargets(outbox, p, action, now, ids);
    match p.targetAgents
    case None => assert IsNew(outbox, after, ids[0]);
    case Some(agents) =>
      forall a | a in agents
        ensures exists k :: IsNew(outbox, after, k) && after[k].target == Targeted(a)
      {
        var i :| 0 <= i < |agents| && agents[i] == a;
        assert IsNew(outbox, after, ids[i]) && after[ids[i]].target == Targeted(a);
      }
  }

  lemma TargetsDiffer(p: Policy, i: nat, j: nat)
    requires Normalized(p) && i < |TargetsOf(p)| && j < |TargetsOf(p)| && TargetsOf(p)[i] == TargetsOf(p)[j]
    ensures i == j
  {
    if p.targetAgents.Some? {
      assert p.targetAgents.value[i] == p.targetAgents.value[j];
    }
  }

  // ---- Pulling ----

  ghost predicate HasOffer(e: Entry, a: AgentId) {
    exists i :: 0 <= i < |e.offered| && e.offered[i].agent == a
  }

  ghost predicate HasReceipt(e: Entry, a: AgentId) {
    exists i :: 0 <= i < |e.delivered| && e.delivered[i].agent == a
  }

  /** Who is served an entry, as long as it has not been confirmed. */
  ghost predicate Served(l: Ledger, id: InboxId, a: AgentId) {
    id in l.outbox &&
    var e := l.outbox[id];
    var p := e.message.policy;
    !HasReceipt(e, a) &&
    match e.target
    case Targeted(t) => t == a
    case Broadcast =>
      match p.status
      case InForce => (p.id in l.policies && l.policies[p.id].status == InForce) || HasOffer(e, a)
      case Withdrawn =>
        exists k :: k in l.outbox && l.outbox[k].message.policy.id == p.id &&
          (HasOffer(l.outbox[k], a) || HasReceipt(l.outbox[k], a))
  }

  lemma MarksAreMembers(e: Entry, a: AgentId)
    ensures e.OfferedTo(a) <==> HasOffer(e, a)
    ensures e.DeliveredTo(a) <==> HasReceipt(e, a)
  {
    if m :| m in e.offered && m.agent == a {
      var i :| 0 <= i < |e.offered| && e.offered[i] == m;
    }
    if m :| m in e.delivered && m.agent == a {
      var i :| 0 <= i < |e.delivered| && e.delivered[i] == m;
    }
  }

  lemma EligibleIsServed(l: Ledger, id: InboxId, a: AgentId)
    requires id in l.outbox
    ensures Eligible(l, id, a) <==> Served(l, id, a)
  {
    MarksAreMembers(l.outbox[id], a);
    SeenIsMarked(l, l.outbox[id].message.policy.id, a);
  }

  lemma SeenIsMarked(l: Ledger, p: PolicyId, a: AgentId)
    ensures Seen(l, p, a) <==> exists k :: k in l.outbox && l.outbox[k].message.policy.id == p &&
                                 (HasOffer(l.outbox[k], a) || HasReceipt(l.outbox[k], a))
  {
    forall k | k in l.outbox
      ensures l.outbox[k].Marked(a) <==> HasOffer(l.outbox[k], a) || HasReceipt(l.outbox[k], a)
    {
      MarksAreMembers(l.outbox[k], a);
    }
  }

  /** A policy's event is its last update, and before any update its creation. */
  function EventTime(p: Policy): Instant {
    if p.updatedAt.Some? then p.updatedAt.value else p.createdAt
  }

  /** Earlier events are served first, then older entries, then lesser ids. */
  ghost predicate ServedBefore(e: Entry, f: Entry) {
    var s, t := EventTime(e.message.policy), EventTime(f.message.policy);
    s < t || (s == t && (e.createdAt < f.createdAt || (e.createdAt == f.createdAt && e.inboxId < f.inboxId)))
  }

  /** What one offer makes of the marks: the agent's first mark is refreshed, or a first mark is set. */
  ghost predicate Offered(marks: seq<OfferedMark>, a: AgentId, now: Instant, r: seq<OfferedMark>) {
    if forall i :: 0 <= i < |marks| ==> marks[i].agent != a then r == marks + [OfferedMark(a, now, now, 1)]
    else exists i :: 0 <= i < |marks| && RefreshedAt(marks, a, now, r, i)
  }

  ghost predicate RefreshedAt(marks: seq<OfferedMark>, a: AgentId, now: Instant, r: seq<OfferedMark>, i: nat) {
    && i < |marks| && marks[i].agent == a && (forall j :: 0 <= j < i ==> marks[j].agent != a)
    && |r| == |marks| && (forall j :: 0 <= j < |marks| && j != i ==> r[j] == marks[j])
    && r[i].agent == a && r[i].first == marks[i].first && r[i].last == now
    && r[i].attempts == if marks[i].attempts < 0xFFFF_FFFF_FFFF_FFFF then marks[i].attempts + 1 else marks[i].attempts
  }

  lemma {:induction false} FirstOffer(marks: seq<OfferedMark>, a: AgentId, now: Instant)
    requires forall i :: 0 <= i < |marks| ==> marks[i].agent != a
    ensures Offer(marks, a, now) == marks + [OfferedMark(a, now, now, 1)]
  {
    if marks != [] {
      FirstOffer(marks[1..], a, now);
      assert marks == [marks[0]] + marks[1..];
    }
  }

  lemma {:induction false} RepeatedOffer(marks: seq<OfferedMark>, a: AgentId, now: Instant, k: nat) returns (i: nat)
    requires k < |marks| && marks[k].agent == a
    ensures RefreshedAt(marks, a, now, Offer(marks, a, now), i)
  {
    if marks[0].agent == a {
      i := 0;
    } else {
      i := RepeatedOffer(marks[1..], a, now, k - 1);
      assert Offer(marks, a, now) == [marks[0]] + Offer(marks[1..], a, now);
      assert marks == [marks[0]] + marks[1..];
      RefreshedBehind(marks[0], marks[1..], a, now, Offer(marks[1..], a, now), i);
      i := i + 1;
    }
  }

  lemma RefreshedBehind(m: OfferedMark, marks: seq<OfferedMark>, a: AgentId, now: Instant, r: seq<OfferedMark>, i: nat)
    requires m.agent != a && RefreshedAt(marks, a, now, r, i)
    ensures RefreshedAt([m] + marks, a, now, [m] + r, i + 1)
  {
  }

  lemma OfferMarks(marks: seq<OfferedMark>, a: AgentId, now: Instant)
    ensures Offered(marks, a, now, Offer(marks, a, now))
  {
    if k :| 0 <= k < |marks| && marks[k].agent == a {
      var i := RepeatedOffer(marks, a, now, k);
    } else {
      FirstOffer(marks, a, now);
    }
  }

  /** A pull marks each entry it serves once, and no other. */
  lemma {:induction false} OffersOnce(outbox: map<InboxId, Entry>, order: seq<InboxId>, a: AgentId, now: Instant,
                                      id: InboxId)
    requires NoDuplicates(order) && (forall k :: k in order ==> k in outbox) && id in outbox
    ensures var r := WithOffers(outbox, order, a, now);
            && (id in order ==> r[id] == outbox[id].(offered := Offer(outbox[id].offered, a, now)))
            && (id !in order ==> r[id] == outbox[id])
    decreases |order|
  {
    if order != [] {
      var init, last := order[..|order| - 1], order[|order| - 1];
      assert order == init + [last];
      OffersOnce(outbox, init, a, now, id);
    }
  }

  /** What a pull serves, in which order, and how it marks that. */
  lemma PullingServes(l: Ledger, a: AgentId, order: seq<InboxId>, now: Instant)
    requires PullOrder(l, a, order)
    ensures forall id :: id in order ==> id in l.outbox
    ensures forall id :: id in order <==> Served(l, id, a)
    ensures forall i, j :: 0 <= i < j < |order| ==>
              order[i] in l.outbox && order[j] in l.outbox && ServedBefore(l.outbox[order[i]], l.outbox[order[j]])
    ensures var r := WithOffers(l.outbox, order, a, now);
            && (forall id :: id in l.outbox && id !in order ==> r[id] == l.outbox[id])
            && (forall id :: id in order ==> Offered(l.outbox[id].offered, a, now, r[id].offered))
            && (forall id :: id in order ==> r[id] == l.outbox[id].(offered := r[id].offered))
  {
    forall id | id in l.outbox
      ensures id in order <==> Served(l, id, a)
    {
      EligibleIsServed(l, id, a);
    }
    forall i, j | 0 <= i < j < |order|
      ensures order[i] in l.outbox && order[j] in l.outbox && ServedBefore(l.outbox[order[i]], l.outbox[order[j]])
      ensures order[i] != order[j]
    {
      assert order[i] in order && order[j] in order;
      assert Earlier(l.outbox[order[i]], l.outbox[order[j]]);
    }
    forall id | id in order
      ensures Offered(l.outbox[id].offered, a, now, WithOffers(l.outbox, order, a, now)[id].offered)
      ensures WithOffers(l.outbox, order, a, now)[id] ==
              l.outbox[id].(offered := WithOffers(l.outbox, order, a, now)[id].offered)
    {
      OffersOnce(l.outbox, order, a, now, id);
      OfferMarks(l.outbox[id].offered, a, now);
    }
  }

  // ---- Acknowledging ----

  /** A first receipt is appended with its time; a later one changes nothing. */
  ghost predicate Received(e: Entry, a: AgentId, now: Instant, r: Entry) {
    r == if HasReceipt(e, a) then e else e.(delivered := e.delivered + [DeliveredMark(a, now)])
  }

  lemma {:induction false} ReceiptsOnce(outbox: map<InboxId, Entry>, ids: seq<InboxId>, a: AgentId, now: Instant,
                                        id: InboxId)
    requires (forall k :: k in ids ==> k in outbox) && id in outbox
    ensures var r := WithReceipts(outbox, ids, a, now);
            if id in ids then Received(outbox[id], a, now, r[id]) else r[id] == outbox[id]
    decreases |ids|
  {
    MarksAreMembers(outbox[id], a);
    if ids != [] {
      var init, last := ids[..|ids| - 1], ids[|ids| - 1];
      assert ids == init + [last];
      ReceiptsOnce(outbox, init, a, now, id);
    }
  }

  /** Why an id is refused: it is unknown, meant for another agent, or was neither offered nor confirmed. */
  lemma RefusalIs(l: Ledger, a: AgentId, id: InboxId)
    ensures CheckAck(l, a, id) == Some(UnknownInbox(id)) <==> id !in l.outbox
    ensures CheckAck(l, a, id) == Some(TargetMismatch(id)) <==>
            id in l.outbox && l.outbox[id].target.Targeted? && l.outbox[id].target.agent != a
    ensures CheckAck(l, a, id) == Some(NotOffered(id)) <==>
            && id in l.outbox && (l.outbox[id].target.Targeted? ==> l.outbox[id].target.agent == a)
            && !HasOffer(l.outbox[id], a) && !HasReceipt(l.outbox[id], a)
  {
    if id in l.outbox {
      MarksAreMembers(l.outbox[id], a);
    }
  }

  ghost predicate RefusedFirstAt(l: Ledger, a: AgentId, ids: seq<InboxId>, i: nat) {
    && i < |ids| && CheckAck(l, a, ids[i]).Some? && FirstAckError(l, a, ids) == CheckAck(l, a, ids[i])
    && forall j :: 0 <= j < i ==> CheckAck(l, a, ids[j]) == None
  }

  /** The first refused id decides. */
  lemma {:induction false} FirstRefusal(l: Ledger, a: AgentId, ids: seq<InboxId>) returns (i: nat)
    requires FirstAckError(l, a, ids).Some?
    ensures RefusedFirstAt(l, a, ids, i)
  {
    if CheckAck(l, a, ids[0]).Some? {
      i := 0;
    } else {
      i := FirstRefusal(l, a, ids[1..]);
      i := i + 1;
    }
  }
}
