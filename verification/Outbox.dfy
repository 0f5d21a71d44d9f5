/**
 The Maintainer's policies and its outbox ledger: publish, deprecate, pull and acknowledge.
 A ledger entry is one inbox message for one agent or for everyone; it keeps the marks of the
 agents it was offered to and of those that confirmed durable receipt.
 */
module Outbox {
  import opened Claims
  import opened Sequences

  type InboxId = nat
  type ActionId = nat

  const MAX_ATTEMPTS: nat := 0xFFFF_FFFF_FFFF_FFFF

  datatype PolicyStatus = InForce | Withdrawn

  datatype MessageType = PolicyUpdate | ClaimAttributeUpdate

  datatype Policy = Policy(
    id: PolicyId,
    messageType: MessageType,
    name: string,
    statement: string,
    scope: string,
    status: PolicyStatus,
    createdAt: Instant,
    updatedAt: Option<Instant>,
    targetAgents: Option<seq<AgentId>>)

  datatype InboxMessage = InboxMessage(id: InboxId, kind: MessageType, policy: Policy, handledAt: Option<Instant>)
  {
    function EventAt(): Instant {
      match policy.updatedAt
      case Some(t) => t
      case None => policy.createdAt
    }
  }

  datatype Target = Broadcast | Targeted(agent: AgentId)

  datatype OfferedMark = OfferedMark(agent: AgentId, first: Instant, last: Instant, attempts: nat)

  datatype DeliveredMark = DeliveredMark(agent: AgentId, sentAt: Instant)

  function OfferedAgents(marks: seq<OfferedMark>): set<AgentId> {
    set m | m in marks :: m.agent
  }

  function DeliveredAgents(marks: seq<DeliveredMark>): set<AgentId> {
    set m | m in marks :: m.agent
  }

  datatype Entry = Entry(
    inboxId: InboxId,
    action: ActionId,
    target: Target,
    createdAt: Instant,
    offered: seq<OfferedMark>,
    delivered: seq<DeliveredMark>,
    message: InboxMessage)
  {
    predicate OfferedTo(a: AgentId) {
      a in OfferedAgents(offered)
    }

    predicate DeliveredTo(a: AgentId) {
      a in DeliveredAgents(delivered)
    }

    predicate Marked(a: AgentId) {
      OfferedTo(a) || DeliveredTo(a)
    }

    /** Everything an entry never changes after it was written. */
    predicate SamePayload(other: Entry) {
      inboxId == other.inboxId && action == other.action && target == other.target &&
      createdAt == other.createdAt && message == other.message
    }
  }

  datatype Ledger = Ledger(policies: map<PolicyId, Policy>, outbox: map<InboxId, Entry>)

  // ---- Publishing and deprecating ----

  /** Duplicates are dropped; an empty list means everyone. */
  function NormalizeTargets(agents: Option<seq<AgentId>>): (r: Option<seq<AgentId>>)
    ensures r.Some? ==> r.value != [] && NoDuplicates(r.value)
    ensures forall a :: (agents.Some? && a in agents.value) <==> (r.Some? && a in r.value)
  {
    var unique := Distinct(if agents.Some? then agents.value else []);
    if unique == [] then None else Some(unique)
  }

  function TargetsOf(policy: Policy): seq<Target> {
    if policy.targetAgents.Some? && policy.targetAgents.value != [] then
      var agents := policy.targetAgents.value;
      seq(|agents|, i requires 0 <= i < |agents| => Targeted(agents[i]))
    else [Broadcast]
  }

  function NewEntry(policy: Policy, action: ActionId, now: Instant, target: Target, id: InboxId): Entry {
    Entry(id, action, target, now, [], [], InboxMessage(id, policy.messageType, policy, None))
  }

  /** The ledger after the entries for the first |ids| targets were written, in order. */
  function WithEntries(outbox: map<InboxId, Entry>, policy: Policy, action: ActionId, now: Instant,
                       ids: seq<InboxId>): map<InboxId, Entry>
    requires |ids| <= |TargetsOf(policy)|
  {
    if ids == [] then outbox else
      var last := |ids| - 1;
      WithEntries(outbox, policy, action, now, ids[..last])
        [ids[last] := NewEntry(policy, action, now, TargetsOf(policy)[last], ids[last])]
  }

  /** A minted batch of inbox ids: unused, and no id twice. */
  ghost predicate FreshIds(outbox: map<InboxId, Entry>, ids: seq<InboxId>) {
    NoDuplicates(ids) && forall id :: id in ids ==> id !in outbox
  }

  ghost predicate FreshAction(outbox: map<InboxId, Entry>, action: ActionId) {
    forall id :: id in outbox ==> outbox[id].action != action
  }

  lemma WithEntriesAt(outbox: map<InboxId, Entry>, policy: Policy, action: ActionId, now: Instant, ids: seq<InboxId>)
    requires |ids| <= |TargetsOf(policy)| && NoDuplicates(ids)
    ensures var next := WithEntries(outbox, policy, action, now, ids);
            && (forall id :: id in next <==> id in outbox || id in ids)
            && (forall id :: id in outbox && id !in ids ==> next[id] == outbox[id])
            && (forall i :: 0 <= i < |ids| ==>
                  ids[i] in next && next[ids[i]] == NewEntry(policy, action, now, TargetsOf(policy)[i], ids[i]))
  {
    forall id
      ensures id in WithEntries(outbox, policy, action, now, ids) <==> id in outbox || id in ids
      ensures id in outbox && id !in ids ==> WithEntries(outbox, policy, action, now, ids)[id] == outbox[id]
    {
      EntryElsewhere(outbox, policy, action, now, ids, id);
    }
    forall i | 0 <= i < |ids|
      ensures ids[i] in WithEntries(outbox, policy, action, now, ids)
      ensures WithEntries(outbox, policy, action, now, ids)[ids[i]] ==
              NewEntry(policy, action, now, TargetsOf(policy)[i], ids[i])
    {
      EntryAt(outbox, policy, action, now, ids, i);
    }
  }

  lemma {:induction false} EntryElsewhere(outbox: map<InboxId, Entry>, policy: Policy, action: ActionId, now: Instant,
                                          ids: seq<InboxId>, id: InboxId)
    requires |ids| <= |TargetsOf(policy)|
    ensures id in WithEntries(outbox, policy, action, now, ids) <==> id in outbox || id in ids
    ensures id in outbox && id !in ids ==> WithEntries(outbox, policy, action, now, ids)[id] == outbox[id]
  {
    if ids != [] {
      var init, last := ids[..|ids| - 1], ids[|ids| - 1];
      assert ids == init + [last];
      EntryElsewhere(outbox, policy, action, now, init, id);
    }
  }

  lemma {:induction false} EntryAt(outbox: map<InboxId, Entry>, policy: Policy, action: ActionId, now: Instant,
                                   ids: seq<InboxId>, i: nat)
    requires |ids| <= |TargetsOf(policy)| && NoDuplicates(ids) && i < |ids|
    ensures ids[i] in WithEntries(outbox, policy, action, now, ids)
    ensures WithEntries(outbox, policy, action, now, ids)[ids[i]] ==
            NewEntry(policy, action, now, TargetsOf(policy)[i], ids[i])
  {
    if i < |ids| - 1 {
      EntryAt(outbox, policy, action, now, ids[..|ids| - 1], i);
    }
  }

  lemma WithEntriesNext(outbox: map<InboxId, Entry>, policy: Policy, action: ActionId, now: Instant,
                        ids: seq<InboxId>, id: InboxId)
    requires |ids| < |TargetsOf(policy)|
    ensures var entry := NewEntry(policy, action, now, TargetsOf(policy)[|ids|], id);
            WithEntries(outbox, policy, action, now, ids + [id]) ==
            WithEntries(outbox, policy, action, now, ids)[id := entry]
  {
    assert (ids + [id])[..|ids|] == ids;
  }

  lemma FreshIdsNext(outbox: map<InboxId, Entry>, ids: seq<InboxId>, id: InboxId)
    requires FreshIds(outbox, ids) && id !in outbox && id !in ids
    ensures FreshIds(outbox, ids + [id])
  {
  }

  function Draft(id: PolicyId, messageType: MessageType, name: string, statement: string, scope: string,
                 now: Instant, agents: Option<seq<AgentId>>): Policy
  {
    Policy(id, messageType, name, statement, scope, InForce, now, None, NormalizeTargets(agents))
  }

  function Retired(policy: Policy, now: Instant): Policy {
    policy.(status := Withdrawn, updatedAt := Some(now), targetAgents := NormalizeTargets(policy.targetAgents))
  }

  /** The policy file is rewritten first, then one entry per target. */
  function Announced(l: Ledger, policy: Policy, action: ActionId, now: Instant, ids: seq<InboxId>): Ledger
    requires |ids| <= |TargetsOf(policy)|
  {
    Ledger(l.policies[policy.id := policy], WithEntries(l.outbox, policy, action, now, ids))
  }

  // ---- Pulling ----

  predicate InForcePolicy(l: Ledger, p: PolicyId) {
    p in l.policies && l.policies[p].status == InForce
  }

  /** Some entry about policy `p` carries a mark of `a`. */
  predicate Seen(l: Ledger, p: PolicyId, a: AgentId) {
    exists id :: id in l.outbox && l.outbox[id].message.policy.id == p && l.outbox[id].Marked(a)
  }

  predicate Eligible(l: Ledger, id: InboxId, a: AgentId)
    requires id in l.outbox
  {
    var e := l.outbox[id];
    !e.DeliveredTo(a) &&
    match e.target
    case Targeted(t) => t == a
    case Broadcast =>
      if e.message.policy.status == Withdrawn then Seen(l, e.message.policy.id, a)
      else InForcePolicy(l, e.message.policy.id) || e.OfferedTo(a)
  }

  /** Event time, then creation time, then id. */
  predicate Earlier(e: Entry, f: Entry) {
    e.message.EventAt() < f.message.EventAt() ||
    (e.message.EventAt() == f.message.EventAt() &&
     (e.createdAt < f.createdAt || (e.createdAt == f.createdAt && e.inboxId < f.inboxId)))
  }

  ghost predicate Ordered(outbox: map<InboxId, Entry>, order: seq<InboxId>) {
    (forall id :: id in order ==> id in outbox && outbox[id].inboxId == id) &&
    forall i, j :: 0 <= i < j < |order| ==> Earlier(outbox[order[i]], outbox[order[j]])
  }

  /** The ids one pull of `a` serves, in serving order. */
  ghost predicate PullOrder(l: Ledger, a: AgentId, order: seq<InboxId>) {
    Ordered(l.outbox, order) &&
    forall id :: id in order <==> id in l.outbox && Eligible(l, id, a)
  }

  /** The serving order is a function of the ledger. */
  lemma {:induction false} OrderIsUnique(outbox: map<InboxId, Entry>, xs: seq<InboxId>, ys: seq<InboxId>)
    requires Ordered(outbox, xs) && Ordered(outbox, ys)
    requires forall id :: id in xs <==> id in ys
    ensures xs == ys
  {
    HasMember(xs);
    HasMember(ys);
    if xs != [] && ys != [] {
      assert xs[0] in xs && xs[0] in ys;
      assert ys[0] in ys && ys[0] in xs;
      var i :| 0 <= i < |ys| && ys[i] == xs[0];
      var j :| 0 <= j < |xs| && xs[j] == ys[0];
      assert i == 0;
      forall id
        ensures id in xs[1..] <==> id in ys[1..]
      {
        InTail(outbox, xs, id);
        InTail(outbox, ys, id);
      }
      OrderIsUnique(outbox, xs[1..], ys[1..]);
    }
  }

  lemma HasMember(xs: seq<InboxId>)
    ensures xs != [] ==> exists id :: id in xs
  {
    if xs != [] {
      assert xs[0] in xs;
    }
  }

  lemma InTail(outbox: map<InboxId, Entry>, xs: seq<InboxId>, id: InboxId)
    requires xs != [] && Ordered(outbox, xs)
    ensures id in xs[1..] <==> id in xs && id != xs[0]
  {
  }

  /** The first mark of the agent is refreshed; without one, a mark is appended. */
  function Offer(marks: seq<OfferedMark>, a: AgentId, now: Instant): (r: seq<OfferedMark>)
    ensures OfferedAgents(r) == OfferedAgents(marks) + {a}
  {
    if marks == [] then [OfferedMark(a, now, now, 1)] else
      var m := marks[0];
      assert marks == [m] + marks[1..];
      assert OfferedAgents(marks) == {m.agent} + OfferedAgents(marks[1..]);
      var next := if m.agent == a
                  then [m.(last := now, attempts := if m.attempts < MAX_ATTEMPTS then m.attempts + 1 else m.attempts)] +
                       marks[1..]
                  else [m] + Offer(marks[1..], a, now);
      assert OfferedAgents(next) == {next[0].agent} + OfferedAgents(next[1..]);
      next
  }

  function RecordOffered(outbox: map<InboxId, Entry>, id: InboxId, a: AgentId, now: Instant): (r: map<InboxId, Entry>)
    requires id in outbox
    ensures r.Keys == outbox.Keys && r[id].SamePayload(outbox[id]) && r[id].delivered == outbox[id].delivered
    ensures OfferedAgents(r[id].offered) == OfferedAgents(outbox[id].offered) + {a}
    ensures forall k :: k in outbox && k != id ==> r[k] == outbox[k]
  {
    outbox[id := outbox[id].(offered := Offer(outbox[id].offered, a, now))]
  }

  /** The offers of one pull, written in serving order. */
  function WithOffers(outbox: map<InboxId, Entry>, order: seq<InboxId>, a: AgentId, now: Instant):
    (r: map<InboxId, Entry>)
    requires forall id :: id in order ==> id in outbox
    ensures r.Keys == outbox.Keys
    ensures forall id :: id in outbox && id !in order ==> r[id] == outbox[id]
    ensures forall id :: id in order ==>
              r[id].SamePayload(outbox[id]) && r[id].delivered == outbox[id].delivered &&
              OfferedAgents(r[id].offered) == OfferedAgents(outbox[id].offered) + {a}
    decreases |order|
  {
    if order == [] then outbox else
      var last := |order| - 1;
      assert order == order[..last] + [order[last]];
      RecordOffered(WithOffers(outbox, order[..last], a, now), order[last], a, now)
  }

  function Messages(outbox: map<InboxId, Entry>, order: seq<InboxId>): seq<InboxMessage>
    requires forall id :: id in order ==> id in outbox
  {
    if order == [] then [] else
      var last := |order| - 1;
      assert order == order[..last] + [order[last]];
      Messages(outbox, order[..last]) + [outbox[order[last]].message]
  }

  lemma {:induction false} MessagesAt(outbox: map<InboxId, Entry>, order: seq<InboxId>)
    requires forall id :: id in order ==> id in outbox
    ensures |Messages(outbox, order)| == |order|
    ensures forall i :: 0 <= i < |order| ==> Messages(outbox, order)[i] == outbox[order[i]].message
  {
    if order != [] {
      MessagesAt(outbox, order[..|order| - 1]);
    }
  }

  // ---- Acknowledging ----

  datatype AckError = UnknownInbox(id: InboxId) | TargetMismatch(id: InboxId) | NotOffered(id: InboxId)

  function CheckAck(l: Ledger, a: AgentId, id: InboxId): Option<AckError> {
    if id !in l.outbox then Some(UnknownInbox(id))
    else if l.outbox[id].target.Targeted? && l.outbox[id].target.agent != a then Some(TargetMismatch(id))
    else if !l.outbox[id].Marked(a) then Some(NotOffered(id))
    else None
  }

  function FirstAckError(l: Ledger, a: AgentId, ids: seq<InboxId>): (r: Option<AckError>)
    ensures r == None <==> forall id :: id in ids ==> CheckAck(l, a, id) == None
  {
    if ids == [] then None else
      assert ids == [ids[0]] + ids[1..];
      var e := CheckAck(l, a, ids[0]);
      if e.Some? then e else FirstAckError(l, a, ids[1..])
  }

  function AppendDelivered(outbox: map<InboxId, Entry>, id: InboxId, a: AgentId, now: Instant): (r: map<InboxId, Entry>)
    requires id in outbox
    ensures r.Keys == outbox.Keys && r[id].SamePayload(outbox[id]) && r[id].offered == outbox[id].offered
    ensures DeliveredAgents(r[id].delivered) == DeliveredAgents(outbox[id].delivered) + {a}
    ensures forall k :: k in outbox && k != id ==> r[k] == outbox[k]
  {
    if outbox[id].DeliveredTo(a) then outbox
    else outbox[id := outbox[id].(delivered := outbox[id].delivered + [DeliveredMark(a, now)])]
  }

  function WithReceipts(outbox: map<InboxId, Entry>, ids: seq<InboxId>, a: AgentId, now: Instant):
    (r: map<InboxId, Entry>)
    requires forall id :: id in ids ==> id in outbox
    ensures r.Keys == outbox.Keys
    ensures forall id :: id in outbox && id !in ids ==> r[id] == outbox[id]
    ensures forall id :: id in ids ==>
              r[id].SamePayload(outbox[id]) && r[id].offered == outbox[id].offered &&
              DeliveredAgents(r[id].delivered) == DeliveredAgents(outbox[id].delivered) + {a}
    decreases |ids|
  {
    if ids == [] then outbox else
      var last := |ids| - 1;
      assert ids == ids[..last] + [ids[last]];
      AppendDelivered(WithReceipts(outbox, ids[..last], a, now), ids[last], a, now)
  }

  /** The whole request: rejected as a unit, or every id confirmed. */
  function Ack(l: Ledger, a: AgentId, ids: seq<InboxId>, now: Instant): (Ledger, Option<AckError>) {
    var unique := Distinct(ids);
    match FirstAckError(l, a, unique)
    case Some(e) => (l, Some(e))
    case None =>
      assert forall id :: id in unique ==> CheckAck(l, a, id) == None;
      (l.(outbox := WithReceipts(l.outbox, unique, a, now)), None)
  }

  /** A crash after `written` receipts leaves this ledger behind. */
  function AckPrefix(l: Ledger, a: AgentId, ids: seq<InboxId>, now: Instant, written: nat): Ledger
    requires Ack(l, a, ids, now).1 == None
    requires written <= |Distinct(ids)|
  {
    assert forall id :: id in Distinct(ids) ==> CheckAck(l, a, id) == None;
    assert forall id :: id in Distinct(ids)[..written] ==> id in Distinct(ids);
    l.(outbox := WithReceipts(l.outbox, Distinct(ids)[..written], a, now))
  }

  lemma {:induction false} ReceiptsAgain(outbox: map<InboxId, Entry>, ids: seq<InboxId>, a: AgentId, now: Instant)
    requires forall id :: id in ids ==> id in outbox && outbox[id].DeliveredTo(a)
    ensures WithReceipts(outbox, ids, a, now) == outbox
  {
    if ids != [] {
      var last := |ids| - 1;
      assert ids == ids[..last] + [ids[last]];
      ReceiptsAgain(outbox, ids[..last], a, now);
    }
  }

  lemma {:induction false} ReceiptsSplit(outbox: map<InboxId, Entry>, xs: seq<InboxId>, ys: seq<InboxId>, a: AgentId,
                                         now: Instant)
    requires forall id :: id in xs + ys ==> id in outbox
    ensures WithReceipts(outbox, xs + ys, a, now) == WithReceipts(WithReceipts(outbox, xs, a, now), ys, a, now)
  {
    if ys == [] {
      assert xs + ys == xs;
    } else {
      var last := |ys| - 1;
      assert (xs + ys)[..|xs + ys| - 1] == xs + ys[..last];
      assert forall id :: id in xs + ys[..last] ==> id in xs + ys;
      ReceiptsSplit(outbox, xs, ys[..last], a, now);
    }
  }

  /** Acknowledging is all or nothing, and it confirms every id of an accepted batch. */
  lemma AckIsAtomic(l: Ledger, a: AgentId, ids: seq<InboxId>, now: Instant)
    ensures var (next, error) := Ack(l, a, ids, now);
            && (error == None <==> forall id :: id in ids ==> CheckAck(l, a, id) == None)
            && (error.Some? ==> next == l)
            && (error == None ==> forall id :: id in ids ==> id in next.outbox && next.outbox[id].DeliveredTo(a))
            && (forall id, b :: id in l.outbox && (id !in ids || b != a) ==>
                  id in next.outbox && next.outbox[id].DeliveredTo(b) == l.outbox[id].DeliveredTo(b))
  {
  }

  lemma StillAccepted(l: Ledger, a: AgentId, ids: seq<InboxId>, done: seq<InboxId>, now: Instant)
    requires forall id :: id in ids ==> CheckAck(l, a, id) == None
    requires forall id :: id in done ==> id in ids && id in l.outbox
    ensures forall id :: id in ids ==> CheckAck(l.(outbox := WithReceipts(l.outbox, done, a, now)), a, id) == None
    ensures forall id :: id in done ==> WithReceipts(l.outbox, done, a, now)[id].DeliveredTo(a)
  {
  }

  /** What the crashed call had written is accepted again and left alone; the rest is written now. */
  lemma RetryWritesTheRest(l: Ledger, a: AgentId, ids: seq<InboxId>, now: Instant, later: Instant, written: nat)
    requires Ack(l, a, ids, now).1 == None && written <= |Distinct(ids)|
    ensures var crashed := AckPrefix(l, a, ids, now, written);
            && (forall id :: id in Distinct(ids)[written..] ==> id in crashed.outbox)
            && Ack(crashed, a, ids, later) ==
                 (l.(outbox := WithReceipts(crashed.outbox, Distinct(ids)[written..], a, later)), None)
  {
    var unique := Distinct(ids);
    var done, rest := unique[..written], unique[written..];
    assert unique == done + rest;
    assert forall id :: id in unique ==> CheckAck(l, a, id) == None;
    assert forall id :: id in done ==> id in unique;
    StillAccepted(l, a, unique, done, now);
    var crashed := l.(outbox := WithReceipts(l.outbox, done, a, now));
    assert crashed == AckPrefix(l, a, ids, now, written);
    AckResumes(crashed, a, ids, done, rest, later);
  }

  lemma AckResumes(l: Ledger, a: AgentId, ids: seq<InboxId>, done: seq<InboxId>, rest: seq<InboxId>, later: Instant)
    requires Distinct(ids) == done + rest
    requires forall id :: id in done + rest ==> CheckAck(l, a, id) == None
    requires forall id :: id in done ==> id in l.outbox && l.outbox[id].DeliveredTo(a)
    ensures (forall id :: id in rest ==> id in l.outbox) &&
            Ack(l, a, ids, later) == (l.(outbox := WithReceipts(l.outbox, rest, a, later)), None)
  {
    assert forall id :: id in rest ==> id in done + rest;
    ReceiptsSplit(l.outbox, done, rest, a, later);
    ReceiptsAgain(l.outbox, done, a, later);
  }

  lemma WhenDoesNotMatter(outbox: map<InboxId, Entry>, ids: seq<InboxId>, a: AgentId, now: Instant, later: Instant)
    requires forall id :: id in ids ==> id in outbox
    ensures SameReceivers(WithReceipts(outbox, ids, a, later), WithReceipts(outbox, ids, a, now))
  {
  }

  /** An accepted request writes all of its receipts. */
  lemma AcceptedWritesAll(l: Ledger, a: AgentId, ids: seq<InboxId>, now: Instant)
    requires Ack(l, a, ids, now).1 == None
    ensures forall id :: id in Distinct(ids) ==> id in l.outbox
    ensures Ack(l, a, ids, now).0 == l.(outbox := WithReceipts(l.outbox, Distinct(ids), a, now))
  {
    assert forall id :: id in Distinct(ids) ==> CheckAck(l, a, id) == None;
  }

  /** A retry after a crash at any written prefix, at any later time, marks exactly what one run would have. */
  lemma AckRetryConverges(l: Ledger, a: AgentId, ids: seq<InboxId>, now: Instant, later: Instant, written: nat)
    requires Ack(l, a, ids, now).1 == None
    requires written <= |Distinct(ids)|
    ensures var crashed := AckPrefix(l, a, ids, now, written);
            var (retried, error) := Ack(crashed, a, ids, later);
            && error == None
            && (later == now ==> retried == Ack(l, a, ids, now).0)
            && SameReceivers(retried.outbox, Ack(l, a, ids, now).0.outbox)
  {
    var done, rest := Distinct(ids)[..written], Distinct(ids)[written..];
    assert Distinct(ids) == done + rest;
    AcceptedWritesAll(l, a, ids, now);
    RetryWritesTheRest(l, a, ids, now, later, written);
    ReceiptsSplit(l.outbox, done, rest, a, now);
    WhenDoesNotMatter(AckPrefix(l, a, ids, now, written).outbox, rest, a, now, later);
  }

  ghost predicate SameReceivers(m: map<InboxId, Entry>, n: map<InboxId, Entry>) {
    m.Keys == n.Keys && forall id :: id in m ==> DeliveredAgents(m[id].delivered) == DeliveredAgents(n[id].delivered)
  }

  /** A second identical acknowledgement changes nothing at all. */
  lemma AckTwice(l: Ledger, a: AgentId, ids: seq<InboxId>, now: Instant, later: Instant)
    requires Ack(l, a, ids, now).1 == None
    ensures Ack(Ack(l, a, ids, now).0, a, ids, later) == (Ack(l, a, ids, now).0, None)
  {
    var next := Ack(l, a, ids, now).0;
    forall id | id in Distinct(ids)
      ensures CheckAck(next, a, id) == None
    {
      assert CheckAck(l, a, id) == None;
    }
    ReceiptsAgain(next.outbox, Distinct(ids), a, later);
  }

  // ---- The open / closed listing ----

  /** The broadcast of policy `p` while it was in force. */
  predicate FirstBroadcast(e: Entry, p: PolicyId) {
    e.target == Broadcast && e.message.policy.id == p && e.message.policy.status == InForce
  }

  /** The agents a broadcast of `p` reached while `p` was in force. */
  function Reached(outbox: map<InboxId, Entry>, p: PolicyId): set<AgentId> {
    ReachedAmong(outbox, outbox.Keys, p)
  }

  function ReachedAmong(outbox: map<InboxId, Entry>, ids: set<InboxId>, p: PolicyId): set<AgentId>
    requires ids <= outbox.Keys
  {
    set id, a | id in ids && FirstBroadcast(outbox[id], p) && a in MarkedAgents(outbox[id]) :: a
  }

  function MarkedAgents(e: Entry): set<AgentId> {
    OfferedAgents(e.offered) + DeliveredAgents(e.delivered)
  }

  lemma ReachedAdd(outbox: map<InboxId, Entry>, ids: set<InboxId>, id: InboxId, p: PolicyId)
    requires ids <= outbox.Keys && id in outbox
    ensures ReachedAmong(outbox, ids + {id}, p) ==
            ReachedAmong(outbox, ids, p) + if FirstBroadcast(outbox[id], p) then MarkedAgents(outbox[id]) else {}
  {
  }

  predicate ListedOpen(l: Ledger, id: InboxId)
    requires id in l.outbox
  {
    var e := l.outbox[id];
    match e.target
    case Targeted(t) => !e.DeliveredTo(t)
    case Broadcast =>
      if e.message.policy.status == InForce then InForcePolicy(l, e.message.policy.id)
      else exists a :: a in Reached(l.outbox, e.message.policy.id) && !e.DeliveredTo(a)
  }
}
