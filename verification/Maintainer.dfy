/** The Maintainer's operations on its store, step by step. Each runs under the outbox lock. */
module MaintainerStore {
  import opened Claims
  import opened Sequences
  import opened Outbox
  import opened OutboxRuns
  import opened OutboxEffects
  import opened Sorting

  /** Draws candidates until one is unused, at most `maxAttempts` times. */
  method Mint(used: set<nat>, draw: nat -> nat, maxAttempts: nat) returns (id: Option<nat>)
    ensures id.Some? ==> id.value !in used
    ensures id.Some? ==>
              exists k :: 0 <= k < maxAttempts && draw(k) == id.value && forall j :: 0 <= j < k ==> draw(j) in used
    ensures id == None <==> forall k :: 0 <= k < maxAttempts ==> draw(k) in used
  {
    for k := 0 to maxAttempts
      invariant forall j :: 0 <= j < k ==> draw(j) in used
    {
      if draw(k) !in used {
        return Some(draw(k));
      }
    }
    return None;
  }

  class Maintainer {
    var policies: map<PolicyId, Policy>
    var outbox: map<InboxId, Entry>
    const mintAttempts: nat

    constructor (mintAttempts: nat)
      ensures State() == EMPTY && this.mintAttempts == mintAttempts
    {
      policies, outbox := map[], map[];
      this.mintAttempts := mintAttempts;
    }

    function State(): Ledger
      reads this
    {
      Ledger(policies, outbox)
    }

    /** One entry per target, each under a freshly minted id; stops where minting fails. */
    method CreateOutboxEntries(policy: Policy, action: ActionId, now: Instant, draw: (nat, nat) -> nat)
      returns (done: bool, ghost ids: seq<InboxId>)
      modifies this`outbox
      ensures |ids| <= |TargetsOf(policy)| && FreshIds(old(outbox), ids)
      ensures done <==> |ids| == |TargetsOf(policy)|
      ensures outbox == WithEntries(old(outbox), policy, action, now, ids)
    {
      var targets := TargetsOf(policy);
      ids := [];
      var i := 0;
      while i < |targets|
        invariant 0 <= i == |ids| <= |targets|
        invariant FreshIds(old(outbox), ids)
        invariant outbox == WithEntries(old(outbox), policy, action, now, ids)
      {
        var id := Mint(outbox.Keys, k => draw(i, k), mintAttempts);
        if id == None {
          return false, ids;
        }
        WithEntriesAt(old(outbox), policy, action, now, ids);
        FreshIdsNext(old(outbox), ids, id.value);
        WithEntriesNext(old(outbox), policy, action, now, ids, id.value);
        outbox := outbox[id.value := NewEntry(policy, action, now, targets[i], id.value)];
        ids := ids + [id.value];
        i := i + 1;
      }
      done := true;
    }

    /** The store is what event `e` makes of `was`. */
    ghost predicate Shows(was: Ledger, e: Event)
      reads this
    {
      Possible(was, e) && State() == Next(was, e)
    }

    method PublishNewPolicy(messageType: MessageType, name: string, statement: string, scope: string, now: Instant,
                            agents: Option<seq<AgentId>>, drawAction: nat -> nat, drawPolicy: nat -> nat,
                            drawInbox: (nat, nat) -> nat)
      returns (published: Option<PolicyId>, ghost e: Event)
      requires Inv(State())
      modifies this
      ensures Inv(State())
      ensures published.Some? ==> Shows(old(State()), e)
      ensures published == None ==> State() == old(State()) || Shows(old(State()), e)
      ensures e.Published? && e.messageType == messageType && e.name == name && e.statement == statement &&
              e.scope == scope && e.now == now && e.agents == agents
      ensures published.Some? ==> published.value == e.id
      ensures published.Some? ==> |e.ids| == |TargetsOf(Draft(e.id, messageType, name, statement, scope, now, agents))|
      ensures published.Some? ==>
                && published.value !in old(policies) && policies.Keys == old(policies).Keys + {published.value}
                && (forall p :: p in old(policies) ==> policies[p] == old(policies)[p])
      ensures published.Some? ==>
                var p := policies[published.value];
                && p.id == published.value && p.messageType == messageType
                && p.name == name && p.statement == statement && p.scope == scope
                && p.status == InForce && p.createdAt == now && p.updatedAt == None
                && Recipients(agents, p.targetAgents)
                && Announces(old(outbox), outbox, p, now)
    {
      e := Published(0, messageType, name, statement, scope, now, agents, 0, []);
      var action := MintActionId(drawAction);
      if action == None {
        return None, e;
      }
      var id := Mint(policies.Keys, drawPolicy, mintAttempts);
      if id == None {
        return None, e;
      }
      var policy := Policy(id.value, messageType, name, statement, scope, InForce, now, None, NormalizeTargets(agents));
      policies := policies[id.value := policy];
      var done, ids := CreateOutboxEntries(policy, action.value, now, drawInbox);
      e := Published(id.value, messageType, name, statement, scope, now, agents, action.value, ids);
      StepKeepsInv(old(State()), e);
      if done {
        AnnouncingWrites(old(outbox), policy, action.value, now, ids);
      }
      published := if done then id else None;
    }

    method DeprecatePolicy(id: PolicyId, now: Instant, drawAction: nat -> nat, drawInbox: (nat, nat) -> nat)
      returns (done: bool, ghost e: Event)
      requires Inv(State())
      modifies this
      ensures Inv(State())
      ensures id !in old(policies) ==> !done && State() == old(State())
      ensures done ==> Shows(old(State()), e)
      ensures !done ==> State() == old(State()) || Shows(old(State()), e)
      ensures e.Discontinued? && e.id == id && e.now == now
      ensures done ==> |e.ids| == |TargetsOf(Retired(old(policies[id]), now))|
      ensures done ==>
                && id in old(policies) && policies.Keys == old(policies).Keys
                && (forall p :: p in policies && p != id ==> policies[p] == old(policies)[p])
                && policies[id] == old(policies)[id].(status := Withdrawn, updatedAt := Some(now))
                && Announces(old(outbox), outbox, policies[id], now)
    {
      e := Discontinued(id, now, 0, []);
      if id !in policies {
        return false, e;
      }
      var policy := policies[id];
      policy := policy.(status := Withdrawn);
      policy := policy.(updatedAt := Some(now));
      policy := policy.(targetAgents := NormalizeTargets(policy.targetAgents));
      var action := MintActionId(drawAction);
      if action == None {
        return false, e;
      }
      policies := policies[id := policy];
      ghost var ids;
      done, ids := CreateOutboxEntries(policy, action.value, now, drawInbox);
      e := Discontinued(id, now, action.value, ids);
      StepKeepsInv(old(State()), e);
      NormalizeAgain(old(policies)[id]);
      if done {
        AnnouncingWrites(old(outbox), policy, action.value, now, ids);
      }
    }

    method MintActionId(draw: nat -> nat) returns (id: Option<ActionId>)
      ensures id.Some? ==> FreshAction(outbox, id.value)
      ensures id == None <==> forall k :: 0 <= k < mintAttempts ==> ActionTaken(outbox, draw(k))
    {
      var used: set<ActionId> := {};
      var rest := outbox.Keys;
      while rest != {}
        invariant rest <= outbox.Keys
        invariant forall i :: i in outbox && i !in rest ==> outbox[i].action in used
        invariant forall a :: a in used ==> ActionTaken(outbox, a)
        decreases |rest|
      {
        var i :| i in rest;
        used := used + {outbox[i].action};
        rest := rest - {i};
      }
      id := Mint(used, draw, mintAttempts);
    }

    // ---- Pull ----

    method SeenPolicies(agent: AgentId) returns (seen: set<PolicyId>)
      ensures forall p :: p in seen <==> Seen(State(), p, agent)
    {
      seen := {};
      var rest := outbox.Keys;
      while rest != {}
        invariant rest <= outbox.Keys
        invariant forall p :: p in seen <==>
          exists i :: i in outbox && i !in rest && outbox[i].message.policy.id == p && outbox[i].Marked(agent)
        decreases |rest|
      {
        var i :| i in rest;
        if outbox[i].Marked(agent) {
          seen := seen + {outbox[i].message.policy.id};
        }
        rest := rest - {i};
      }
    }

    /** The ids to serve: filtered as the listing goes by, kept in serving order. */
    method ChooseEntries(agent: AgentId) returns (chosen: seq<InboxId>)
      requires Keyed(State())
      ensures PullOrder(State(), agent, chosen)
    {
      var active := set p | p in policies && policies[p].status == InForce;
      var seen := SeenPolicies(agent);
      chosen := [];
      var rest := outbox.Keys;
      while rest != {}
        invariant rest <= outbox.Keys
        invariant Ordered(outbox, chosen)
        invariant forall id :: id in chosen <==> id in outbox && id !in rest && Eligible(State(), id, agent)
        decreases |rest|
      {
        var id :| id in rest;
        var e := outbox[id];
        var skip := e.DeliveredTo(agent);
        match e.target {
          case Targeted(target) =>
            skip := skip || target != agent;
          case Broadcast =>
            var snapshot := e.message.policy;
            if snapshot.status == Withdrawn {
              skip := skip || snapshot.id !in seen;
            } else {
              skip := skip || (snapshot.id !in active && !e.OfferedTo(agent));
            }
        }
        assert skip == !Eligible(State(), id, agent);
        if !skip {
          chosen := InsertByTime(chosen, id);
        }
        rest := rest - {id};
      }
    }

    method RecordOffers(chosen: seq<InboxId>, agent: AgentId, now: Instant) returns (messages: seq<InboxMessage>)
      requires forall id :: id in chosen ==> id in outbox
      modifies this`outbox
      ensures outbox == WithOffers(old(outbox), chosen, agent, now)
      ensures |messages| == |chosen|
      ensures forall i :: 0 <= i < |chosen| ==> messages[i] == old(outbox)[chosen[i]].message
    {
      var listing := outbox;
      messages := [];
      var i := 0;
      while i < |chosen|
        invariant 0 <= i <= |chosen|
        invariant forall id :: id in chosen[..i] ==> id in listing
        invariant outbox == WithOffers(listing, chosen[..i], agent, now)
        invariant messages == Messages(listing, chosen[..i])
      {
        OneMoreOffer(listing, chosen, i, agent, now);
        outbox := RecordOffered(outbox, chosen[i], agent, now);
        messages := messages + [listing[chosen[i]].message];
        i := i + 1;
      }
      assert chosen[..i] == chosen;
      MessagesAt(listing, chosen);
    }

    /** Serves every open message of the agent, oldest event first, and records each offer before returning it. */
    method PullInbox(agent: AgentId, now: Instant) returns (messages: seq<InboxMessage>, ghost order: seq<InboxId>)
      requires Inv(State())
      modifies this`outbox
      ensures Inv(State())
      ensures Shows(old(State()), Pulled(agent, now, order, |order|))
      ensures |messages| == |order|
      ensures forall i :: 0 <= i < |order| ==> order[i] in old(outbox) && messages[i] == old(outbox)[order[i]].message
      ensures forall id :: id in order <==> Served(old(State()), id, agent)
      ensures forall i, j :: 0 <= i < j < |order| ==> ServedBefore(old(outbox)[order[i]], old(outbox)[order[j]])
      ensures outbox.Keys == old(outbox).Keys
      ensures forall id :: id in outbox && id !in order ==> outbox[id] == old(outbox)[id]
      ensures forall id :: id in order ==>
                && Offered(old(outbox)[id].offered, agent, now, outbox[id].offered)
                && outbox[id] == old(outbox)[id].(offered := outbox[id].offered)
    {
      var chosen := ChooseEntries(agent);
      order := chosen;
      assert forall i :: 0 <= i < |order| ==> order[i] in order;
      messages := RecordOffers(chosen, agent, now);
      CompletePull(old(State()), agent, order, now);
      PullingServes(old(State()), agent, order, now);
    }

    method InsertByTime(sorted: seq<InboxId>, id: InboxId) returns (r: seq<InboxId>)
      requires Ordered(outbox, sorted) && id in outbox && outbox[id].inboxId == id && id !in sorted
      ensures Ordered(outbox, r)
      ensures forall k :: k in r <==> k == id || k in sorted
    {
      var i := 0;
      while i < |sorted| && Earlier(outbox[sorted[i]], outbox[id])
        invariant 0 <= i <= |sorted|
        invariant forall j :: 0 <= j < i ==> Earlier(outbox[sorted[j]], outbox[id])
      {
        i := i + 1;
      }
      r := sorted[..i] + [id] + sorted[i..];
      assert sorted == sorted[..i] + sorted[i..];
      forall j | i <= j < |sorted|
        ensures Earlier(outbox[id], outbox[sorted[j]])
      {
        assert sorted[i] in sorted && sorted[j] in sorted;
        if i < j {
          assert Earlier(outbox[sorted[i]], outbox[sorted[j]]);
        }
      }
      InsertedIsOrdered(outbox, sorted, i, id);
    }

    // ---- Acknowledge ----

    method CheckBatch(agent: AgentId, ids: seq<InboxId>) returns (error: Option<AckError>)
      ensures error == FirstAckError(State(), agent, ids)
    {
      for i := 0 to |ids|
        invariant FirstAckError(State(), agent, ids) == FirstAckError(State(), agent, ids[i..])
      {
        error := CheckAck(State(), agent, ids[i]);
        if error.Some? {
          return error;
        }
      }
      error := None;
    }

    method RecordReceipts(ids: seq<InboxId>, agent: AgentId, now: Instant)
      requires forall id :: id in ids ==> id in outbox
      modifies this`outbox
      ensures outbox == WithReceipts(old(outbox), ids, agent, now)
    {
      ghost var was := outbox;
      var i := 0;
      while i < |ids|
        invariant 0 <= i <= |ids|
        invariant forall id :: id in ids[..i] ==> id in was
        invariant outbox == WithReceipts(was, ids[..i], agent, now)
      {
        assert ids[..i + 1][..i] == ids[..i];
        assert ids[i] in ids;
        outbox := AppendDelivered(outbox, ids[i], agent, now);
        i := i + 1;
      }
      assert ids[..i] == ids;
    }

    /** The whole batch is validated before the first receipt is written. */
    method AckInbox(agent: AgentId, ids: seq<InboxId>, now: Instant) returns (error: Option<AckError>)
      requires Inv(State())
      modifies this`outbox
      ensures Inv(State())
      ensures (State(), error) == Ack(old(State()), agent, ids, now)
      ensures error == None ==> outbox.Keys == old(outbox).Keys
      ensures error == None ==> forall id :: id in outbox ==>
                if id in ids then Received(old(outbox)[id], agent, now, outbox[id]) else outbox[id] == old(outbox)[id]
    {
      var unique := RemoveDuplicates(ids);
      error := CheckBatch(agent, unique);
      if error == None {
        AcceptedBatchKeepsInv(State(), agent, ids, now);
        RecordReceipts(unique, agent, now);
        forall id | id in old(outbox)
          ensures if id in ids then Received(old(outbox)[id], agent, now, outbox[id]) else outbox[id] == old(outbox)[id]
        {
          ReceiptsOnce(old(outbox), unique, agent, now, id);
        }
      }
    }

    // ---- Listing ----

    method BroadcastDeliveries() returns (deliveries: map<PolicyId, set<AgentId>>)
      ensures forall p :: Reached(outbox, p) == Deliveries(deliveries, p)
    {
      deliveries := map[];
      var rest := outbox.Keys;
      ghost var done: set<InboxId> := {};
      while rest != {}
        invariant done <= outbox.Keys && rest == outbox.Keys - done
        invariant forall p :: ReachedAmong(outbox, done, p) == Deliveries(deliveries, p)
        decreases |rest|
      {
        var id :| id in rest;
        ghost var before := deliveries;
        deliveries := AddDeliveries(deliveries, outbox[id]);
        forall p
          ensures ReachedAmong(outbox, done + {id}, p) == Deliveries(deliveries, p)
        {
          ReachedAdd(outbox, done, id, p);
          assert Deliveries(deliveries, p) == Deliveries(before, p) + Delivered(outbox[id], p);
        }
        rest, done := rest - {id}, done + {id};
      }
      assert done == outbox.Keys;
    }

    method AddDeliveries(deliveries: map<PolicyId, set<AgentId>>, e: Entry) returns (r: map<PolicyId, set<AgentId>>)
      ensures forall p :: Deliveries(r, p) == Deliveries(deliveries, p) + Delivered(e, p)
    {
      r := deliveries;
      if e.target == Broadcast && e.message.policy.status == InForce {
        var p := e.message.policy.id;
        r := deliveries[p := Deliveries(deliveries, p) + MarkedAgents(e)];
      }
    }

    method AddEntry(listed: seq<Entry>, e: Entry) returns (r: seq<Entry>)
      requires NoDuplicates(listed) && InOrder(NewestFirst(), listed) && e !in listed
      ensures NoDuplicates(r) && InOrder(NewestFirst(), r)
      ensures forall f :: f in r <==> f == e || f in listed
    {
      var at;
      NewestFirstIsTotal();
      r, at := Insert(NewestFirst(), listed, e);
      InsertedMembers(listed, at, e);
    }

    /** The entries of the state asked for, or all of them, newest first, and no more than the limit. */
    method ListOutboxEntries(limit: Option<nat>, open: Option<bool>)
      returns (listed: seq<Entry>, ghost all: seq<Entry>)
      requires Keyed(State())
      ensures NoDuplicates(all)
      ensures forall i, j :: 0 <= i < j < |all| ==>
                all[i].createdAt > all[j].createdAt ||
                (all[i].createdAt == all[j].createdAt && all[i].inboxId >= all[j].inboxId)
      ensures forall e :: e in all <==> Asked(State(), e, open)
      ensures listed == if limit.Some? && limit.value < |all| then all[..limit.value] else all
    {
      var active := set p | p in policies && policies[p].status == InForce;
      var deliveries := BroadcastDeliveries();
      listed := [];
      var rest := outbox.Keys;
      while rest != {}
        invariant rest <= outbox.Keys
        invariant NoDuplicates(listed) && InOrder(NewestFirst(), listed)
        invariant forall e :: e in listed <==> Asked(State(), e, open) && e.inboxId !in rest
        decreases |rest|
      {
        var id :| id in rest;
        var isOpen := EntryIsOpen(outbox[id], active, deliveries);
        assert isOpen == ListedOpen(State(), id);
        if open.None? || open.value == isOpen {
          listed := AddEntry(listed, outbox[id]);
        }
        rest := rest - {id};
      }
      all := listed;
      if limit.Some? && limit.value < |listed| {
        listed := listed[..limit.value];
      }
    }
  }

  /** An entry of the ledger whose listing state is the one asked for, if one is. */
  ghost predicate Asked(l: Ledger, e: Entry, open: Option<bool>) {
    e.inboxId in l.outbox && l.outbox[e.inboxId] == e && (open.Some? ==> ListedOpen(l, e.inboxId) == open.value)
  }

  function NewestFirst(): (Entry, Entry) -> bool {
    (e: Entry, f: Entry) => e.createdAt > f.createdAt || (e.createdAt == f.createdAt && e.inboxId >= f.inboxId)
  }

  function Deliveries(deliveries: map<PolicyId, set<AgentId>>, p: PolicyId): set<AgentId> {
    if p in deliveries then deliveries[p] else {}
  }

  function Delivered(e: Entry, p: PolicyId): set<AgentId> {
    if FirstBroadcast(e, p) then MarkedAgents(e) else {}
  }

  lemma CompletePull(l: Ledger, a: AgentId, order: seq<InboxId>, now: Instant)
    requires Inv(l) && PullOrder(l, a, order)
    ensures Possible(l, Pulled(a, now, order, |order|))
    ensures forall id :: id in order ==> id in l.outbox
    ensures var m := l.(outbox := WithOffers(l.outbox, order, a, now));
            Next(l, Pulled(a, now, order, |order|)) == m && Inv(m)
  {
    assert order[..|order|] == order;
    PulledStepKeepsInv(l, a, now, order, |order|);
  }

  lemma OneMoreOffer(listing: map<InboxId, Entry>, chosen: seq<InboxId>, i: nat, a: AgentId, now: Instant)
    requires i < |chosen| && forall id :: id in chosen ==> id in listing
    ensures chosen[i] in listing && forall id :: id in chosen[..i + 1] ==> id in listing
    ensures WithOffers(listing, chosen[..i + 1], a, now) ==
            RecordOffered(WithOffers(listing, chosen[..i], a, now), chosen[i], a, now)
    ensures Messages(listing, chosen[..i + 1]) == Messages(listing, chosen[..i]) + [listing[chosen[i]].message]
  {
    assert chosen[..i + 1][..i] == chosen[..i];
    assert chosen[i] in chosen;
  }

  lemma InsertedIsOrdered(outbox: map<InboxId, Entry>, sorted: seq<InboxId>, i: nat, id: InboxId)
    requires Ordered(outbox, sorted) && id in outbox && outbox[id].inboxId == id && i <= |sorted|
    requires forall j :: 0 <= j < |sorted| ==> sorted[j] in outbox
    requires forall j :: 0 <= j < i ==> Earlier(outbox[sorted[j]], outbox[id])
    requires forall j :: i <= j < |sorted| ==> Earlier(outbox[id], outbox[sorted[j]])
    ensures Ordered(outbox, sorted[..i] + [id] + sorted[i..])
  {
  }

  ghost predicate ActionTaken(outbox: map<InboxId, Entry>, action: ActionId) {
    exists id :: id in outbox && outbox[id].action == action
  }

  lemma NewestFirstIsTotal()
    ensures TotalPreorder(NewestFirst())
  {
  }

  predicate EntryIsOpen(e: Entry, active: set<PolicyId>, deliveries: map<PolicyId, set<AgentId>>) {
    match e.target
    case Targeted(t) => !e.DeliveredTo(t)
    case Broadcast =>
      var policy := e.message.policy;
      if policy.status == InForce then policy.id in active
      else policy.id in deliveries && exists a :: a in deliveries[policy.id] && !e.DeliveredTo(a)
  }
}
