/** What every run of the Maintainer keeps, with a crash allowed after any file it writes. */
module OutboxRuns {
  import opened Claims
  import opened Sequences
  import opened Outbox

  /**
   One operation, cut off by a crash after the files it had written. `ids` are the inbox ids minted
   for the entries that were written, `offers` the number of offers recorded, `receipts` the number of
   receipts recorded; a call that ran to its end has written all of them.
   */
  datatype Event =
    | Published(id: PolicyId, messageType: MessageType, name: string, statement: string, scope: string,
                now: Instant, agents: Option<seq<AgentId>>, action: ActionId, ids: seq<InboxId>)
    | Discontinued(id: PolicyId, now: Instant, action: ActionId, ids: seq<InboxId>)
    | Pulled(agent: AgentId, now: Instant, order: seq<InboxId>, offers: nat)
    | Acked(agent: AgentId, ids: seq<InboxId>, now: Instant, receipts: nat)

  ghost predicate Announceable(l: Ledger, policy: Policy, action: ActionId, ids: seq<InboxId>) {
    |ids| <= |TargetsOf(policy)| && FreshIds(l.outbox, ids) && FreshAction(l.outbox, action)
  }

  ghost predicate Possible(l: Ledger, e: Event) {
    match e
    case Published(id, t, n, s, scope, now, agents, action, ids) =>
      id !in l.policies && Announceable(l, Draft(id, t, n, s, scope, now, agents), action, ids)
    case Discontinued(id, now, action, ids) =>
      id in l.policies ==> Announceable(l, Retired(l.policies[id], now), action, ids)
    case Pulled(a, now, order, offers) =>
      PullOrder(l, a, order) && offers <= |order|
    case Acked(a, ids, now, receipts) =>
      Ack(l, a, ids, now).1 == None ==> receipts <= |Distinct(ids)|
  }

  ghost function Next(l: Ledger, e: Event): Ledger
    requires Possible(l, e)
  {
    match e
    case Published(id, t, n, s, scope, now, agents, action, ids) =>
      Announced(l, Draft(id, t, n, s, scope, now, agents), action, now, ids)
    case Discontinued(id, now, action, ids) =>
      if id !in l.policies then l else Announced(l, Retired(l.policies[id], now), action, now, ids)
    case Pulled(a, now, order, offers) =>
      assert forall id :: id in order[..offers] ==> id in order;
      l.(outbox := WithOffers(l.outbox, order[..offers], a, now))
    case Acked(a, ids, now, receipts) =>
      if Ack(l, a, ids, now).1 == None then AckPrefix(l, a, ids, now, receipts) else l
  }

  ghost predicate PossibleRun(l: Ledger, events: seq<Event>)
    decreases |events|
  {
    events == [] || (Possible(l, events[0]) && PossibleRun(Next(l, events[0]), events[1..]))
  }

  ghost function After(l: Ledger, events: seq<Event>): Ledger
    requires PossibleRun(l, events)
    decreases |events|
  {
    if events == [] then l else After(Next(l, events[0]), events[1..])
  }

  const EMPTY := Ledger(map[], map[])

  // ---- The invariant ----

  ghost predicate Keyed(l: Ledger) {
    (forall p :: p in l.policies ==> l.policies[p].id == p) &&
    (forall id :: id in l.outbox ==>
       var e := l.outbox[id];
       e.inboxId == id && e.message.id == id && e.message.handledAt == None && e.message.policy.id in l.policies)
  }

  /** An entry addresses whom its policy addresses; withdrawn snapshots belong to withdrawn policies. */
  ghost predicate AgreesWithPolicy(l: Ledger, e: Entry) {
    var snapshot := e.message.policy;
    snapshot.id in l.policies &&
    var policy := l.policies[snapshot.id];
    && snapshot.targetAgents == policy.targetAgents
    && e.message.kind == snapshot.messageType
    && (snapshot.status == Withdrawn ==> policy.status == Withdrawn)
    && match e.target
       case Broadcast => policy.targetAgents == None
       case Targeted(t) => policy.targetAgents.Some? && t in policy.targetAgents.value
  }

  ghost predicate Normalized(p: Policy) {
    p.targetAgents.Some? ==> p.targetAgents.value != [] && NoDuplicates(p.targetAgents.value)
  }

  ghost predicate MarksInOrder(e: Entry) {
    DeliveredAgents(e.delivered) <= OfferedAgents(e.offered) &&
    (e.target.Targeted? ==> OfferedAgents(e.offered) <= {e.target.agent})
  }

  /** Agent `a` carries a mark on a broadcast of `p` from the time `p` was in force. */
  ghost predicate Informed(l: Ledger, p: PolicyId, a: AgentId) {
    exists id :: id in l.outbox && FirstBroadcast(l.outbox[id], p) && l.outbox[id].OfferedTo(a)
  }

  /** Whoever was offered a retirement had been offered the policy. */
  ghost predicate RetirementsFollowOffers(l: Ledger) {
    forall id :: id in l.outbox ==> FollowsOffers(l, l.outbox[id])
  }

  ghost predicate FollowsOffers(l: Ledger, e: Entry) {
    e.target == Broadcast && e.message.policy.status == Withdrawn ==>
      forall a :: a in OfferedAgents(e.offered) ==> Informed(l, e.message.policy.id, a)
  }

  /** One action id stands for one publish or deprecate call. */
  ghost predicate SameCall(e: Entry, f: Entry) {
    e.message.policy == f.message.policy && e.message.kind == f.message.kind && e.createdAt == f.createdAt &&
    e.target.Broadcast? == f.target.Broadcast?
  }

  ghost predicate ActionsAreCalls(l: Ledger) {
    forall i, j :: i in l.outbox && j in l.outbox && l.outbox[i].action == l.outbox[j].action ==>
      SameCall(l.outbox[i], l.outbox[j])
  }

  ghost predicate Inv(l: Ledger) {
    && Keyed(l)
    && (forall p :: p in l.policies ==> Normalized(l.policies[p]))
    && (forall id :: id in l.outbox ==> AgreesWithPolicy(l, l.outbox[id]) && MarksInOrder(l.outbox[id]))
    && RetirementsFollowOffers(l)
    && ActionsAreCalls(l)
  }

  // ---- Steps only add ----

  /** The same entry later: payload kept, no mark taken back. */
  ghost predicate Grown(e: Entry, f: Entry) {
    e.SamePayload(f) && OfferedAgents(e.offered) <= OfferedAgents(f.offered) &&
    DeliveredAgents(e.delivered) <= DeliveredAgents(f.delivered)
  }

  /** Withdrawals and recipients are permanent. */
  ghost predicate Lasts(p: Policy, q: Policy) {
    q.targetAgents == p.targetAgents && (p.status == Withdrawn ==> q.status == Withdrawn)
  }

  ghost predicate Extends(l: Ledger, m: Ledger) {
    (forall p :: p in l.policies ==> p in m.policies && Lasts(l.policies[p], m.policies[p])) &&
    (forall id :: id in l.outbox ==> id in m.outbox && Grown(l.outbox[id], m.outbox[id]))
  }

  lemma InformedLasts(l: Ledger, m: Ledger, p: PolicyId, a: AgentId)
    requires Extends(l, m) && Informed(l, p, a)
    ensures Informed(m, p, a)
  {
    var id :| id in l.outbox && FirstBroadcast(l.outbox[id], p) && l.outbox[id].OfferedTo(a);
    assert Grown(l.outbox[id], m.outbox[id]);
    assert FirstBroadcast(m.outbox[id], p) && m.outbox[id].OfferedTo(a);
  }

  lemma NormalizeAgain(policy: Policy)
    requires Normalized(policy)
    ensures NormalizeTargets(policy.targetAgents) == policy.targetAgents
  {
    if policy.targetAgents.Some? {
      DistinctKeeps(policy.targetAgents.value);
    }
  }

  // ---- Announcing a policy ----

  ghost predicate NewFor(e: Entry, id: InboxId, policy: Policy, action: ActionId, now: Instant) {
    exists t :: t in TargetsOf(policy) && e == NewEntry(policy, action, now, t, id)
  }

  lemma AnnouncedEntry(l: Ledger, policy: Policy, action: ActionId, now: Instant, ids: seq<InboxId>, id: InboxId)
    requires Announceable(l, policy, action, ids) && id in Announced(l, policy, action, now, ids).outbox
    ensures id in l.outbox ==> Announced(l, policy, action, now, ids).outbox[id] == l.outbox[id]
    ensures id !in l.outbox ==> NewFor(Announced(l, policy, action, now, ids).outbox[id], id, policy, action, now)
  {
    WithEntriesAt(l.outbox, policy, action, now, ids);
    if id !in l.outbox {
      var i :| 0 <= i < |ids| && ids[i] == id;
      assert TargetsOf(policy)[i] in TargetsOf(policy);
    }
  }

  lemma AnnouncedExtends(l: Ledger, policy: Policy, action: ActionId, now: Instant, ids: seq<InboxId>)
    requires Announceable(l, policy, action, ids)
    requires policy.id in l.policies ==> Lasts(l.policies[policy.id], policy)
    ensures Extends(l, Announced(l, policy, action, now, ids))
  {
    var m := Announced(l, policy, action, now, ids);
    WithEntriesAt(l.outbox, policy, action, now, ids);
    forall id | id in l.outbox
      ensures id in m.outbox && Grown(l.outbox[id], m.outbox[id])
    {
      AnnouncedEntry(l, policy, action, now, ids, id);
    }
  }

  lemma AnnouncedAgrees(l: Ledger, policy: Policy, action: ActionId, now: Instant, ids: seq<InboxId>, id: InboxId)
    requires Inv(l) && Announceable(l, policy, action, ids) && Normalized(policy)
    requires policy.id in l.policies ==> Lasts(l.policies[policy.id], policy)
    requires id in Announced(l, policy, action, now, ids).outbox
    ensures var m := Announced(l, policy, action, now, ids); var e := m.outbox[id];
            AgreesWithPolicy(m, e) && MarksInOrder(e) && FollowsOffers(m, e) &&
            e.inboxId == id && e.message.id == id && e.message.handledAt == None
  {
    var m := Announced(l, policy, action, now, ids);
    AnnouncedEntry(l, policy, action, now, ids, id);
    AnnouncedExtends(l, policy, action, now, ids);
    if id in l.outbox {
      var e := l.outbox[id];
      assert AgreesWithPolicy(l, e) && FollowsOffers(l, e);
      forall a | Informed(l, e.message.policy.id, a)
        ensures Informed(m, e.message.policy.id, a)
      {
        InformedLasts(l, m, e.message.policy.id, a);
      }
    }
  }

  lemma AnnouncedKeepsActions(l: Ledger, policy: Policy, action: ActionId, now: Instant, ids: seq<InboxId>)
    requires ActionsAreCalls(l) && Announceable(l, policy, action, ids)
    ensures ActionsAreCalls(Announced(l, policy, action, now, ids))
  {
    var m := Announced(l, policy, action, now, ids);
    forall i, j | i in m.outbox && j in m.outbox && m.outbox[i].action == m.outbox[j].action
      ensures SameCall(m.outbox[i], m.outbox[j])
    {
      AnnouncedEntry(l, policy, action, now, ids, i);
      AnnouncedEntry(l, policy, action, now, ids, j);
    }
  }

  lemma AnnouncedKeepsInv(l: Ledger, policy: Policy, action: ActionId, now: Instant, ids: seq<InboxId>)
    requires Inv(l) && Announceable(l, policy, action, ids) && Normalized(policy)
    requires policy.id in l.policies ==> Lasts(l.policies[policy.id], policy)
    ensures Inv(Announced(l, policy, action, now, ids)) && Extends(l, Announced(l, policy, action, now, ids))
  {
    var m := Announced(l, policy, action, now, ids);
    AnnouncedExtends(l, policy, action, now, ids);
    AnnouncedKeepsActions(l, policy, action, now, ids);
    forall id | id in m.outbox
      ensures var e := m.outbox[id];
              AgreesWithPolicy(m, e) && MarksInOrder(e) && FollowsOffers(m, e) &&
              e.inboxId == id && e.message.id == id && e.message.handledAt == None
    {
      AnnouncedAgrees(l, policy, action, now, ids, id);
    }
  }

  // ---- Adding marks ----

  /** Only marks of `a` were added, on the entries in `touched`. */
  ghost predicate OnlyMarks(l: Ledger, m: Ledger, a: AgentId, touched: set<InboxId>) {
    m.policies == l.policies && m.outbox.Keys == l.outbox.Keys &&
    forall id :: id in l.outbox ==>
      Grown(l.outbox[id], m.outbox[id]) && MarkedBy(l.outbox[id], m.outbox[id], a, touched)
  }

  ghost predicate MarkedBy(e: Entry, f: Entry, a: AgentId, touched: set<InboxId>) {
    && (e.inboxId !in touched ==> f == e)
    && OfferedAgents(f.offered) <= OfferedAgents(e.offered) + {a}
    && DeliveredAgents(f.delivered) <= DeliveredAgents(e.delivered) + {a}
  }

  ghost predicate MayMark(l: Ledger, e: Entry, a: AgentId) {
    match e.target
    case Targeted(t) => t == a
    case Broadcast => e.message.policy.status == Withdrawn ==> Informed(l, e.message.policy.id, a)
  }

  /** Marks may be added where the agent is a recipient, had been informed, and was offered before it confirmed. */
  lemma MarksKeepInv(l: Ledger, m: Ledger, a: AgentId, touched: set<InboxId>)
    requires Inv(l) && OnlyMarks(l, m, a, touched)
    requires forall id :: id in touched ==> id in l.outbox && m.outbox[id].OfferedTo(a) && MayMark(l, l.outbox[id], a)
    ensures Inv(m) && Extends(l, m)
  {
    forall p | p in l.policies
      ensures Lasts(l.policies[p], m.policies[p])
    {}
    assert Extends(l, m);
    forall id | id in m.outbox
      ensures AgreesWithPolicy(m, m.outbox[id]) && MarksInOrder(m.outbox[id])
      ensures FollowsOffers(m, m.outbox[id])
    {
      var e, f := l.outbox[id], m.outbox[id];
      assert Grown(e, f) && MarkedBy(e, f, a, touched) && e.inboxId == id;
      if id in touched {
        assert f.OfferedTo(a) && MayMark(l, e, a);
      }
      assert AgreesWithPolicy(l, e) && MarksInOrder(e) && FollowsOffers(l, e);
      if e.target == Broadcast && e.message.policy.status == Withdrawn {
        forall b | b in OfferedAgents(f.offered)
          ensures Informed(m, f.message.policy.id, b)
        {
          InformedLasts(l, m, e.message.policy.id, b);
        }
      }
    }
    forall i, j | i in m.outbox && j in m.outbox && m.outbox[i].action == m.outbox[j].action
      ensures SameCall(m.outbox[i], m.outbox[j])
    {
      assert Grown(l.outbox[i], m.outbox[i]) && Grown(l.outbox[j], m.outbox[j]);
      assert SameCall(l.outbox[i], l.outbox[j]);
    }
  }

  /** A mark on any entry of a broadcast policy goes back to a mark on the policy's own broadcast. */
  lemma SeenMeansInformed(l: Ledger, id: InboxId, a: AgentId)
    requires Inv(l) && id in l.outbox && l.outbox[id].target == Broadcast
    requires Seen(l, l.outbox[id].message.policy.id, a)
    ensures Informed(l, l.outbox[id].message.policy.id, a)
  {
  }

  lemma OffersAreMarks(l: Ledger, a: AgentId, now: Instant, order: seq<InboxId>)
    requires Keyed(l) && forall id :: id in order ==> id in l.outbox
    ensures var m := l.(outbox := WithOffers(l.outbox, order, a, now));
            OnlyMarks(l, m, a, set id | id in order) && forall id :: id in order ==> m.outbox[id].OfferedTo(a)
  {
  }

  lemma ReceiptsAreMarks(l: Ledger, a: AgentId, now: Instant, ids: seq<InboxId>)
    requires Keyed(l) && forall id :: id in ids ==> id in l.outbox && l.outbox[id].OfferedTo(a)
    ensures var m := l.(outbox := WithReceipts(l.outbox, ids, a, now));
            OnlyMarks(l, m, a, set id | id in ids) && forall id :: id in ids ==> m.outbox[id].OfferedTo(a)
  {
  }

  lemma EligibleMayMark(l: Ledger, id: InboxId, a: AgentId)
    requires Inv(l) && id in l.outbox && Eligible(l, id, a)
    ensures MayMark(l, l.outbox[id], a)
  {
    if l.outbox[id].target == Broadcast && l.outbox[id].message.policy.status == Withdrawn {
      SeenMeansInformed(l, id, a);
    }
  }

  lemma OfferedMayMark(l: Ledger, id: InboxId, a: AgentId)
    requires Inv(l) && id in l.outbox && l.outbox[id].OfferedTo(a)
    ensures MayMark(l, l.outbox[id], a)
  {
    assert MarksInOrder(l.outbox[id]) && FollowsOffers(l, l.outbox[id]);
  }

  lemma PulledKeepsInv(l: Ledger, a: AgentId, now: Instant, order: seq<InboxId>)
    requires Inv(l) && forall id :: id in order ==> id in l.outbox && Eligible(l, id, a)
    ensures var m := l.(outbox := WithOffers(l.outbox, order, a, now));
            Inv(m) && Extends(l, m)
  {
    OffersAreMarks(l, a, now, order);
    forall id | id in order
      ensures MayMark(l, l.outbox[id], a)
    {
      EligibleMayMark(l, id, a);
    }
    MarksKeepInv(l, l.(outbox := WithOffers(l.outbox, order, a, now)), a, set id | id in order);
  }

  lemma AckedKeepsInv(l: Ledger, a: AgentId, now: Instant, ids: seq<InboxId>)
    requires Inv(l) && forall id :: id in ids ==> id in l.outbox && l.outbox[id].OfferedTo(a)
    ensures var m := l.(outbox := WithReceipts(l.outbox, ids, a, now));
            Inv(m) && Extends(l, m)
  {
    ReceiptsAreMarks(l, a, now, ids);
    forall id | id in ids
      ensures MayMark(l, l.outbox[id], a)
    {
      OfferedMayMark(l, id, a);
    }
    MarksKeepInv(l, l.(outbox := WithReceipts(l.outbox, ids, a, now)), a, set id | id in ids);
  }

  // ---- Runs ----

  /** The receipts a confirmation writes are for entries that had been offered. */
  lemma ReceiptsAreOffered(l: Ledger, a: AgentId, ids: seq<InboxId>, now: Instant, receipts: nat)
    requires Inv(l) && Ack(l, a, ids, now).1 == None && receipts <= |Distinct(ids)|
    ensures forall k :: k in Distinct(ids)[..receipts] ==>
                          k in l.outbox && CheckAck(l, a, k) == None && l.outbox[k].OfferedTo(a)
  {
    AcceptedEach(l, a, ids, now);
    forall k | k in Distinct(ids)[..receipts]
      ensures k in l.outbox && CheckAck(l, a, k) == None && l.outbox[k].OfferedTo(a)
    {
      assert k in Distinct(ids);
      AcceptedWasOffered(l, a, k);
    }
  }

  lemma AcceptedEach(l: Ledger, a: AgentId, ids: seq<InboxId>, now: Instant)
    requires Ack(l, a, ids, now).1 == None
    ensures forall k :: k in Distinct(ids) ==> CheckAck(l, a, k) == None
  {
  }

  lemma AcceptedWasOffered(l: Ledger, a: AgentId, id: InboxId)
    requires Inv(l) && CheckAck(l, a, id) == None
    ensures id in l.outbox && l.outbox[id].OfferedTo(a)
  {
    assert MarksInOrder(l.outbox[id]);
  }

  /** An accepted batch, all of its receipts written. */
  lemma AcceptedBatchKeepsInv(l: Ledger, a: AgentId, ids: seq<InboxId>, now: Instant)
    requires Inv(l) && FirstAckError(l, a, Distinct(ids)) == None
    ensures forall id :: id in Distinct(ids) ==> id in l.outbox
    ensures var m := l.(outbox := WithReceipts(l.outbox, Distinct(ids), a, now));
            Ack(l, a, ids, now) == (m, None) && Inv(m)
  {
    forall id | id in Distinct(ids)
      ensures id in l.outbox && l.outbox[id].OfferedTo(a)
    {
      AcceptedWasOffered(l, a, id);
    }
    AckedKeepsInv(l, a, now, Distinct(ids));
  }

  lemma AckedStepKeepsInv(l: Ledger, a: AgentId, ids: seq<InboxId>, now: Instant, receipts: nat)
    requires Inv(l) && Possible(l, Acked(a, ids, now, receipts))
    ensures var m := Next(l, Acked(a, ids, now, receipts)); Inv(m) && Extends(l, m)
  {
    if Ack(l, a, ids, now).1 == None {
      ReceiptsAreOffered(l, a, ids, now, receipts);
      AckedKeepsInv(l, a, now, Distinct(ids)[..receipts]);
    } else {
      ExtendsItself(l);
    }
  }

  lemma PulledStepKeepsInv(l: Ledger, a: AgentId, now: Instant, order: seq<InboxId>, offers: nat)
    requires Inv(l) && Possible(l, Pulled(a, now, order, offers))
    ensures var m := Next(l, Pulled(a, now, order, offers)); Inv(m) && Extends(l, m)
  {
    assert forall id :: id in order[..offers] ==> id in order;
    PulledKeepsInv(l, a, now, order[..offers]);
  }

  lemma DiscontinuedStepKeepsInv(l: Ledger, id: PolicyId, now: Instant, action: ActionId, ids: seq<InboxId>)
    requires Inv(l) && Possible(l, Discontinued(id, now, action, ids))
    ensures var m := Next(l, Discontinued(id, now, action, ids)); Inv(m) && Extends(l, m)
  {
    if id in l.policies {
      NormalizeAgain(l.policies[id]);
      AnnouncedKeepsInv(l, Retired(l.policies[id], now), action, now, ids);
    } else {
      ExtendsItself(l);
    }
  }

  lemma StepKeepsInv(l: Ledger, e: Event)
    requires Inv(l) && Possible(l, e)
    ensures Inv(Next(l, e)) && Extends(l, Next(l, e))
  {
    match e
    case Published(id, t, n, s, scope, now, agents, action, ids) =>
      AnnouncedKeepsInv(l, Draft(id, t, n, s, scope, now, agents), action, now, ids);
    case Discontinued(id, now, action, ids) => DiscontinuedStepKeepsInv(l, id, now, action, ids);
    case Pulled(a, now, order, offers) => PulledStepKeepsInv(l, a, now, order, offers);
    case Acked(a, ids, now, receipts) => AckedStepKeepsInv(l, a, ids, now, receipts);
  }

  /** Every run keeps the invariant, and never takes an entry, a mark or a withdrawal back. */
  lemma {:induction false} RunKeepsInv(l: Ledger, events: seq<Event>)
    requires Inv(l) && PossibleRun(l, events)
    ensures Inv(After(l, events)) && Extends(l, After(l, events))
    decreases |events|
  {
    if events != [] {
      var next := Next(l, events[0]);
      StepKeepsInv(l, events[0]);
      RunKeepsInv(next, events[1..]);
      ExtendsTransitive(l, next, After(next, events[1..]));
    }
  }

  lemma ExtendsItself(l: Ledger)
    ensures Extends(l, l)
  {
  }

  lemma ExtendsTransitive(l: Ledger, m: Ledger, n: Ledger)
    requires Extends(l, m) && Extends(m, n)
    ensures Extends(l, n)
  {
  }

  lemma ReachableInv(events: seq<Event>)
    requires PossibleRun(EMPTY, events)
    ensures Inv(After(EMPTY, events))
  {
    RunKeepsInv(EMPTY, events);
  }

  // ---- Delivery over runs ----

  /**
   From the first offer on, every later pull of that agent serves the same message until it is confirmed,
   whatever happens to the policy; after the confirmation no pull serves it again.
   */
  lemma ServedUntilConfirmed(l: Ledger, events: seq<Event>, id: InboxId, a: AgentId, order: seq<InboxId>)
    requires Inv(l) && PossibleRun(l, events)
    requires id in l.outbox && l.outbox[id].OfferedTo(a)
    requires PullOrder(After(l, events), a, order)
    ensures id in After(l, events).outbox && After(l, events).outbox[id].message == l.outbox[id].message
    ensures id in order <==> !After(l, events).outbox[id].DeliveredTo(a)
    ensures l.outbox[id].DeliveredTo(a) ==> id !in order
  {
    var m := After(l, events);
    RunKeepsInv(l, events);
    var e, f := l.outbox[id], m.outbox[id];
    assert Grown(e, f) && f.OfferedTo(a);
    assert MarksInOrder(f);
    if f.target == Broadcast && f.message.policy.status == Withdrawn {
      assert Seen(m, f.message.policy.id, a);
    }
  }

  /** An agent without any mark on a withdrawn broadcast policy is never served anything about it. */
  lemma {:induction false} UnmarkedStaysUnmarked(l: Ledger, events: seq<Event>, p: PolicyId, a: AgentId)
    requires Inv(l) && PossibleRun(l, events)
    requires p in l.policies && l.policies[p].targetAgents == None && l.policies[p].status == Withdrawn
    requires !Seen(l, p, a)
    ensures !Seen(After(l, events), p, a)
    ensures forall id :: id in After(l, events).outbox && After(l, events).outbox[id].message.policy.id == p ==>
              !Eligible(After(l, events), id, a)
    decreases |events|
  {
    if events == [] {
      forall id | id in l.outbox && l.outbox[id].message.policy.id == p
        ensures !Eligible(l, id, a)
      {
        NothingForUnmarked(l, p, a, id);
      }
    } else {
      StepKeepsInv(l, events[0]);
      UnmarkedStep(l, events[0], p, a);
      UnmarkedStaysUnmarked(Next(l, events[0]), events[1..], p, a);
    }
  }

  lemma NothingForUnmarked(l: Ledger, p: PolicyId, a: AgentId, id: InboxId)
    requires Inv(l) && p in l.policies && l.policies[p].targetAgents == None && l.policies[p].status == Withdrawn
    requires !Seen(l, p, a) && id in l.outbox && l.outbox[id].message.policy.id == p
    ensures !Eligible(l, id, a) && CheckAck(l, a, id).Some?
  {
    assert AgreesWithPolicy(l, l.outbox[id]);
    assert !l.outbox[id].Marked(a);
  }

  lemma AnnouncingMarksNobody(l: Ledger, e: Event, a: AgentId, id: InboxId)
    requires (e.Published? || e.Discontinued?) && Possible(l, e) && id in Next(l, e).outbox
    requires id in l.outbox ==> !l.outbox[id].Marked(a)
    ensures !Next(l, e).outbox[id].Marked(a)
  {
    match e
    case Published(q, t, n, s, scope, now, agents, action, ids) =>
      AnnouncedEntry(l, Draft(q, t, n, s, scope, now, agents), action, now, ids, id);
    case Discontinued(q, now, action, ids) =>
      if q in l.policies {
        AnnouncedEntry(l, Retired(l.policies[q], now), action, now, ids, id);
      }
  }

  lemma MarksMissTheUntouched(l: Ledger, m: Ledger, b: AgentId, touched: set<InboxId>, a: AgentId, id: InboxId)
    requires OnlyMarks(l, m, b, touched) && Keyed(l) && id in l.outbox
    requires !l.outbox[id].Marked(a) && (a == b ==> id !in touched)
    ensures !m.outbox[id].Marked(a)
  {
    assert l.outbox[id].inboxId == id;
    assert MarkedBy(l.outbox[id], m.outbox[id], b, touched);
  }

  lemma PullMarksTheEligible(l: Ledger, b: AgentId, now: Instant, order: seq<InboxId>, offers: nat, a: AgentId,
                             id: InboxId)
    requires Possible(l, Pulled(b, now, order, offers)) && Keyed(l) && id in l.outbox
    requires !l.outbox[id].Marked(a) && !Eligible(l, id, a)
    ensures var m := Next(l, Pulled(b, now, order, offers)); id in m.outbox && !m.outbox[id].Marked(a)
  {
  }

  lemma AckMarksTheOffered(l: Ledger, b: AgentId, ids: seq<InboxId>, now: Instant, receipts: nat, a: AgentId,
                           id: InboxId)
    requires Possible(l, Acked(b, ids, now, receipts)) && Inv(l) && id in l.outbox
    requires !l.outbox[id].Marked(a) && CheckAck(l, a, id).Some?
    ensures var m := Next(l, Acked(b, ids, now, receipts)); id in m.outbox && !m.outbox[id].Marked(a)
  {
    if Ack(l, b, ids, now).1 == None {
      var written := Distinct(ids)[..receipts];
      ReceiptsAreOffered(l, b, ids, now, receipts);
      ReceiptsAreMarks(l, b, now, written);
      MarksMissTheUntouched(l, l.(outbox := WithReceipts(l.outbox, written, b, now)), b, (set k | k in written), a, id);
    }
  }

  lemma UnmarkedStep(l: Ledger, e: Event, p: PolicyId, a: AgentId)
    requires Inv(l) && Possible(l, e)
    requires p in l.policies && l.policies[p].targetAgents == None && l.policies[p].status == Withdrawn
    requires !Seen(l, p, a)
    ensures !Seen(Next(l, e), p, a)
  {
    var m := Next(l, e);
    StepKeepsInv(l, e);
    forall id | id in m.outbox && m.outbox[id].message.policy.id == p
      ensures !m.outbox[id].Marked(a)
    {
      if id in l.outbox {
        assert Grown(l.outbox[id], m.outbox[id]);
        assert !l.outbox[id].Marked(a);
        NothingForUnmarked(l, p, a, id);
        UnmarkedEntryStep(l, e, a, id);
      } else {
        OnlyAnnouncingAdds(l, e, id);
        AnnouncingMarksNobody(l, e, a, id);
      }
    }
  }

  lemma OnlyAnnouncingAdds(l: Ledger, e: Event, id: InboxId)
    requires Possible(l, e) && id in Next(l, e).outbox && id !in l.outbox
    ensures e.Published? || e.Discontinued?
  {
  }

  lemma UnmarkedEntryStep(l: Ledger, e: Event, a: AgentId, id: InboxId)
    requires Inv(l) && Possible(l, e) && id in l.outbox && id in Next(l, e).outbox
    requires !l.outbox[id].Marked(a) && !Eligible(l, id, a) && CheckAck(l, a, id).Some?
    ensures !Next(l, e).outbox[id].Marked(a)
  {
    match e
    case Published(_, _, _, _, _, _, _, _, _) => AnnouncingMarksNobody(l, e, a, id);
    case Discontinued(_, _, _, _) => AnnouncingMarksNobody(l, e, a, id);
    case Pulled(b, now, order, offers) => PullMarksTheEligible(l, b, now, order, offers, a, id);
    case Acked(b, ids, now, receipts) => AckMarksTheOffered(l, b, ids, now, receipts, a, id);
  }

  /** After a completed deprecation everyone the policy had reached is served the retirement until it confirms. */
  lemma RetirementReachesTheInformed(l: Ledger, p: PolicyId, now: Instant, action: ActionId, id: InboxId,
                                     events: seq<Event>, a: AgentId)
    requires Inv(l) && p in l.policies && Informed(l, p, a)
    requires Possible(l, Discontinued(p, now, action, [id]))
    requires PossibleRun(Next(l, Discontinued(p, now, action, [id])), events)
    ensures var m := After(Next(l, Discontinued(p, now, action, [id])), events);
            && id in m.outbox
            && m.outbox[id].message == InboxMessage(id, l.policies[p].messageType, Retired(l.policies[p], now), None)
            && (Eligible(m, id, a) <==> !m.outbox[id].DeliveredTo(a))
  {
    var next := Next(l, Discontinued(p, now, action, [id]));
    var m := After(next, events);
    var first :| first in l.outbox && FirstBroadcast(l.outbox[first], p) && l.outbox[first].OfferedTo(a);
    assert AgreesWithPolicy(l, l.outbox[first]);
    NormalizeAgain(l.policies[p]);
    WithEntriesAt(l.outbox, Retired(l.policies[p], now), action, now, [id]);
    assert [id][0] in [id] && next.outbox[id] == NewEntry(Retired(l.policies[p], now), action, now, Broadcast, id);
    StepKeepsInv(l, Discontinued(p, now, action, [id]));
    RunKeepsInv(next, events);
    ExtendsTransitive(l, next, m);
    assert Grown(next.outbox[id], m.outbox[id]);
    InformedLasts(l, m, p, a);
    assert Seen(m, p, a);
  }

  // ---- The listing agrees with the protocol ----

  /** Targeted entries and retirements are listed open exactly when some agent's next pull would serve them. */
  lemma ListingAgrees(l: Ledger, id: InboxId)
    requires Inv(l) && id in l.outbox
    requires l.outbox[id].target.Targeted? || l.outbox[id].message.policy.status == Withdrawn
    ensures ListedOpen(l, id) <==> exists a :: Eligible(l, id, a)
  {
    var e := l.outbox[id];
    match e.target
    case Targeted(t) =>
      assert ListedOpen(l, id) ==> Eligible(l, id, t);
    case Broadcast =>
      var p := e.message.policy.id;
      if ListedOpen(l, id) {
        var a :| a in Reached(l.outbox, p) && !e.DeliveredTo(a);
        var first :| first in l.outbox && FirstBroadcast(l.outbox[first], p) &&
          a in MarkedAgents(l.outbox[first]);
        assert l.outbox[first].Marked(a);
        assert Eligible(l, id, a);
      }
      forall a | Eligible(l, id, a)
        ensures ListedOpen(l, id)
      {
        SeenMeansInformed(l, id, a);
        var first :| first in l.outbox && FirstBroadcast(l.outbox[first], p) && l.outbox[first].OfferedTo(a);
        assert a in MarkedAgents(l.outbox[first]);
        assert a in Reached(l.outbox, p);
      }
  }

  /**
   A broadcast written while its policy was in force is listed open while the policy is in force. The listing
   agrees with the next pulls exactly when the policy is in force or nobody still owes a confirmation.
   */
  lemma ListingOfBroadcasts(l: Ledger, id: InboxId)
    requires Inv(l) && id in l.outbox
    requires l.outbox[id].target == Broadcast && l.outbox[id].message.policy.status == InForce
    ensures (ListedOpen(l, id) <==> exists a :: Eligible(l, id, a)) <==>
            InForcePolicy(l, l.outbox[id].message.policy.id) ||
            OfferedAgents(l.outbox[id].offered) <= DeliveredAgents(l.outbox[id].delivered)
  {
    var e := l.outbox[id];
    if InForcePolicy(l, e.message.policy.id) {
      var a := Unnamed(DeliveredAgents(e.delivered));
      assert Eligible(l, id, a);
    } else if !(OfferedAgents(e.offered) <= DeliveredAgents(e.delivered)) {
      var a :| a in OfferedAgents(e.offered) && a !in DeliveredAgents(e.delivered);
      assert Eligible(l, id, a);
    }
  }

  /** A deprecation closes the listing of every broadcast it withdraws, and goes on serving it where it is owed. */
  lemma WithdrawnWhileOwed(l: Ledger, p: PolicyId, now: Instant, action: ActionId, ids: seq<InboxId>, id: InboxId,
                           a: AgentId)
    requires Inv(l) && p in l.policies && Possible(l, Discontinued(p, now, action, ids))
    requires id in l.outbox && FirstBroadcast(l.outbox[id], p)
    requires l.outbox[id].OfferedTo(a) && !l.outbox[id].DeliveredTo(a)
    ensures var m := Next(l, Discontinued(p, now, action, ids));
            id in m.outbox && !ListedOpen(m, id) && Eligible(m, id, a)
  {
    var m := Next(l, Discontinued(p, now, action, ids));
    DiscontinuedStepKeepsInv(l, p, now, action, ids);
    assert Grown(l.outbox[id], m.outbox[id]);
    AnnouncedEntry(l, Retired(l.policies[p], now), action, now, ids, id);
  }

  lemma OneBroadcast(draft: Policy)
    requires draft == Draft(0, PolicyUpdate, "", "", "", 0, None)
    ensures Announceable(EMPTY, draft, 0, [0])
    ensures Announced(EMPTY, draft, 0, 0, [0]) == Ledger(map[0 := draft], map[0 := NewEntry(draft, 0, 0, Broadcast, 0)])
  {
    assert TargetsOf(draft) == [Broadcast];
    assert WithEntries(EMPTY.outbox, draft, 0, 0, [0]) == map[0 := NewEntry(draft, 0, 0, Broadcast, 0)];
  }

  lemma OnePull(l: Ledger, draft: Policy)
    requires draft.id == 0 && draft.status == InForce
    requires l == Ledger(map[0 := draft], map[0 := NewEntry(draft, 0, 0, Broadcast, 0)])
    ensures Possible(l, Pulled(1, 1, [0], 1))
    ensures var m := Next(l, Pulled(1, 1, [0], 1));
            && m.policies == l.policies && m.outbox.Keys == {0} && FirstBroadcast(m.outbox[0], 0)
            && m.outbox[0].OfferedTo(1) && !m.outbox[0].DeliveredTo(1) && m.outbox[0].action == 0
  {
    assert Eligible(l, 0, 1) && PullOrder(l, 1, [0]);
    assert [0][..1] == [0];
  }

  ghost predicate ServedThoughClosed(m: Ledger, id: InboxId, a: AgentId) {
    id in m.outbox && !ListedOpen(m, id) && Eligible(m, id, a)
  }

  /** Such a ledger comes about: publish to everyone, one pull, deprecate. */
  lemma ClosedButServed()
    ensures exists events, id, a :: PossibleRun(EMPTY, events) && ServedThoughClosed(After(EMPTY, events), id, a)
  {
    var publish := Published(0, PolicyUpdate, "", "", "", 0, None, 0, [0]);
    var draft := Draft(0, PolicyUpdate, "", "", "", 0, None);
    OneBroadcast(draft);
    var l1 := Next(EMPTY, publish);
    StepKeepsInv(EMPTY, publish);
    var events := PullThenWithdraw(l1, draft);
    RunFrom(EMPTY, publish, events);
  }

  lemma PullThenWithdraw(l: Ledger, draft: Policy) returns (events: seq<Event>)
    requires Inv(l) && draft.id == 0 && draft.status == InForce
    requires l == Ledger(map[0 := draft], map[0 := NewEntry(draft, 0, 0, Broadcast, 0)])
    ensures PossibleRun(l, events) && ServedThoughClosed(After(l, events), 0, 1)
  {
    var pull := Pulled(1, 1, [0], 1);
    OnePull(l, draft);
    StepKeepsInv(l, pull);
    var m := Next(l, pull);
    events := ThenWithdraw(m);
    RunFrom(l, pull, events);
    events := [pull] + events;
  }

  lemma ThenWithdraw(l: Ledger) returns (events: seq<Event>)
    requires Inv(l) && 0 in l.policies && l.outbox.Keys == {0} && FirstBroadcast(l.outbox[0], 0)
    requires l.outbox[0].OfferedTo(1) && !l.outbox[0].DeliveredTo(1) && l.outbox[0].action == 0
    ensures PossibleRun(l, events) && ServedThoughClosed(After(l, events), 0, 1)
  {
    var withdraw := Discontinued(0, 2, 1, []);
    WithdrawnWhileOwed(l, 0, 2, 1, [], 0, 1);
    RunFrom(l, withdraw, []);
    events := [withdraw] + [];
  }

  lemma RunFrom(l: Ledger, e: Event, events: seq<Event>)
    requires Possible(l, e) && PossibleRun(Next(l, e), events)
    ensures PossibleRun(l, [e] + events) && After(l, [e] + events) == After(Next(l, e), events)
  {
    assert ([e] + events)[1..] == events;
  }

  /** Agents register on their first pull, so there is always one outside any finite set. */
  lemma {:induction false} Unnamed(named: set<AgentId>) returns (a: AgentId)
    ensures forall b :: b in named ==> b < a
  {
    if named == {} {
      a := 0;
    } else {
      var b :| b in named;
      var rest := Unnamed(named - {b});
      a := if b < rest then rest else b + 1;
      assert forall c :: c in named ==> c == b || c in named - {b};
    }
  }
}
