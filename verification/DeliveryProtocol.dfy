/**
 The Maintainer, a network that loses, delays and repeats messages, and agents that crash. A pull reply
 and a receipt stay in flight for ever, so each may arrive never, once or many times, in any order.
 */
module DeliveryProtocol {
  import opened Claims
  import opened Outbox
  import Sequences
  import Ledgers = OutboxRuns
  import Inbox = InboxFolder
  import Effects = InboxEffects

  datatype System = System(
    ledger: Ledger,
    folders: map<AgentId, Inbox.Folder>,
    // Pull replies in flight, message by message.
    replies: set<(AgentId, InboxMessage)>,
    // What each agent's own acceptance has returned Ok for.
    accepted: set<(AgentId, InboxId)>,
    // Receipt batches in flight.
    receipts: set<(AgentId, seq<InboxId>)>)

  const NO_FILES := Inbox.Folder(map[], map[], map[])

  const START := System(Ledgers.EMPTY, map[], {}, {}, {})

  function FolderOf(s: System, a: AgentId): Inbox.Folder {
    if a in s.folders then s.folders[a] else NO_FILES
  }

  datatype Step =
    | AtMaintainer(event: Ledgers.Event)
    | ReplyArrives(agent: AgentId, message: InboxMessage, now: Instant)
    | SendsReceipt(agent: AgentId, ids: seq<InboxId>)
    | ReceiptArrives(agent: AgentId, ids: seq<InboxId>, now: Instant, written: nat)
    | AtAgent(agent: AgentId, step: Inbox.Step)

  ghost predicate Possible(s: System, step: Step) {
    match step
    case AtMaintainer(e) => !e.Acked? && Ledgers.Possible(s.ledger, e)
    case ReplyArrives(a, m, now) => (a, m) in s.replies
    case SendsReceipt(a, ids) => forall id :: id in ids ==> (a, id) in s.accepted
    case ReceiptArrives(a, ids, now, written) =>
      (a, ids) in s.receipts && Ledgers.Possible(s.ledger, Ledgers.Acked(a, ids, now, written))
    case AtAgent(a, local) => !local.Accepting? && Inbox.WellFormed(local)
  }

  /** A pull that recorded all of its offers sends a reply; one cut short sends none. */
  ghost function Replies(l: Ledger, e: Ledgers.Event): set<(AgentId, InboxMessage)> {
    if e.Pulled? && e.offers == |e.order| then
      set id | id in e.order && id in l.outbox :: (e.agent, l.outbox[id].message)
    else {}
  }

  ghost function Next(s: System, step: Step): System
    requires Possible(s, step)
  {
    match step
    case AtMaintainer(e) =>
      s.(ledger := Ledgers.Next(s.ledger, e), replies := s.replies + Replies(s.ledger, e))
    case ReplyArrives(a, m, now) =>
      var (folder, ok) := Inbox.Accept(FolderOf(s, a), m, now);
      s.(folders := s.folders[a := folder], accepted := if ok then s.accepted + {(a, m.id)} else s.accepted)
    case SendsReceipt(a, ids) =>
      s.(receipts := s.receipts + {(a, ids)})
    case ReceiptArrives(a, ids, now, written) =>
      s.(ledger := Ledgers.Next(s.ledger, Ledgers.Acked(a, ids, now, written)))
    case AtAgent(a, local) =>
      s.(folders := s.folders[a := Inbox.Next(FolderOf(s, a), local)])
  }

  ghost predicate PossibleRun(s: System, steps: seq<Step>)
    decreases |steps|
  {
    steps == [] || (Possible(s, steps[0]) && PossibleRun(Next(s, steps[0]), steps[1..]))
  }

  ghost function After(s: System, steps: seq<Step>): System
    requires PossibleRun(s, steps)
    decreases |steps|
  {
    if steps == [] then s else After(Next(s, steps[0]), steps[1..])
  }

  // ---- The invariant ----

  /** What the folder holds of `id` is what the Maintainer wrote. */
  ghost predicate StoredAsWritten(l: Ledger, f: Inbox.Folder, id: InboxId) {
    id in l.outbox && l.outbox[id].message.id == id && Inbox.CopiesMatch(f, l.outbox[id].message)
  }

  ghost predicate CopiesAreGenuine(l: Ledger, f: Inbox.Folder) {
    forall id :: Inbox.Known(f, id) ==> StoredAsWritten(l, f, id)
  }

  ghost predicate Genuine(l: Ledger, a: AgentId, m: InboxMessage) {
    WasOffered(l, m.id, a) && l.outbox[m.id].message == m
  }

  ghost predicate WasOffered(l: Ledger, id: InboxId, a: AgentId) {
    id in l.outbox && l.outbox[id].OfferedTo(a)
  }

  ghost predicate RepliesAreGenuine(l: Ledger, replies: set<(AgentId, InboxMessage)>) {
    forall r :: r in replies ==> Genuine(l, r.0, r.1)
  }

  ghost predicate AcceptedIsStored(l: Ledger, f: Inbox.Folder, a: AgentId, accepted: set<(AgentId, InboxId)>) {
    forall id: InboxId :: (a, id) in accepted ==> Inbox.Known(f, id) && WasOffered(l, id, a)
  }

  ghost predicate AgentInv(s: System, a: AgentId) {
    Inbox.Inv(FolderOf(s, a)) && CopiesAreGenuine(s.ledger, FolderOf(s, a)) &&
    AcceptedIsStored(s.ledger, FolderOf(s, a), a, s.accepted)
  }

  ghost predicate ReceiptsAreEarned(s: System) {
    forall r, id :: r in s.receipts && id in r.1 ==> (r.0, id) in s.accepted
  }

  ghost predicate DeliveriesAreEarned(l: Ledger, accepted: set<(AgentId, InboxId)>) {
    forall id: InboxId, a: AgentId :: id in l.outbox && l.outbox[id].DeliveredTo(a) ==> (a, id) in accepted
  }

  ghost predicate Inv(s: System) {
    && Ledgers.Inv(s.ledger)
    && (forall a :: AgentInv(s, a))
    && RepliesAreGenuine(s.ledger, s.replies)
    && ReceiptsAreEarned(s)
    && DeliveriesAreEarned(s.ledger, s.accepted)
  }

  // ---- A growing ledger ----

  lemma AgentInvGrows(s: System, t: System, a: AgentId)
    requires AgentInv(s, a) && Ledgers.Extends(s.ledger, t.ledger)
    requires t.folders == s.folders && t.accepted == s.accepted
    ensures AgentInv(t, a)
  {
  }

  lemma RepliesGrow(l: Ledger, m: Ledger, replies: set<(AgentId, InboxMessage)>)
    requires Ledgers.Extends(l, m) && RepliesAreGenuine(l, replies)
    ensures RepliesAreGenuine(m, replies)
  {
  }

  // ---- Steps of the Maintainer ----

  lemma NewRepliesAreGenuine(l: Ledger, e: Ledgers.Event)
    requires Ledgers.Inv(l) && Ledgers.Possible(l, e)
    ensures RepliesAreGenuine(Ledgers.Next(l, e), Replies(l, e))
  {
  }

  /** Only a receipt adds delivery marks. */
  lemma NoNewDeliveries(l: Ledger, e: Ledgers.Event, accepted: set<(AgentId, InboxId)>)
    requires Ledgers.Possible(l, e) && !e.Acked? && DeliveriesAreEarned(l, accepted)
    ensures DeliveriesAreEarned(Ledgers.Next(l, e), accepted)
  {
    forall id | id in Ledgers.Next(l, e).outbox
      ensures Ledgers.Next(l, e).outbox[id].delivered == if id in l.outbox then l.outbox[id].delivered else []
    {
      if e.Published? {
        Ledgers.AnnouncedEntry(l, Draft(e.id, e.messageType, e.name, e.statement, e.scope, e.now, e.agents), e.action,
                               e.now, e.ids, id);
      } else if e.Discontinued? && e.id in l.policies {
        Ledgers.AnnouncedEntry(l, Retired(l.policies[e.id], e.now), e.action, e.now, e.ids, id);
      } else if e.Pulled? {
        assert forall k :: k in e.order[..e.offers] ==> k in e.order;
      }
    }
  }

  lemma LedgerStepKeepsInv(s: System, e: Ledgers.Event)
    requires Inv(s) && Possible(s, AtMaintainer(e))
    ensures Inv(Next(s, AtMaintainer(e)))
  {
    var t := Next(s, AtMaintainer(e));
    Ledgers.StepKeepsInv(s.ledger, e);
    forall a
      ensures AgentInv(t, a)
    {
      AgentInvGrows(s, t, a);
    }
    RepliesGrow(s.ledger, t.ledger, s.replies);
    NewRepliesAreGenuine(s.ledger, e);
    NoNewDeliveries(s.ledger, e, s.accepted);
  }

  lemma NewDeliveriesAreEarned(l: Ledger, a: AgentId, ids: seq<InboxId>, now: Instant, written: nat,
                               accepted: set<(AgentId, InboxId)>)
    requires Ledgers.Possible(l, Ledgers.Acked(a, ids, now, written))
    requires DeliveriesAreEarned(l, accepted) && forall id :: id in ids ==> (a, id) in accepted
    ensures DeliveriesAreEarned(Ledgers.Next(l, Ledgers.Acked(a, ids, now, written)), accepted)
  {
  }

  lemma ReceiptStepKeepsInv(s: System, a: AgentId, ids: seq<InboxId>, now: Instant, written: nat)
    requires Inv(s) && Possible(s, ReceiptArrives(a, ids, now, written))
    ensures Inv(Next(s, ReceiptArrives(a, ids, now, written)))
  {
    var t := Next(s, ReceiptArrives(a, ids, now, written));
    Ledgers.StepKeepsInv(s.ledger, Ledgers.Acked(a, ids, now, written));
    forall b
      ensures AgentInv(t, b)
    {
      AgentInvGrows(s, t, b);
    }
    RepliesGrow(s.ledger, t.ledger, s.replies);
    forall id | id in ids
      ensures (a, id) in s.accepted
    {
      assert (a, ids) in s.receipts && id in (a, ids).1;
    }
    NewDeliveriesAreEarned(s.ledger, a, ids, now, written, s.accepted);
  }

  // ---- Steps of an agent ----

  /** A folder that keeps what it has and gains only messages as written stays genuine. */
  lemma FolderStaysGenuine(l: Ledger, f: Inbox.Folder, g: Inbox.Folder)
    requires CopiesAreGenuine(l, f) && Inbox.Keeps(f, g)
    requires forall id :: Inbox.Known(g, id) && !Inbox.Known(f, id) ==> StoredAsWritten(l, g, id)
    ensures CopiesAreGenuine(l, g)
  {
    forall id | Inbox.Known(g, id)
      ensures StoredAsWritten(l, g, id)
    {
      if Inbox.Known(f, id) {
        assert StoredAsWritten(l, f, id);
        assert Inbox.Holds(f, l.outbox[id].message);
      }
    }
  }

  lemma OtherAgentsUntouched(s: System, t: System, a: AgentId, b: AgentId)
    requires a != b && AgentInv(s, b) && t.ledger == s.ledger
    requires t.folders == s.folders[a := FolderOf(t, a)]
    requires forall id: InboxId :: (b, id) in t.accepted ==> (b, id) in s.accepted
    ensures AgentInv(t, b)
  {
    assert FolderOf(t, b) == FolderOf(s, b);
  }

  lemma ReplyKeepsAgent(s: System, a: AgentId, m: InboxMessage, now: Instant)
    requires AgentInv(s, a) && Genuine(s.ledger, a, m)
    ensures Inbox.Accept(FolderOf(s, a), m, now).1
    ensures AgentInv(s.(folders := s.folders[a := Inbox.Accept(FolderOf(s, a), m, now).0],
                        accepted := s.accepted + {(a, m.id)}), a)
  {
    var f := FolderOf(s, a);
    var g := Inbox.Accept(f, m, now).0;
    Inbox.AcceptKeeps(f, m, now);
    AcceptAdds(f, m, now);
    if Inbox.Known(f, m.id) {
      assert StoredAsWritten(s.ledger, f, m.id);
    }
    FolderStaysGenuine(s.ledger, f, g);
    forall id: InboxId | (a, id) in s.accepted
      ensures Inbox.Known(g, id)
    {
      Inbox.KnownLasts(f, g, id);
    }
  }

  lemma LocalStepKeepsAgent(s: System, a: AgentId, local: Inbox.Step)
    requires AgentInv(s, a) && !local.Accepting? && Inbox.WellFormed(local)
    ensures AgentInv(s.(folders := s.folders[a := Inbox.Next(FolderOf(s, a), local)]), a)
  {
    var f := FolderOf(s, a);
    var g := Inbox.Next(f, local);
    Inbox.StepKeeps(f, local);
    LocalStepAddsNothing(f, local);
    FolderStaysGenuine(s.ledger, f, g);
    forall id: InboxId | (a, id) in s.accepted
      ensures Inbox.Known(g, id)
    {
      Inbox.KnownLasts(f, g, id);
    }
  }

  lemma AcceptAdds(f: Inbox.Folder, m: InboxMessage, now: Instant)
    requires Inbox.Inv(f)
    ensures var g := Inbox.Accept(f, m, now).0;
            && Inbox.Known(g, m.id)
            && forall id :: Inbox.Known(g, id) && !Inbox.Known(f, id) ==> id == m.id && Inbox.CopiesMatch(g, m)
  {
  }

  /** Nothing appears in a folder except by acceptance. */
  lemma LocalStepAddsNothing(f: Inbox.Folder, local: Inbox.Step)
    requires Inbox.Inv(f) && Inbox.WellFormed(local) && !local.Accepting?
    ensures forall id :: Inbox.Known(Inbox.Next(f, local), id) ==> Inbox.Known(f, id)
  {
    forall id | Inbox.Known(Inbox.Next(f, local), id)
      ensures Inbox.Known(f, id)
    {
      if local.Claiming? {
        var g := Inbox.RecoverAll(f, local.listing, local.now, local.staleAfter);
        var h := Inbox.Cleaned(g);
        Inbox.RecoverAllKeeps(f, local.listing, local.now, local.staleAfter);
        Inbox.CleanedKeeps(g);
        ClaimAddsNothing(h, h.active.Keys - local.seen, local.serial, id);
        assert Inbox.Leased(h, id) ==> Inbox.Leased(g, id);
        RecoverAddsNothing(f, local.listing, local.now, local.staleAfter, id);
      } else {
        assert Inbox.Leased(Inbox.Next(f, local), id) ==> Inbox.Leased(f, id);
      }
    }
  }

  lemma ClaimAddsNothing(f: Inbox.Folder, ids: set<InboxId>, serial: InboxId -> nat, id: InboxId)
    requires Inbox.Inv(f) && ids <= f.active.Keys
    requires Inbox.Known(Inbox.Claimed(f, ids, serial), id)
    ensures Inbox.Known(f, id)
  {
    var g := Inbox.Claimed(f, ids, serial);
    if l :| l in g.processing && l.id == id {
      Inbox.ClaimedFiles(f, ids, serial, l);
      assert l in f.processing ==> Inbox.Leased(f, id);
    }
  }

  lemma {:induction false} RecoverAddsNothing(f: Inbox.Folder, listing: seq<Inbox.Lease>, now: Instant,
                                              staleAfter: Instant, id: InboxId)
    requires Inbox.Inv(f) && Inbox.Known(Inbox.RecoverAll(f, listing, now, staleAfter), id)
    ensures Inbox.Known(f, id)
    decreases |listing|
  {
    if listing != [] {
      var g := Inbox.RecoverAll(f, listing[..|listing| - 1], now, staleAfter);
      var l := listing[|listing| - 1];
      Inbox.RecoverAllKeeps(f, listing[..|listing| - 1], now, staleAfter);
      if l in g.processing && Inbox.Expired(g.processing[l], now, staleAfter) {
        assert l.id == id ==> Inbox.Leased(g, id);
        assert Inbox.Leased(Inbox.Recover(g, l), id) ==> Inbox.Leased(g, id);
      }
      RecoverAddsNothing(f, listing[..|listing| - 1], now, staleAfter, id);
    }
  }

  lemma AgentStepKeepsInv(s: System, step: Step)
    requires Inv(s) && Possible(s, step) && (step.ReplyArrives? || step.AtAgent?)
    ensures Inv(Next(s, step))
  {
    var t := Next(s, step);
    var a := step.agent;
    AgentStepKeepsItself(s, step);
    forall b
      ensures AgentInv(t, b)
    {
      if b != a {
        OtherAgentsUntouched(s, t, a, b);
      }
    }
  }

  lemma AgentStepKeepsItself(s: System, step: Step)
    requires Inv(s) && Possible(s, step) && (step.ReplyArrives? || step.AtAgent?)
    ensures AgentInv(Next(s, step), step.agent)
  {
    var a := step.agent;
    assert AgentInv(s, a);
    if step.ReplyArrives? {
      assert Genuine(s.ledger, (a, step.message).0, (a, step.message).1);
      ReplyKeepsAgent(s, a, step.message, step.now);
    } else {
      LocalStepKeepsAgent(s, a, step.step);
    }
  }

  // ---- Runs ----

  lemma StepKeepsInv(s: System, step: Step)
    requires Inv(s) && Possible(s, step)
    ensures Inv(Next(s, step))
  {
    match step
    case AtMaintainer(e) => LedgerStepKeepsInv(s, e);
    case ReplyArrives(_, _, _) => AgentStepKeepsInv(s, step);
    case SendsReceipt(a, ids) => ReceiptSentKeepsInv(s, a, ids);
    case ReceiptArrives(a, ids, now, written) => ReceiptStepKeepsInv(s, a, ids, now, written);
    case AtAgent(_, _) => AgentStepKeepsInv(s, step);
  }

  lemma ReceiptSentKeepsInv(s: System, a: AgentId, ids: seq<InboxId>)
    requires Inv(s) && Possible(s, SendsReceipt(a, ids))
    ensures Inv(Next(s, SendsReceipt(a, ids)))
  {
    var t := Next(s, SendsReceipt(a, ids));
    forall b
      ensures AgentInv(t, b)
    {
      assert AgentInv(s, b) && FolderOf(t, b) == FolderOf(s, b);
    }
  }

  lemma StartInv()
    ensures Inv(START)
  {
  }

  lemma {:induction false} RunKeepsInv(s: System, steps: seq<Step>)
    requires Inv(s) && PossibleRun(s, steps)
    ensures Inv(After(s, steps))
    decreases |steps|
  {
    if steps != [] {
      StepKeepsInv(s, steps[0]);
      RunKeepsInv(Next(s, steps[0]), steps[1..]);
    }
  }

  // ---- What the protocol promises ----

  /** In every reachable state a confirmed message is on the agent's disk, as the Maintainer wrote it. */
  lemma ConfirmedIsDurable(steps: seq<Step>, id: InboxId, a: AgentId)
    requires PossibleRun(START, steps)
    requires id in After(START, steps).ledger.outbox && After(START, steps).ledger.outbox[id].DeliveredTo(a)
    ensures var s := After(START, steps);
            Effects.HasCopy(FolderOf(s, a), id) && s.ledger.outbox[id].message.id == id &&
            Effects.ReadsLike(FolderOf(s, a), s.ledger.outbox[id].message) &&
            s.ledger.outbox[id].OfferedTo(a) &&
            (s.ledger.outbox[id].target.Targeted? ==> s.ledger.outbox[id].target.agent == a)
  {
    StartInv();
    RunKeepsInv(START, steps);
    var s := After(START, steps);
    assert AgentInv(s, a);
    assert (a, id) in s.accepted;
    assert StoredAsWritten(s.ledger, FolderOf(s, a), id);
    Effects.HoldingIsACopy(FolderOf(s, a), s.ledger.outbox[id].message);
    assert Ledgers.MarksInOrder(s.ledger.outbox[id]);
  }

  /** A delayed or repeated reply never conflicts with what the agent has. */
  lemma RepliesAreAccepted(steps: seq<Step>, a: AgentId, m: InboxMessage, now: Instant)
    requires PossibleRun(START, steps)
    ensures (a, m) in After(START, steps).replies ==> Inbox.Accept(FolderOf(After(START, steps), a), m, now).1
  {
    StartInv();
    RunKeepsInv(START, steps);
    var s := After(START, steps);
    assert AgentInv(s, a);
    if (a, m) in s.replies {
      assert Genuine(s.ledger, (a, m).0, (a, m).1);
      ReplyKeepsAgent(s, a, m, now);
    }
  }

  /** A delayed or repeated receipt is never refused. */
  lemma ReceiptsAreHonoured(steps: seq<Step>, a: AgentId, ids: seq<InboxId>, now: Instant)
    requires PossibleRun(START, steps)
    ensures (a, ids) in After(START, steps).receipts ==> Ack(After(START, steps).ledger, a, ids, now).1 == None
  {
    StartInv();
    RunKeepsInv(START, steps);
    var s := After(START, steps);
    assert AgentInv(s, a);
    if (a, ids) in s.receipts {
      forall id | id in ids
        ensures CheckAck(s.ledger, a, id) == None
      {
        assert ((a, ids).0, id) in s.accepted;
        assert WasOffered(s.ledger, id, a);
        assert Ledgers.MarksInOrder(s.ledger.outbox[id]);
      }
    }
  }

  lemma {:induction false} DoneLasts(s: System, steps: seq<Step>, a: AgentId)
    requires Inv(s) && PossibleRun(s, steps)
    ensures FolderOf(s, a).done.Keys <= FolderOf(After(s, steps), a).done.Keys
    decreases |steps|
  {
    if steps != [] {
      var t := Next(s, steps[0]);
      assert AgentInv(s, a);
      StepKeepsInv(s, steps[0]);
      if steps[0].AtAgent? && steps[0].agent == a {
        Inbox.StepKeeps(FolderOf(s, a), steps[0].step);
      } else if steps[0].ReplyArrives? && steps[0].agent == a {
        Inbox.AcceptKeeps(FolderOf(s, a), steps[0].message, steps[0].now);
      } else {
        assert FolderOf(t, a) == FolderOf(s, a);
      }
      DoneLasts(t, steps[1..], a);
    }
  }

  /** Once handled, a message is never handed out again, however often it is redelivered. */
  lemma HandledIsNeverHandedOutAgain(s: System, steps: seq<Step>, a: AgentId, id: InboxId, claim: Inbox.Step,
                                     seen: set<InboxId>)
    requires Inv(s) && PossibleRun(s, steps) && id in FolderOf(s, a).done
    ensures id !in Inbox.Taken(FolderOf(After(s, steps), a), claim)
    ensures id !in Inbox.Claimable(FolderOf(After(s, steps), a), seen)
  {
    DoneLasts(s, steps, a);
    RunKeepsInv(s, steps);
    assert AgentInv(After(s, steps), a);
    Inbox.DoneIsNeverTaken(FolderOf(After(s, steps), a), [], id, claim, seen);
  }

  /** An agent that finishes a message, even if it crashes doing so, is never handed it again in any run. */
  lemma FinishedIsNeverHandedOutAgain(s: System, a: AgentId, finish: Inbox.Step, id: InboxId, steps: seq<Step>,
                                      claim: Inbox.Step, seen: set<InboxId>)
    requires Inv(s) && Possible(s, AtAgent(a, finish)) && Effects.Finishes(FolderOf(s, a), finish, id)
    requires PossibleRun(Next(s, AtAgent(a, finish)), steps)
    ensures var t := After(Next(s, AtAgent(a, finish)), steps);
            id !in Inbox.Taken(FolderOf(t, a), claim) && id !in Inbox.Claimable(FolderOf(t, a), seen)
  {
    assert AgentInv(s, a);
    StepKeepsInv(s, AtAgent(a, finish));
    Effects.FinishedIsOver(FolderOf(s, a), finish, id, [], finish, seen);
    HandledIsNeverHandedOutAgain(Next(s, AtAgent(a, finish)), steps, a, id, claim, seen);
  }
}
