/** What each operation on an inbox directory leaves in its files, field by field, and what that means later. */
module InboxEffects {
  import opened Claims
  import opened Outbox
  import opened InboxFolder
  import OutboxEffects

  // ---- Receiving ----

  /** Every copy on disk reads like the message, whenever each of them was handled. */
  ghost predicate ReadsLike(f: Folder, m: InboxMessage) {
    && (m.id in f.done ==> f.done[m.id].message.(handledAt := None) == m.(handledAt := None))
    && (m.id in f.active ==> f.active[m.id].message.(handledAt := None) == m.(handledAt := None))
    && (forall l :: l in f.processing && l.id == m.id ==>
          f.processing[l].message.(handledAt := None) == m.(handledAt := None))
  }

  ghost predicate HasCopy(f: Folder, id: InboxId) {
    id in f.done || id in f.active || exists l :: l in f.processing && l.id == id
  }

  /** A message without a copy is written as it came; one with a copy is accepted exactly if all copies read like it. */
  lemma AcceptWritesOrCompares(f: Folder, m: InboxMessage, now: Instant)
    ensures !HasCopy(f, m.id) ==> Accept(f, m, now) == (f.(active := f.active[m.id := File(m, now)]), true)
    ensures HasCopy(f, m.id) ==> Accept(f, m, now).0 == f && (Accept(f, m, now).1 <==> ReadsLike(f, m))
  {
  }

  lemma HoldingIsACopy(f: Folder, m: InboxMessage)
    ensures Holds(f, m) <==> HasCopy(f, m.id) && ReadsLike(f, m)
  {
  }

  // ---- Recovering, listing and claiming ----

  ghost predicate Stale(file: File, now: Instant, staleAfter: Instant) {
    file.modified <= now && now - file.modified >= staleAfter
  }

  ghost predicate GivenBack(f: Folder, listing: seq<Lease>, now: Instant, staleAfter: Instant, l: Lease) {
    l in listing && l in f.processing && Stale(f.processing[l], now, staleAfter)
  }

  lemma {:induction false} LeasesAfterRecovery(f: Folder, listing: seq<Lease>, now: Instant, staleAfter: Instant,
                                               l: Lease)
    requires Inv(f)
    ensures var g := RecoverAll(f, listing, now, staleAfter);
            && (l in g.processing <==> l in f.processing && !GivenBack(f, listing, now, staleAfter, l))
            && (l in g.processing ==> g.processing[l] == f.processing[l])
    decreases |listing|
  {
    if listing != [] {
      var init, last := listing[..|listing| - 1], listing[|listing| - 1];
      assert listing == init + [last];
      LeasesAfterRecovery(f, init, now, staleAfter, l);
      LeasesAfterRecovery(f, init, now, staleAfter, last);
    }
  }

  /** Exactly the listed leases whose files are stale end, and their messages return unless they were done. */
  lemma {:induction false} RecoveringGivesBack(f: Folder, listing: seq<Lease>, now: Instant, staleAfter: Instant,
                                               l: Lease)
    requires Inv(f)
    ensures var g := RecoverAll(f, listing, now, staleAfter);
            && (l in g.processing <==> l in f.processing && !GivenBack(f, listing, now, staleAfter, l))
            && (GivenBack(f, listing, now, staleAfter, l) && l.id !in f.done ==>
                  l.id in g.active && g.active[l.id] == f.processing[l])
            && (GivenBack(f, listing, now, staleAfter, l) && l.id in f.done ==> l.id !in g.active)
    decreases |listing|
  {
    LeasesAfterRecovery(f, listing, now, staleAfter, l);
    if listing != [] {
      var init, last := listing[..|listing| - 1], listing[|listing| - 1];
      assert listing == init + [last];
      RecoverAllKeeps(f, init, now, staleAfter);
      RecoveringGivesBack(f, init, now, staleAfter, l);
      LeasesAfterRecovery(f, init, now, staleAfter, last);
    }
  }

  /** A scan removes exactly the active files beside a done file, and offers what is left and not remembered. */
  lemma ScanningCleans(f: Folder, seen: set<InboxId>, id: InboxId)
    ensures var g := Cleaned(f);
            && g.done == f.done && g.processing == f.processing
            && (id in g.active <==> id in f.active && id !in f.done)
            && (id in g.active ==> g.active[id] == f.active[id])
    ensures id in Claimable(f, seen) <==> id in f.active && id !in f.done && id !in seen
  {
  }

  /** A claim takes what is active after recovery, not done and not remembered. */
  lemma ClaimingTakes(f: Folder, s: Step, id: InboxId)
    requires s.Claiming?
    ensures var g := RecoverAll(f, s.listing, s.now, s.staleAfter);
            id in Taken(f, s) <==> id in g.active && id !in g.done && id !in s.seen
  {
  }

  lemma ClaimingIsTaking(f: Folder, s: Step)
    requires s.Claiming?
    ensures var c := Cleaned(RecoverAll(f, s.listing, s.now, s.staleAfter));
            Taken(f, s) == c.active.Keys - s.seen && Next(f, s) == Claimed(c, c.active.Keys - s.seen, s.serial)
  {
  }

  /** It moves each file it takes to its lease, and leaves the other ones as the scan left them. */
  lemma ClaimingMoves(f: Folder, s: Step, id: InboxId)
    requires Inv(f) && s.Claiming?
    ensures var c := Cleaned(RecoverAll(f, s.listing, s.now, s.staleAfter));
            Moves(c, Next(f, s), Taken(f, s), s.serial, id)
  {
    RecoverAllKeeps(f, s.listing, s.now, s.staleAfter);
    var c := Cleaned(RecoverAll(f, s.listing, s.now, s.staleAfter));
    CleanedKeeps(RecoverAll(f, s.listing, s.now, s.staleAfter));
    ClaimingIsTaking(f, s);
    TakingMoves(c, c.active.Keys - s.seen, s.serial, id);
  }

  ghost predicate Moves(f: Folder, h: Folder, ids: set<InboxId>, serial: InboxId -> nat, id: InboxId) {
    var l := Lease(id, serial(id));
    && (id in ids ==> id in f.active && id !in h.active && l in h.processing && h.processing[l] == f.active[id])
    && (id !in ids ==> (id in h.active <==> id in f.active) && (id in f.active ==> h.active[id] == f.active[id]))
    && h.done == f.done
  }

  lemma TakingMoves(f: Folder, ids: set<InboxId>, serial: InboxId -> nat, id: InboxId)
    requires Inv(f) && ids <= f.active.Keys
    ensures Moves(f, Claimed(f, ids, serial), ids, serial, id)
  {
    ClaimedFiles(f, ids, serial, Lease(id, serial(id)));
  }

  /** Of two messages offered together the earlier event comes first, then the older file, then the lesser id. */
  lemma OfferedInTime(active: map<InboxId, File>, order: seq<InboxId>, i: nat, j: nat)
    requires InTime(active, order) && i < j < |order|
    ensures order[i] in active && order[j] in active
    ensures var x, y := active[order[i]], active[order[j]];
            var s, t := OutboxEffects.EventTime(x.message.policy), OutboxEffects.EventTime(y.message.policy);
            s < t || (s == t && (x.modified < y.modified || (x.modified == y.modified && order[i] < order[j])))
  {
  }

  // ---- Finishing ----

  ghost predicate FinishedAs(g: Folder, id: InboxId, file: File, now: Instant) {
    id in g.done && g.done[id].message == file.message.(handledAt := Some(now))
  }

  /** Finishing an active message writes it as handled now; a crash may leave the active file behind. */
  lemma AckingWritesDone(f: Folder, id: InboxId, now: Instant, crashed: bool)
    ensures var g := InboxFolder.Ack(f, id, now, crashed);
            && (id in f.active ==> FinishedAs(g, id, f.active[id], now) && (id in g.active <==> crashed))
            && (id !in f.active ==> g == f)
            && g.processing == f.processing
            && forall k :: k != id ==> Untouched(f, g, k)
  {
  }

  ghost predicate Untouched(f: Folder, g: Folder, id: InboxId) {
    && (id in g.done <==> id in f.done) && (id in f.done ==> g.done[id] == f.done[id])
    && (id in g.active <==> id in f.active) && (id in f.active ==> g.active[id] == f.active[id])
  }

  /**
   Finishing under a lease that is held writes that file as handled now and gives up the lease. If the lease is
   gone, the message was either done, and nothing happens, or is finished as an active one.
   */
  lemma AckingClaimedWritesDone(f: Folder, c: ClaimedMessage, now: Instant, crashed: bool)
    ensures var g := AckClaimed(f, c, now, crashed);
            var id := c.message.id;
            && (c.lease.Some? && c.lease.value in f.processing ==>
                  && FinishedAs(g, id, f.processing[c.lease.value], now)
                  && (c.lease.value in g.processing <==> crashed)
                  && g.active == f.active
                  && forall l :: l != c.lease.value ==> (l in g.processing <==> l in f.processing))
            && (c.lease.Some? && c.lease.value !in f.processing && id in f.done ==> g == f)
            && ((c.lease.None? || (c.lease.value !in f.processing && id !in f.done)) && id in f.active ==>
                  FinishedAs(g, id, f.active[id], now) && (id in g.active <==> crashed) && g.processing == f.processing)
            && (forall k :: k != id ==> Untouched(f, g, k))
  {
  }

  /** A release under a held lease makes the message claimable again, unless it is done or active already. */
  lemma ReleasingGivesBack(f: Folder, c: ClaimedMessage, seen: set<InboxId>)
    requires c.lease.Some?
    ensures var g := Release(f, c);
            var id, l := c.message.id, c.lease.value;
            && g.done == f.done
            && (id in f.done ==> l !in g.processing && g.active == f.active)
            && (id !in f.done && l in f.processing && id !in f.active ==>
                  l !in g.processing && id in g.active && g.active[id] == f.processing[l] &&
                  (id !in seen ==> id in Claimable(g, seen)))
            && (id !in f.done && (l !in f.processing || id in f.active) ==> g == f)
  {
  }

  /** The step finishes a message that is active or held under the lease it names. */
  ghost predicate Finishes(f: Folder, s: Step, id: InboxId) {
    match s
    case Acking(k, _, _) => k == id && id in f.active
    case AckingClaimed(c, _, _) =>
      c.message.id == id &&
      if c.lease.Some? && c.lease.value in f.processing then true else id in f.active || (c.lease.Some? && id in f.done)
    case _ => false
  }

  /** Once a message has been finished, with or without a crash, no later claim or listing in any run returns it. */
  lemma FinishedIsOver(f: Folder, finish: Step, id: InboxId, steps: seq<Step>, later: Step, seen: set<InboxId>)
    requires Inv(f) && WellFormed(finish) && Finishes(f, finish, id) && AllWellFormed(steps)
    ensures id in After(Next(f, finish), steps).done
    ensures id !in Taken(After(Next(f, finish), steps), later)
    ensures id !in Claimable(After(Next(f, finish), steps), seen)
  {
    StepKeeps(f, finish);
    match finish {
      case Acking(_, now, crashed) => AckingWritesDone(f, id, now, crashed);
      case AckingClaimed(c, now, crashed) => AckingClaimedWritesDone(f, c, now, crashed);
      case _ =>
    }
    assert id in Next(f, finish).done;
    RunKeeps(Next(f, finish), steps);
    DoneIsNeverTaken(Next(f, finish), steps, id, later, seen);
  }
}
