/**
 One agent's inbox directory. A message is an active file, a processing file under a lease, a done
 file, or a done file beside a leftover that a crash kept from being removed. Several readers share it.
 */
module InboxFolder {
  import opened Claims
  import opened Outbox

  /** A processing file name: the message id, then the claiming process and a random suffix. */
  datatype Lease = Lease(id: InboxId, serial: nat)

  /** Renaming a file keeps its modification time. */
  datatype File = File(message: InboxMessage, modified: Instant)

  datatype Folder = Folder(active: map<InboxId, File>, processing: map<Lease, File>, done: map<InboxId, File>)

  /** What a reader holds after claiming; without a lease it is a plain listed message. */
  datatype ClaimedMessage = ClaimedMessage(message: InboxMessage, lease: Option<Lease>)

  function Snapshot(m: InboxMessage): InboxMessage {
    m.(handledAt := None)
  }

  predicate Leased(f: Folder, id: InboxId) {
    exists l :: l in f.processing && l.id == id
  }

  // ---- Receiving ----

  /** Every copy on disk is the message offered, apart from when it was handled. */
  predicate CopiesMatch(f: Folder, m: InboxMessage) {
    && (m.id in f.done ==> Snapshot(f.done[m.id].message) == Snapshot(m))
    && (m.id in f.active ==> Snapshot(f.active[m.id].message) == Snapshot(m))
    && (forall l :: l in f.processing && l.id == m.id ==> Snapshot(f.processing[l].message) == Snapshot(m))
  }

  predicate Known(f: Folder, id: InboxId) {
    id in f.done || id in f.active || Leased(f, id)
  }

  /** A new message is written; a redelivered one is only compared. */
  function Accept(f: Folder, m: InboxMessage, now: Instant): (Folder, bool) {
    if Known(f, m.id) then (f, CopiesMatch(f, m))
    else (f.(active := f.active[m.id := File(m, now)]), true)
  }

  // ---- Leases ----

  predicate Expired(file: File, now: Instant, staleAfter: Instant) {
    file.modified <= now && now - file.modified >= staleAfter
  }

  function Recover(f: Folder, l: Lease): Folder
    requires l in f.processing
  {
    var file := f.processing[l];
    var id := file.message.id;
    if id in f.done || id in f.active then f.(processing := f.processing - {l})
    else f.(processing := f.processing - {l}, active := f.active[id := file])
  }

  /** Stale leases are recovered one by one, in directory order. */
  function RecoverAll(f: Folder, listing: seq<Lease>, now: Instant, staleAfter: Instant): Folder
    decreases |listing|
  {
    if listing == [] then f else
      var g := RecoverAll(f, listing[..|listing| - 1], now, staleAfter);
      var l := listing[|listing| - 1];
      if l in g.processing && Expired(g.processing[l], now, staleAfter) then Recover(g, l) else g
  }

  /** Active files beside a done file are leftovers of a crashed acknowledgement. */
  function Cleaned(f: Folder): Folder {
    f.(active := f.active - f.done.Keys)
  }

  function Claimable(f: Folder, seen: set<InboxId>): set<InboxId> {
    Cleaned(f).active.Keys - seen
  }

  /** Event time, then the time of the file, then the id. */
  predicate Sooner(active: map<InboxId, File>, x: InboxId, y: InboxId)
    requires x in active && y in active
  {
    var f, g := active[x], active[y];
    f.message.EventAt() < g.message.EventAt() ||
    (f.message.EventAt() == g.message.EventAt() && (f.modified < g.modified || (f.modified == g.modified && x < y)))
  }

  /** The order in which a reader hands out active messages. */
  ghost predicate InTime(active: map<InboxId, File>, order: seq<InboxId>) {
    (forall i :: 0 <= i < |order| ==> order[i] in active) &&
    forall i, j :: 0 <= i < j < |order| ==> Sooner(active, order[i], order[j])
  }

  /** `order` lists exactly `ids`, in the order of their files. */
  ghost predicate Lists(active: map<InboxId, File>, order: seq<InboxId>, ids: set<InboxId>) {
    InTime(active, order) && forall id :: id in order <==> id in ids
  }

  /** Each id moves to a processing file of its own. */
  function Claimed(f: Folder, ids: set<InboxId>, serial: InboxId -> nat): Folder
    requires ids <= f.active.Keys
  {
    f.(active := f.active - ids,
       processing := f.processing + map l: Lease | l in (set id | id in ids :: Lease(id, serial(id))) :: f.active[l.id])
  }

  function ClaimPending(f: Folder, listing: seq<Lease>, now: Instant, staleAfter: Instant, seen: set<InboxId>,
                        serial: InboxId -> nat): (Folder, set<InboxId>)
  {
    var g := Cleaned(RecoverAll(f, listing, now, staleAfter));
    var ids := g.active.Keys - seen;
    (Claimed(g, ids, serial), ids)
  }

  // ---- Finishing ----

  function Handled(file: File, now: Instant): File {
    File(file.message.(handledAt := Some(now)), now)
  }

  /** A crash may strike after the done file is written and before the live file is removed. */
  function Ack(f: Folder, id: InboxId, now: Instant, crashed: bool): Folder {
    if id !in f.active then f else
      var g := f.(done := f.done[id := Handled(f.active[id], now)]);
      if crashed then g else g.(active := g.active - {id})
  }

  function AckClaimed(f: Folder, c: ClaimedMessage, now: Instant, crashed: bool): Folder {
    var id := c.message.id;
    if c.lease == None then Ack(f, id, now, crashed)
    else if c.lease.value in f.processing then
      var g := f.(done := f.done[id := Handled(f.processing[c.lease.value], now)]);
      if crashed then g else g.(processing := g.processing - {c.lease.value})
    else if id in f.done then f
    else Ack(f, id, now, crashed)
  }

  function Release(f: Folder, c: ClaimedMessage): Folder {
    var id := c.message.id;
    if c.lease == None then f
    else if id in f.done then f.(processing := f.processing - {c.lease.value})
    else if c.lease.value !in f.processing || id in f.active then f
    else f.(processing := f.processing - {c.lease.value}, active := f.active[id := f.processing[c.lease.value]])
  }

  // ---- Steps ----

  /** One operation by any reader, whatever it remembers in `seen` and however old its claims are. */
  datatype Step =
    | Accepting(message: InboxMessage, now: Instant)
    | Listing
    | Claiming(listing: seq<Lease>, now: Instant, staleAfter: Instant, seen: set<InboxId>, serial: InboxId -> nat)
    | Acking(id: InboxId, now: Instant, crashed: bool)
    | AckingClaimed(claimed: ClaimedMessage, now: Instant, crashed: bool)
    | Releasing(claimed: ClaimedMessage)

  /** A lease belongs to the message it was taken for. */
  ghost predicate WellFormed(s: Step) {
    match s
    case AckingClaimed(c, _, _) => c.lease.Some? ==> c.lease.value.id == c.message.id
    case Releasing(c) => c.lease.Some? ==> c.lease.value.id == c.message.id
    case _ => true
  }

  function Next(f: Folder, s: Step): Folder {
    match s
    case Accepting(m, now) => Accept(f, m, now).0
    case Listing => Cleaned(f)
    case Claiming(listing, now, staleAfter, seen, serial) => ClaimPending(f, listing, now, staleAfter, seen, serial).0
    case Acking(id, now, crashed) => Ack(f, id, now, crashed)
    case AckingClaimed(c, now, crashed) => AckClaimed(f, c, now, crashed)
    case Releasing(c) => Release(f, c)
  }

  /** The ids a step hands out for processing. */
  function Taken(f: Folder, s: Step): set<InboxId> {
    match s
    case Claiming(listing, now, staleAfter, seen, serial) => ClaimPending(f, listing, now, staleAfter, seen, serial).1
    case _ => {}
  }

  // ---- The invariant ----

  ghost predicate Inv(f: Folder) {
    && (forall id :: id in f.active ==> f.active[id].message.id == id)
    && (forall l :: l in f.processing ==> f.processing[l].message.id == l.id)
    && (forall id :: id in f.done ==> f.done[id].message.id == id)
    && (forall l :: l in f.processing ==> l.id !in f.active)
    && (forall l, k :: l in f.processing && k in f.processing && l.id == k.id ==> l == k)
    && OneSnapshot(f)
  }

  /** A leftover beside a done file is the same message. */
  ghost predicate OneSnapshot(f: Folder) {
    && (forall id :: id in f.active && id in f.done ==>
          Snapshot(f.active[id].message) == Snapshot(f.done[id].message))
    && (forall l :: l in f.processing && l.id in f.done ==>
          Snapshot(f.processing[l].message) == Snapshot(f.done[l.id].message))
  }

  /** Some copy of the message exists, and its content up to the handling time is `m`. */
  ghost predicate Holds(f: Folder, m: InboxMessage) {
    Known(f, m.id) && CopiesMatch(f, m)
  }

  /** Messages are kept with their content, and what is done stays done. */
  ghost predicate Keeps(f: Folder, g: Folder) {
    && f.done.Keys <= g.done.Keys
    && forall m :: Holds(f, m) ==> Holds(g, m)
  }

  lemma RecoverKeeps(f: Folder, l: Lease)
    requires Inv(f) && l in f.processing
    ensures Inv(Recover(f, l)) && Keeps(f, Recover(f, l)) && Recover(f, l).done == f.done
  {
    var g := Recover(f, l);
    forall m | Holds(f, m)
      ensures Holds(g, m)
    {
      if Leased(f, m.id) && m.id != l.id {
        var k :| k in f.processing && k.id == m.id;
        assert k in g.processing;
      }
    }
  }

  lemma {:induction false} RecoverAllKeeps(f: Folder, listing: seq<Lease>, now: Instant, staleAfter: Instant)
    requires Inv(f)
    ensures Inv(RecoverAll(f, listing, now, staleAfter))
    ensures Keeps(f, RecoverAll(f, listing, now, staleAfter))
    ensures RecoverAll(f, listing, now, staleAfter).done == f.done
    decreases |listing|
  {
    if listing != [] {
      RecoverAllKeeps(f, listing[..|listing| - 1], now, staleAfter);
      var g := RecoverAll(f, listing[..|listing| - 1], now, staleAfter);
      var l := listing[|listing| - 1];
      if l in g.processing {
        RecoverKeeps(g, l);
      }
    }
  }

  lemma CleanedKeeps(f: Folder)
    requires Inv(f)
    ensures Inv(Cleaned(f)) && Keeps(f, Cleaned(f))
  {
  }

  /** The processing files after a claim: the old ones, and one per claimed id. */
  lemma ClaimedFiles(f: Folder, ids: set<InboxId>, serial: InboxId -> nat, l: Lease)
    requires Inv(f) && ids <= f.active.Keys
    ensures l in Claimed(f, ids, serial).processing <==>
            l in f.processing || (l.id in ids && l.serial == serial(l.id))
    ensures l in f.processing ==> l.id !in ids && Claimed(f, ids, serial).processing[l] == f.processing[l]
    ensures l.id in ids && l.serial == serial(l.id) ==> Claimed(f, ids, serial).processing[l] == f.active[l.id]
  {
    var leases := set id | id in ids :: Lease(id, serial(id));
    assert l in leases <==> l.id in ids && l.serial == serial(l.id);
  }

  lemma ClaimedKeepsInv(f: Folder, ids: set<InboxId>, serial: InboxId -> nat)
    requires Inv(f) && ids <= f.active.Keys
    ensures Inv(Claimed(f, ids, serial))
  {
    var g := Claimed(f, ids, serial);
    forall l | l in g.processing
      ensures g.processing[l].message.id == l.id && l.id !in g.active
      ensures l.id in f.done ==> Snapshot(g.processing[l].message) == Snapshot(f.done[l.id].message)
    {
      ClaimedFiles(f, ids, serial, l);
    }
    forall l, k | l in g.processing && k in g.processing && l.id == k.id
      ensures l == k
    {
      ClaimedFiles(f, ids, serial, l);
      ClaimedFiles(f, ids, serial, k);
    }
  }

  lemma ClaimedKeeps(f: Folder, ids: set<InboxId>, serial: InboxId -> nat)
    requires Inv(f) && ids <= f.active.Keys
    ensures Inv(Claimed(f, ids, serial)) && Keeps(f, Claimed(f, ids, serial))
  {
    ClaimedKeepsInv(f, ids, serial);
    var g := Claimed(f, ids, serial);
    forall m | Holds(f, m)
      ensures Holds(g, m)
    {
      if Leased(f, m.id) {
        var k :| k in f.processing && k.id == m.id;
        ClaimedFiles(f, ids, serial, k);
        assert Leased(g, m.id);
      } else if m.id in ids {
        ClaimedFiles(f, ids, serial, Lease(m.id, serial(m.id)));
        assert Leased(g, m.id);
      }
      forall l | l in g.processing && l.id == m.id
        ensures Snapshot(g.processing[l].message) == Snapshot(m)
      {
        ClaimedFiles(f, ids, serial, l);
      }
    }
  }

  lemma AckKeeps(f: Folder, id: InboxId, now: Instant, crashed: bool)
    requires Inv(f)
    ensures Inv(Ack(f, id, now, crashed)) && Keeps(f, Ack(f, id, now, crashed))
  {
    var g := Ack(f, id, now, crashed);
    forall m | Holds(f, m)
      ensures Holds(g, m)
    {
      if Leased(f, m.id) {
        assert Leased(g, m.id);
      }
    }
  }

  lemma AckClaimedHolds(f: Folder, c: ClaimedMessage, now: Instant, crashed: bool, m: InboxMessage)
    requires Inv(f) && WellFormed(AckingClaimed(c, now, crashed)) && Holds(f, m)
    requires c.lease.Some? && c.lease.value in f.processing
    ensures Holds(AckClaimed(f, c, now, crashed), m)
  {
  }

  lemma AckClaimedKeeps(f: Folder, c: ClaimedMessage, now: Instant, crashed: bool)
    requires Inv(f) && WellFormed(AckingClaimed(c, now, crashed))
    ensures Inv(AckClaimed(f, c, now, crashed)) && Keeps(f, AckClaimed(f, c, now, crashed))
  {
    if c.lease.Some? && c.lease.value in f.processing {
      forall m | Holds(f, m)
        ensures Holds(AckClaimed(f, c, now, crashed), m)
      {
        AckClaimedHolds(f, c, now, crashed, m);
      }
    } else {
      AckKeeps(f, c.message.id, now, crashed);
    }
  }

  lemma ReleaseHolds(f: Folder, c: ClaimedMessage, m: InboxMessage)
    requires Inv(f) && WellFormed(Releasing(c)) && Holds(f, m)
    ensures Holds(Release(f, c), m)
  {
  }

  lemma ReleaseKeeps(f: Folder, c: ClaimedMessage)
    requires Inv(f) && WellFormed(Releasing(c))
    ensures Inv(Release(f, c)) && Keeps(f, Release(f, c))
  {
    forall m | Holds(f, m)
      ensures Holds(Release(f, c), m)
    {
      ReleaseHolds(f, c, m);
    }
  }

  lemma AcceptKeeps(f: Folder, m: InboxMessage, now: Instant)
    requires Inv(f)
    ensures Inv(Accept(f, m, now).0) && Keeps(f, Accept(f, m, now).0)
    ensures Accept(f, m, now).1 <==> Holds(Accept(f, m, now).0, m)
  {
    var g := Accept(f, m, now).0;
    forall n | Holds(f, n)
      ensures Holds(g, n)
    {
      if Leased(f, n.id) {
        assert Leased(g, n.id);
      }
    }
  }

  /** No operation, crash or interleaving loses a message, alters it, or leaves two live copies of it. */
  lemma StepKeeps(f: Folder, s: Step)
    requires Inv(f) && WellFormed(s)
    ensures Inv(Next(f, s)) && Keeps(f, Next(f, s))
  {
    match s
    case Accepting(m, now) => AcceptKeeps(f, m, now);
    case Listing => CleanedKeeps(f);
    case Claiming(listing, now, staleAfter, seen, serial) =>
      var g := RecoverAll(f, listing, now, staleAfter);
      RecoverAllKeeps(f, listing, now, staleAfter);
      CleanedKeeps(g);
      ClaimedKeeps(Cleaned(g), Cleaned(g).active.Keys - seen, serial);
    case Acking(id, now, crashed) => AckKeeps(f, id, now, crashed);
    case AckingClaimed(c, now, crashed) => AckClaimedKeeps(f, c, now, crashed);
    case Releasing(c) => ReleaseKeeps(f, c);
  }

  // ---- Runs ----

  ghost predicate AllWellFormed(steps: seq<Step>) {
    forall s :: s in steps ==> WellFormed(s)
  }

  function After(f: Folder, steps: seq<Step>): Folder
    decreases |steps|
  {
    if steps == [] then f else After(Next(f, steps[0]), steps[1..])
  }

  /** Over any interleaving of readers, with crashes, an accepted message keeps exactly one live copy or a done copy. */
  lemma {:induction false} RunKeeps(f: Folder, steps: seq<Step>)
    requires Inv(f) && AllWellFormed(steps)
    ensures Inv(After(f, steps)) && Keeps(f, After(f, steps))
    decreases |steps|
  {
    if steps != [] {
      assert steps[0] in steps;
      StepKeeps(f, steps[0]);
      RunKeeps(Next(f, steps[0]), steps[1..]);
    }
  }

  /** The number of live files of a message. */
  function LiveCopies(f: Folder, id: InboxId): nat {
    (if id in f.active then 1 else 0) + |set l | l in f.processing && l.id == id|
  }

  /** An accepted message has a done copy or exactly one live copy, and never two live copies. */
  lemma AcceptedIsConserved(f: Folder, m: InboxMessage, now: Instant, steps: seq<Step>)
    requires Inv(f) && AllWellFormed(steps) && Accept(f, m, now).1
    ensures var g := After(Accept(f, m, now).0, steps);
            Holds(g, m) && LiveCopies(g, m.id) <= 1 && (m.id !in g.done ==> LiveCopies(g, m.id) == 1)
  {
    AcceptKeeps(f, m, now);
    RunKeeps(Accept(f, m, now).0, steps);
    var g := After(Accept(f, m, now).0, steps);
    AtMostOneLive(g, m.id);
  }

  lemma AtMostOneLive(f: Folder, id: InboxId)
    requires Inv(f)
    ensures LiveCopies(f, id) <= 1
    ensures LiveCopies(f, id) == 1 <==> id in f.active || Leased(f, id)
  {
    var leases := set l | l in f.processing && l.id == id;
    if Leased(f, id) {
      var l :| l in f.processing && l.id == id;
      assert leases == {l};
    } else {
      assert leases == {};
    }
  }

  /** Redelivering the same message is always accepted, whatever happened to it in between. */
  lemma RedeliveryIsAccepted(f: Folder, m: InboxMessage, now: Instant, steps: seq<Step>, again: Instant)
    requires Inv(f) && AllWellFormed(steps) && Accept(f, m, now).1
    ensures Accept(After(Accept(f, m, now).0, steps), m, again) == (After(Accept(f, m, now).0, steps), true)
  {
    AcceptedIsConserved(f, m, now, steps);
  }

  /** Once a done file exists, no later operation hands the message out or lists it. */
  lemma DoneIsNeverTaken(f: Folder, steps: seq<Step>, id: InboxId, s: Step, seen: set<InboxId>)
    requires Inv(f) && AllWellFormed(steps) && id in f.done
    ensures id !in Taken(After(f, steps), s)
    ensures id !in Claimable(After(f, steps), seen)
  {
    RunKeeps(f, steps);
    match s
    case Claiming(listing, now, staleAfter, _, _) =>
      RecoverAllKeeps(After(f, steps), listing, now, staleAfter);
    case _ =>
  }

  // ---- Exclusive claims ----

  /** The step gives up a claim on `id`: a release under a lease still held, or the recovery of a stale lease. */
  ghost predicate Frees(f: Folder, s: Step, id: InboxId) {
    match s
    case Releasing(c) => c.message.id == id && id !in f.done && c.lease.Some? && c.lease.value in f.processing
    case Claiming(listing, now, staleAfter, _, _) =>
      exists l :: l in listing && l.id == id && l in f.processing && Expired(f.processing[l], now, staleAfter)
    case _ => false
  }

  ghost predicate NeverFreed(f: Folder, steps: seq<Step>, id: InboxId)
    decreases |steps|
  {
    steps == [] || (!Frees(f, steps[0], id) && NeverFreed(Next(f, steps[0]), steps[1..], id))
  }

  lemma {:induction false} RecoverOthers(f: Folder, listing: seq<Lease>, now: Instant, staleAfter: Instant, id: InboxId)
    requires Inv(f) && id !in f.active
    requires forall l :: l in listing && l.id == id && l in f.processing ==> !Expired(f.processing[l], now, staleAfter)
    ensures var g := RecoverAll(f, listing, now, staleAfter);
            && id !in g.active
            && forall l: Lease :: l.id == id ==>
                 && (l in g.processing <==> l in f.processing)
                 && (l in f.processing ==> g.processing[l] == f.processing[l])
    decreases |listing|
  {
    if listing != [] {
      var init, l := listing[..|listing| - 1], listing[|listing| - 1];
      assert l in listing;
      RecoverOthers(f, init, now, staleAfter, id);
      RecoverAllKeeps(f, init, now, staleAfter);
    }
  }

  lemma UnfreedStaysTaken(f: Folder, s: Step, id: InboxId)
    requires Inv(f) && WellFormed(s) && Known(f, id) && id !in f.active && !Frees(f, s, id)
    ensures Known(Next(f, s), id) && id !in Next(f, s).active && id !in Taken(f, s)
  {
    StepKeeps(f, s);
    KnownLasts(f, Next(f, s), id);
    match s
    case Claiming(listing, now, staleAfter, seen, serial) =>
      RecoverOthers(f, listing, now, staleAfter, id);
    case _ =>
  }

  lemma KnownLasts(f: Folder, g: Folder, id: InboxId)
    requires Inv(f) && Known(f, id) && Keeps(f, g)
    ensures Known(g, id)
  {
    var m: InboxMessage;
    if id in f.active {
      m := f.active[id].message;
    } else if l :| l in f.processing && l.id == id {
      m := f.processing[l].message;
    } else {
      m := f.done[id].message;
    }
    assert Holds(f, m);
  }

  /** Two claims of one message need a release or a stale recovery between them. */
  lemma {:induction false} ClaimIsExclusive(f: Folder, first: Step, between: seq<Step>, second: Step, id: InboxId)
    requires Inv(f) && WellFormed(first) && AllWellFormed(between) && WellFormed(second)
    requires id in Taken(f, first)
    requires NeverFreed(Next(f, first), between + [second], id)
    ensures id !in Taken(After(Next(f, first), between), second)
  {
    StepKeeps(f, first);
    var g := Next(f, first);
    assert id !in g.active && Known(g, id) by {
      RecoverAllKeeps(f, first.listing, first.now, first.staleAfter);
      var h := Cleaned(RecoverAll(f, first.listing, first.now, first.staleAfter));
      CleanedKeeps(RecoverAll(f, first.listing, first.now, first.staleAfter));
      ClaimedFiles(h, h.active.Keys - first.seen, first.serial, Lease(id, first.serial(id)));
      assert Lease(id, first.serial(id)) in g.processing;
    }
    TakenUntilFreed(g, between, second, id);
  }

  lemma {:induction false} TakenUntilFreed(f: Folder, between: seq<Step>, second: Step, id: InboxId)
    requires Inv(f) && AllWellFormed(between) && WellFormed(second)
    requires Known(f, id) && id !in f.active
    requires NeverFreed(f, between + [second], id)
    ensures id !in Taken(After(f, between), second)
    decreases |between|
  {
    if between == [] {
      assert (between + [second])[0] == second;
      UnfreedStaysTaken(f, second, id);
    } else {
      var s := between[0];
      assert s in between;
      assert (between + [second])[0] == s && (between + [second])[1..] == between[1..] + [second];
      StepKeeps(f, s);
      UnfreedStaysTaken(f, s, id);
      TakenUntilFreed(Next(f, s), between[1..], second, id);
    }
  }

  /**
   A lease is measured from the last write of the message, not from the claim: moving a file keeps its time.
   A claim of an untouched message is up for recovery at `later` exactly when the message itself is that old.
   */
  lemma LeaseAgesFromTheWrite(f: Folder, s: Step, id: InboxId, later: Instant, staleAfter: Instant)
    requires Inv(f) && s.Claiming? && id in Taken(f, s) && id in f.active
    ensures var l := Lease(id, s.serial(id));
            && l in Next(f, s).processing
            && (Expired(Next(f, s).processing[l], later, staleAfter) <==> Expired(f.active[id], later, staleAfter))
  {
    var g := RecoverAll(f, s.listing, s.now, s.staleAfter);
    RecoverAllKeeps(f, s.listing, s.now, s.staleAfter);
    RecoverLeavesActive(f, s.listing, s.now, s.staleAfter, id);
    CleanedKeeps(g);
    var h := Cleaned(g);
    ClaimedFiles(h, h.active.Keys - s.seen, s.serial, Lease(id, s.serial(id)));
  }

  lemma {:induction false} RecoverLeavesActive(f: Folder, listing: seq<Lease>, now: Instant, staleAfter: Instant,
                                               id: InboxId)
    requires Inv(f) && id in f.active
    ensures var g := RecoverAll(f, listing, now, staleAfter); id in g.active && g.active[id] == f.active[id]
    decreases |listing|
  {
    if listing != [] {
      RecoverLeavesActive(f, listing[..|listing| - 1], now, staleAfter, id);
      RecoverAllKeeps(f, listing[..|listing| - 1], now, staleAfter);
    }
  }

  /**
   When a second claim may follow the first at once: exactly when it finds the lease, does not remember the
   message as acknowledged, and the message file had gone unwritten for the limit before either claim.
   */
  lemma SecondClaimTakesItWhen(f: Folder, first: Step, second: Step, id: InboxId)
    requires Inv(f) && first.Claiming? && second.Claiming? && id in Taken(f, first) && id in f.active
    ensures id in Taken(Next(f, first), second) <==>
            && Lease(id, first.serial(id)) in second.listing && id !in second.seen
            && Expired(f.active[id], second.now, second.staleAfter)
  {
    var g := Next(f, first);
    var l := Lease(id, first.serial(id));
    StepKeeps(f, first);
    LeaseAgesFromTheWrite(f, first, id, second.now, second.staleAfter);
    ClaimedOnlyOnce(f, first, id);
    RecoveredExactly(g, second.listing, second.now, second.staleAfter, l);
    RecoverAllKeeps(g, second.listing, second.now, second.staleAfter);
  }

  /** The one lease of a message gives it back exactly if it is listed and stale. */
  lemma RecoveredExactly(f: Folder, listing: seq<Lease>, now: Instant, staleAfter: Instant, l: Lease)
    requires Inv(f) && l in f.processing && l.id !in f.active && l.id !in f.done
    requires forall k: Lease :: k in f.processing && k.id == l.id ==> k == l
    ensures l.id in RecoverAll(f, listing, now, staleAfter).active <==>
            l in listing && Expired(f.processing[l], now, staleAfter)
  {
    if l in listing && Expired(f.processing[l], now, staleAfter) {
      RecoverBrings(f, listing, now, staleAfter, l);
    } else {
      RecoverOthers(f, listing, now, staleAfter, l.id);
    }
  }

  lemma ClaimedOnlyOnce(f: Folder, s: Step, id: InboxId)
    requires Inv(f) && s.Claiming? && id in Taken(f, s) && id in f.active
    ensures id !in Next(f, s).active && id !in Next(f, s).done
    ensures forall k: Lease :: k in Next(f, s).processing && k.id == id ==> k == Lease(id, s.serial(id))
  {
    StepKeeps(f, s);
    LeaseAgesFromTheWrite(f, s, id, 0, 0);
    RecoverAllKeeps(f, s.listing, s.now, s.staleAfter);
  }

  /** A stale lease that is listed comes back as an active file. */
  lemma {:induction false} RecoverBrings(f: Folder, listing: seq<Lease>, now: Instant, staleAfter: Instant, l: Lease)
    requires Inv(f) && l in f.processing && l in listing && Expired(f.processing[l], now, staleAfter)
    requires l.id !in f.done
    ensures l.id in RecoverAll(f, listing, now, staleAfter).active
    decreases |listing|
  {
    var init, last := listing[..|listing| - 1], listing[|listing| - 1];
    var g := RecoverAll(f, init, now, staleAfter);
    RecoverAllKeeps(f, init, now, staleAfter);
    if l in init {
      RecoverBrings(f, init, now, staleAfter, l);
    } else {
      RecoverLeavesLease(f, init, now, staleAfter, l);
    }
  }

  lemma {:induction false} RecoverLeavesLease(f: Folder, listing: seq<Lease>, now: Instant, staleAfter: Instant,
                                              l: Lease)
    requires Inv(f) && l in f.processing && l !in listing
    ensures var g := RecoverAll(f, listing, now, staleAfter);
            l in g.processing && g.processing[l] == f.processing[l]
    decreases |listing|
  {
    if listing != [] {
      RecoverLeavesLease(f, listing[..|listing| - 1], now, staleAfter, l);
      RecoverAllKeeps(f, listing[..|listing| - 1], now, staleAfter);
    }
  }

  /** Two readers claiming at the same instant can both be given a message that has waited past the limit. */
  lemma TwoClaimsAtOneInstant(m: InboxMessage, staleAfter: nat)
    ensures exists f: Folder, first: Step, second: Step ::
              Inv(f) && first.Claiming? && second.Claiming? && first.now == second.now &&
              first.staleAfter == second.staleAfter == staleAfter &&
              m.id in Taken(f, first) && m.id in Taken(Next(f, first), second)
  {
    var f := Folder(map[m.id := File(m, 0)], map[], map[]);
    var first := Claiming([], staleAfter, staleAfter, {}, (id: InboxId) => 0);
    var second := Claiming([Lease(m.id, 0)], staleAfter, staleAfter, {}, (id: InboxId) => 1);
    assert Inv(f);
    assert Cleaned(f).active.Keys == {m.id};
    assert m.id in Taken(f, first);
    SecondClaimTakesItWhen(f, first, second, m.id);
  }
}
