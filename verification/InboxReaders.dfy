/** The inbox directory and its readers, file by file. */
module InboxReaders {
  import opened Claims
  import opened Outbox
  import opened InboxFolder
  import opened InboxEffects

  class InboxDirectory {
    var active: map<InboxId, File>
    var processing: map<Lease, File>
    var done: map<InboxId, File>

    constructor ()
      ensures State() == Folder(map[], map[], map[])
    {
      active, processing, done := map[], map[], map[];
    }

    function State(): Folder
      reads this
    {
      Folder(active, processing, done)
    }
  }

  /** One process's reader. `seen` remembers what it acknowledged; a restart forgets it. */
  class InboxReader {
    const dir: InboxDirectory
    const staleAfter: Instant
    var seen: set<InboxId>

    constructor (dir: InboxDirectory, staleAfter: Instant)
      ensures this.dir == dir && this.staleAfter == staleAfter && seen == {}
    {
      this.dir, this.staleAfter, seen := dir, staleAfter, {};
    }

    method AcceptPulled(m: InboxMessage, now: Instant) returns (ok: bool)
      modifies dir`active
      ensures (dir.State(), ok) == Accept(old(dir.State()), m, now)
      ensures ok ==> HasCopy(dir.State(), m.id) && ReadsLike(dir.State(), m)
    {
      var held := false;
      ok := true;
      if m.id in dir.done {
        held, ok := true, Snapshot(dir.done[m.id].message) == Snapshot(m);
      }
      if m.id in dir.active {
        held, ok := true, ok && Snapshot(dir.active[m.id].message) == Snapshot(m);
      }
      var rest := dir.processing.Keys;
      while rest != {}
        invariant rest <= dir.processing.Keys
        invariant held == (m.id in dir.done || m.id in dir.active ||
                           exists l :: l in dir.processing && l !in rest && l.id == m.id)
        invariant ok == ((m.id in dir.done ==> Snapshot(dir.done[m.id].message) == Snapshot(m)) &&
                         (m.id in dir.active ==> Snapshot(dir.active[m.id].message) == Snapshot(m)) &&
                         (forall l :: l in dir.processing && l !in rest && l.id == m.id ==>
                            Snapshot(dir.processing[l].message) == Snapshot(m)))
        decreases rest
      {
        var l :| l in rest;
        if l.id == m.id {
          held := true;
          ok := ok && Snapshot(dir.processing[l].message) == Snapshot(m);
        }
        rest := rest - {l};
      }
      if !held {
        dir.active := dir.active[m.id := File(m, now)];
      }
    }

    method RecoverStaleProcessing(listing: seq<Lease>, now: Instant)
      modifies dir`active, dir`processing
      ensures dir.State() == RecoverAll(old(dir.State()), listing, now, staleAfter)
    {
      ghost var was := dir.State();
      var i := 0;
      while i < |listing|
        invariant 0 <= i <= |listing|
        invariant dir.done == was.done
        invariant dir.State() == RecoverAll(was, listing[..i], now, staleAfter)
      {
        assert listing[..i + 1][..i] == listing[..i];
        var l := listing[i];
        if l in dir.processing && Expired(dir.processing[l], now, staleAfter) {
          var file := dir.processing[l];
          if file.message.id !in dir.done && file.message.id !in dir.active {
            dir.active := dir.active[file.message.id := file];
          }
          dir.processing := dir.processing - {l};
        }
        i := i + 1;
      }
      assert listing[..i] == listing;
    }

    /** Removes leftovers and returns the ids that remain to be handled. */
    method Scan() returns (ids: set<InboxId>)
      modifies dir`active
      ensures dir.State() == Cleaned(old(dir.State()))
      ensures ids == Claimable(old(dir.State()), seen)
    {
      ghost var was := dir.active;
      ids := {};
      var rest := dir.active.Keys;
      while rest != {}
        invariant rest <= was.Keys
        invariant dir.active == was - (dir.done.Keys - rest)
        invariant ids == was.Keys - dir.done.Keys - rest - seen
        decreases rest
      {
        var id :| id in rest;
        if id in dir.done {
          dir.active := dir.active - {id};
        } else if id !in seen {
          ids := ids + {id};
        }
        rest := rest - {id};
      }
      assert dir.active == was - dir.done.Keys;
    }

    method InsertByTime(sorted: seq<InboxId>, id: InboxId) returns (r: seq<InboxId>)
      requires InTime(dir.active, sorted) && id in dir.active && id !in sorted
      ensures InTime(dir.active, r)
      ensures forall k :: k in r <==> k == id || k in sorted
    {
      var i := 0;
      while i < |sorted| && Sooner(dir.active, sorted[i], id)
        invariant 0 <= i <= |sorted|
        invariant forall j :: 0 <= j < i ==> Sooner(dir.active, sorted[j], id)
      {
        i := i + 1;
      }
      r := sorted[..i] + [id] + sorted[i..];
      assert sorted == sorted[..i] + sorted[i..];
      forall j | i <= j < |sorted|
        ensures Sooner(dir.active, id, sorted[j])
      {
        assert sorted[i] in sorted && sorted[j] in sorted;
        if i < j {
          assert Sooner(dir.active, sorted[i], sorted[j]);
        }
      }
    }

    method SortByTime(ids: set<InboxId>) returns (order: seq<InboxId>)
      requires ids <= dir.active.Keys
      ensures Lists(dir.active, order, ids)
    {
      order := [];
      var rest := ids;
      while rest != {}
        invariant rest <= ids
        invariant Lists(dir.active, order, ids - rest)
        decreases rest
      {
        var id :| id in rest;
        order := InsertByTime(order, id);
        rest := rest - {id};
      }
    }

    method ListPending() returns (messages: seq<InboxMessage>, ghost order: seq<InboxId>)
      modifies dir`active
      ensures dir.State() == Cleaned(old(dir.State()))
      ensures Lists(old(dir.active), order, Claimable(old(dir.State()), seen))
      ensures |messages| == |order|
      ensures forall i :: 0 <= i < |order| ==> messages[i] == old(dir.active)[order[i]].message
    {
      var ids := Scan();
      var listed := SortByTime(ids);
      var active := dir.active;
      messages := seq(|listed|, i requires 0 <= i < |listed| && listed[i] in active => active[listed[i]].message);
      order := listed;
    }

    /** Renames a listed file to its lease. */
    method Take(id: InboxId, lease: Lease) returns (file: File)
      requires id in dir.active
      modifies dir`active, dir`processing
      ensures file == old(dir.active)[id]
      ensures var was := old(dir.State());
              dir.State() == was.(active := was.active - {id}, processing := was.processing[lease := file])
    {
      file := dir.active[id];
      dir.active := dir.active - {id};
      dir.processing := dir.processing[lease := file];
    }

    /** Recovers stale leases, clears leftovers, then moves each remaining message under a lease of its own. */
    method ClaimPending(listing: seq<Lease>, now: Instant, serial: InboxId -> nat)
      returns (claimed: seq<ClaimedMessage>, ghost order: seq<InboxId>)
      modifies dir`active, dir`processing
      ensures var (folder, ids) := InboxFolder.ClaimPending(old(dir.State()), listing, now, staleAfter, seen, serial);
              dir.State() == folder &&
              Lists(Cleaned(RecoverAll(old(dir.State()), listing, now, staleAfter)).active, order, ids)
      ensures |claimed| == |order|
      ensures forall i :: 0 <= i < |order| ==>
                var lease := Lease(order[i], serial(order[i]));
                lease in dir.processing && claimed[i] == ClaimedMessage(dir.processing[lease].message, Some(lease))
    {
      RecoverStaleProcessing(listing, now);
      var ids := Scan();
      var sorted := SortByTime(ids);
      claimed := TakeAll(sorted, ids, serial);
      order := sorted;
    }

    method TakeAll(order: seq<InboxId>, ghost ids: set<InboxId>, serial: InboxId -> nat)
      returns (claimed: seq<ClaimedMessage>)
      requires Lists(dir.active, order, ids)
      modifies dir`active, dir`processing
      ensures dir.State() == Claimed(old(dir.State()), ids, serial) && |claimed| == |order|
      ensures forall i :: 0 <= i < |order| ==>
                claimed[i] == ClaimedMessage(old(dir.active)[order[i]].message, Some(Lease(order[i], serial(order[i]))))
    {
      ghost var before := dir.State();
      ghost var taken: set<InboxId> := {};
      claimed := [];
      for i := 0 to |order|
        invariant |claimed| == i && taken <= before.active.Keys
        invariant forall id :: id in taken <==> id in order[..i]
        invariant dir.State() == Claimed(before, taken, serial)
        invariant forall j :: 0 <= j < i ==>
                    var lease := Lease(order[j], serial(order[j]));
                    claimed[j] == ClaimedMessage(before.active[order[j]].message, Some(lease))
      {
        var id := order[i];
        NotYetListed(before.active, order, i);
        ClaimedOneMore(before, taken, id, serial);
        var file := Take(id, Lease(id, serial(id)));
        claimed := claimed + [ClaimedMessage(file.message, Some(Lease(id, serial(id))))];
        taken := taken + {id};
        assert order[..i + 1] == order[..i] + [id];
      }
      assert order[..|order|] == order;
      assert taken == ids;
    }

    method Ack(id: InboxId, now: Instant)
      modifies this`seen, dir`active, dir`done
      ensures dir.State() == InboxFolder.Ack(old(dir.State()), id, now, false)
      ensures id in old(dir.active) ==> FinishedAs(dir.State(), id, old(dir.active)[id], now) && id !in dir.active
      ensures seen == old(seen) + {id}
    {
      if id in dir.active {
        var file := dir.active[id];
        dir.done := dir.done[id := Handled(file, now)];
        dir.active := dir.active - {id};
      }
      seen := seen + {id};
    }

    method AckClaimed(c: ClaimedMessage, now: Instant)
      modifies this`seen, dir
      ensures dir.State() == InboxFolder.AckClaimed(old(dir.State()), c, now, false)
      ensures c.lease.Some? && c.lease.value in old(dir.processing) ==>
                && FinishedAs(dir.State(), c.message.id, old(dir.processing)[c.lease.value], now)
                && c.lease.value !in dir.processing
      ensures seen == old(seen) + {c.message.id}
    {
      if c.lease == None {
        Ack(c.message.id, now);
        return;
      }
      if c.lease.value in dir.processing {
        var file := dir.processing[c.lease.value];
        dir.done := dir.done[c.message.id := Handled(file, now)];
        dir.processing := dir.processing - {c.lease.value};
      } else if c.message.id !in dir.done {
        Ack(c.message.id, now);
      }
      seen := seen + {c.message.id};
    }

    method ReleaseClaimed(c: ClaimedMessage)
      modifies dir`active, dir`processing
      ensures dir.State() == Release(old(dir.State()), c)
      ensures var id := c.message.id;
              var wasHeld := c.lease.Some? && c.lease.value in old(dir.processing);
              wasHeld && id !in old(dir.active) && id !in old(dir.done) ==>
                && c.lease.value !in dir.processing
                && id in dir.active && dir.active[id] == old(dir.processing)[c.lease.value]
    {
      if c.lease == None {
        return;
      }
      var lease := c.lease.value;
      if c.message.id in dir.done {
        dir.processing := dir.processing - {lease};
      } else if lease in dir.processing && c.message.id !in dir.active {
        dir.active := dir.active[c.message.id := dir.processing[lease]];
        dir.processing := dir.processing - {lease};
      }
    }
  }

  lemma NotYetListed(active: map<InboxId, File>, order: seq<InboxId>, i: nat)
    requires InTime(active, order) && i < |order|
    ensures order[i] in active && order[i] !in order[..i]
  {
    assert forall j :: 0 <= j < i ==> Sooner(active, order[j], order[i]);
  }

  lemma ClaimedOneMore(f: Folder, ids: set<InboxId>, id: InboxId, serial: InboxId -> nat)
    requires ids <= f.active.Keys && id in f.active && id !in ids
    ensures var g := Claimed(f, ids, serial);
            id in g.active && g.active[id] == f.active[id] &&
            Claimed(f, ids + {id}, serial) ==
            g.(active := g.active - {id}, processing := g.processing[Lease(id, serial(id)) := f.active[id]])
  {
    var g, h := Claimed(f, ids, serial), Claimed(f, ids + {id}, serial);
    assert h.active == g.active - {id};
    forall l: Lease
      ensures l in h.processing <==> l in g.processing[Lease(id, serial(id)) := f.active[id]]
    {
      assert l in (set k | k in ids :: Lease(k, serial(k))) <==> l.id in ids && l.serial == serial(l.id);
      assert l in (set k | k in ids + {id} :: Lease(k, serial(k))) <==> l.id in ids + {id} && l.serial == serial(l.id);
    }
    assert h.processing == g.processing[Lease(id, serial(id)) := f.active[id]];
  }
}
