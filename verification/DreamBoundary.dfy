/**
 Ordinary reads do not wait for a Dream commit. They note the commit state, check that no commit is
 pending, read, check again, and compare the state: a commit that slipped in between has changed it.
 */
module DreamBoundary {
  import opened Claims
  import opened ClaimEdits

  /** Idle, then pending: writing claims, then with the state saved but the pending mark still set. */
  datatype Phase = Idle | Committing | Saved

  /** When the last whole batch finished, and the versions on record. */
  datatype DreamState = DreamState(lastSuccess: Option<Instant>, known: map<ClaimId, Revision>)

  /** The versions a commit has written so far are its `journal`. */
  datatype World = World(claims: map<ClaimId, Claim>, phase: Phase, journal: map<ClaimId, Claim>,
                         state: Option<DreamState>)

  datatype Event =
    | Begins
    | CommitWrites(claim: Claim)
    // The commit of one group adds the versions it has written to the record.
    | Saves
    // A whole batch replaces the record with the versions it started from and its own, those of all its groups.
    | Finishes(success: Instant, inputs: map<ClaimId, Revision>, own: map<ClaimId, Revision>)
    | Clears
    // An ordinary edit: it holds the knowledge lock and has checked that no commit is pending.
    | Edits(claim: Claim)
    | Rests

  ghost predicate Newer(c: Claim, d: Claim) {
    d.EffectiveUpdatedAt() > c.EffectiveUpdatedAt()
  }

  ghost predicate Writable(w: World, c: Claim) {
    c.id in w.claims ==> Newer(w.claims[c.id], c)
  }

  /** Every version on record is that of the claim in place or of an earlier one. */
  ghost predicate AtOrBehind(known: map<ClaimId, Revision>, claims: map<ClaimId, Claim>) {
    forall id :: id in known ==> id in claims && (known[id].of == claims[id] || Newer(known[id].of, claims[id]))
  }

  predicate Precedes(last: Option<Instant>, success: Instant) {
    last.None? || last.value < success
  }

  /** What a batch calls its own: whatever it wrote last, and versions its groups wrote at some time before. */
  ghost predicate OwnVersions(w: World, own: map<ClaimId, Revision>) {
    AtOrBehind(own, w.claims) && forall id :: id in w.journal ==> id in own && own[id] == Digest(w.journal[id])
  }

  /**
   A crashed commit keeps its pending mark and goes on later from where it stopped. A batch that was applied
   already may be run again after its mark was removed; it then only writes its state.
   */
  ghost predicate Possible(w: World, e: Event) {
    match e
    case Begins => w.phase == Idle
    case CommitWrites(c) => w.phase == Committing && Writable(w, c)
    case Saves => w.phase != Idle
    case Finishes(_, inputs, own) =>
      AtOrBehind(inputs, w.claims) && if w.phase == Idle then AtOrBehind(own, w.claims) else OwnVersions(w, own)
    case Clears => w.phase == Saved
    case Edits(c) => w.phase == Idle && Writable(w, c)
    case Rests => true
  }

  function State(w: World): DreamState {
    if w.state.Some? then w.state.value else DreamState(None, map[])
  }

  function Extended(w: World): DreamState {
    State(w).(known := State(w).known + map id | id in w.journal :: Digest(w.journal[id]))
  }

  /** A late batch does not turn the success time back; it only adds its own versions. */
  function Finished(s: DreamState, success: Instant, inputs: map<ClaimId, Revision>, own: map<ClaimId, Revision>):
    DreamState
  {
    if s.lastSuccess == Some(success) || Precedes(s.lastSuccess, success)
    then DreamState(Some(success), inputs + own)
    else s.(known := s.known + own)
  }

  function Next(w: World, e: Event): World {
    match e
    case Begins => w.(phase := Committing, journal := map[])
    case CommitWrites(c) => w.(claims := w.claims[c.id := c], journal := w.journal[c.id := c])
    case Saves => w.(phase := Saved, state := Some(Extended(w)))
    case Finishes(success, inputs, own) =>
      w.(phase := if w.phase == Idle then Idle else Saved, state := Some(Finished(State(w), success, inputs, own)))
    case Clears => w.(phase := Idle)
    case Edits(c) => w.(claims := w.claims[c.id := c])
    case Rests => w
  }

  /** The world at each instant, and what happened between one instant and the next. */
  ghost predicate Timeline(ws: seq<World>, es: seq<Event>) {
    |ws| == |es| + 1 && forall i :: 0 <= i < |es| ==> Possible(ws[i], es[i]) && ws[i + 1] == Next(ws[i], es[i])
  }

  // ---- The boundary ----

  datatype Boundary = Boundary(state: Option<DreamState>)

  /** Two separate reads: first the state, then the pending mark. */
  function Begin(stateRead: World, pendingRead: World): Option<Boundary> {
    if pendingRead.phase != Idle then None else Some(Boundary(stateRead.state))
  }

  function Finish(b: Boundary, pendingRead: World, stateRead: World): bool {
    pendingRead.phase == Idle && b.state == stateRead.state
  }

  /** The boundary succeeds exactly with no commit pending at either check and the same state before and after. */
  lemma BoundarySucceedsExactly(w1: World, w2: World, w3: World, w4: World)
    ensures Begin(w1, w2).Some? <==> w2.phase == Idle
    ensures Begin(w1, w2).Some? ==> (Finish(Begin(w1, w2).value, w3, w4) <==> w3.phase == Idle && w1.state == w4.state)
  {
  }

  /** A read that no Dream touches succeeds, however many ordinary edits are made meanwhile. */
  lemma {:induction false} QuietReadSucceeds(ws: seq<World>, es: seq<Event>, i: nat, j: nat)
    requires Timeline(ws, es) && i <= j < |ws| && ws[i].phase == Idle
    requires forall k :: i <= k < j ==> es[k].Edits? || es[k].Rests?
    ensures ws[j].phase == Idle && ws[j].state == ws[i].state
    ensures Begin(ws[i], ws[i]).Some? && Finish(Begin(ws[i], ws[i]).value, ws[j], ws[j])
    decreases j
  {
    if i < j {
      QuietReadSucceeds(ws, es, i, j - 1);
      assert Possible(ws[j - 1], es[j - 1]) && ws[j] == Next(ws[j - 1], es[j - 1]);
    }
  }

  // ---- What is recorded ----

  /** A group's commit records what it wrote and keeps what was on record of other claims. */
  lemma GroupIsRecorded(w: World, id: ClaimId)
    requires Possible(w, Saves)
    ensures var s, t := State(w), State(Next(w, Saves));
            && t.lastSuccess == s.lastSuccess
            && (id in w.journal ==> id in t.known && t.known[id].of == w.journal[id])
            && (id !in w.journal ==> (id in t.known <==> id in s.known))
            && (id !in w.journal && id in s.known ==> t.known[id] == s.known[id])
  {
  }

  /** A batch in time records its own versions and, of other claims, the ones it began with; a late one only adds. */
  lemma BatchIsRecorded(w: World, e: Event, id: ClaimId)
    requires e.Finishes? && Possible(w, e)
    ensures var s, t := State(w), State(Next(w, e));
            var late := s.lastSuccess.Some? && e.success < s.lastSuccess.value;
            var others := if late then s.known else e.inputs;
            && t.lastSuccess == (if late then s.lastSuccess else Some(e.success))
            && (id in e.own ==> id in t.known && t.known[id] == e.own[id])
            && (id !in e.own ==> (id in t.known <==> id in others) && (id in others ==> t.known[id] == others[id]))
  {
  }

  // ---- States never come back ----

  ghost predicate Inv(w: World) {
    && AtOrBehind(State(w).known, w.claims)
    && (w.phase != Idle ==> forall id :: id in w.journal ==> id in w.claims && w.journal[id] == w.claims[id])
    && (w.phase == Committing ==> JournalIsNews(w))
  }

  ghost predicate JournalIsNews(w: World) {
    forall id :: id in w.journal && id in State(w).known ==> Newer(State(w).known[id].of, w.journal[id])
  }

  ghost predicate VersionsAdvance(s: map<ClaimId, Revision>, t: map<ClaimId, Revision>) {
    forall id :: id in s ==> id in t && (t[id] == s[id] || Newer(s[id].of, t[id].of))
  }

  /** A later success time, or the same one and versions none of which went back. */
  ghost predicate Advances(s: DreamState, t: DreamState) {
    if s.lastSuccess == t.lastSuccess then VersionsAdvance(s.known, t.known)
    else t.lastSuccess.Some? && Precedes(s.lastSuccess, t.lastSuccess.value)
  }

  /** Timelines may begin before the first Dream, with any claims. */
  lemma BeforeAnyDream(claims: map<ClaimId, Claim>)
    ensures Inv(World(claims, Idle, map[], None))
  {
  }

  /** Of no claim that both know do the second versions name an earlier one. */
  ghost predicate NotBehind(s: map<ClaimId, Revision>, t: map<ClaimId, Revision>) {
    forall id :: id in s && id in t ==> t[id] == s[id] || Newer(s[id].of, t[id].of)
  }

  /**
   Whether a whole batch may write its state: always with a later success time; with an earlier one if none of
   its own versions is behind the record; with the same one if it also knows all that is on record.
   */
  ghost predicate GoesForward(s: DreamState, e: Event) {
    e.Finishes? && !Precedes(s.lastSuccess, e.success) ==>
      if s.lastSuccess == Some(e.success)
      then s.known.Keys <= e.inputs.Keys + e.own.Keys && NotBehind(s.known, e.inputs + e.own)
      else NotBehind(s.known, e.own)
  }

  /** The guard is exact: a batch that fails it takes the state back. */
  lemma FinishingAdvancesExactly(s: DreamState, e: Event)
    requires e.Finishes?
    ensures Advances(s, Finished(s, e.success, e.inputs, e.own)) <==> GoesForward(s, e)
  {
    var t := Finished(s, e.success, e.inputs, e.own);
    if s.lastSuccess != Some(e.success) && !Precedes(s.lastSuccess, e.success) {
      assert forall id :: id in s.known && id in e.own ==> t.known[id] == e.own[id];
    }
  }

  lemma ExtendingAdvances(w: World)
    requires Inv(w) && w.phase != Idle
    ensures Advances(State(w), Extended(w)) && AtOrBehind(Extended(w).known, w.claims)
  {
  }

  lemma WritingKeepsInv(w: World, c: Claim)
    requires Inv(w) && Writable(w, c)
    ensures AtOrBehind(State(w).known, w.claims[c.id := c])
    ensures w.phase == Committing ==> Inv(Next(w, CommitWrites(c)))
    ensures w.phase == Idle ==> Inv(Next(w, Event.Edits(c)))
  {
  }

  lemma StepKeepsInv(w: World, e: Event)
    requires Inv(w) && Possible(w, e)
    ensures Inv(Next(w, e))
    ensures GoesForward(State(w), e) ==> Advances(State(w), State(Next(w, e)))
    ensures w.state.Some? ==> Next(w, e).state.Some?
  {
    match e
    case CommitWrites(c) => WritingKeepsInv(w, c);
    case Edits(c) => WritingKeepsInv(w, c);
    case Saves => ExtendingAdvances(w);
    case Finishes(_, _, _) => FinishingAdvancesExactly(State(w), e);
    case _ =>
  }

  lemma {:induction false} TimelineKeepsInv(ws: seq<World>, es: seq<Event>, i: nat)
    requires Timeline(ws, es) && Inv(ws[0]) && i < |ws|
    ensures Inv(ws[i])
  {
    if 0 < i {
      TimelineKeepsInv(ws, es, i - 1);
      StepKeepsInv(ws[i - 1], es[i - 1]);
    }
  }

  /** No batch of the timeline fails the guard. */
  ghost predicate Forward(ws: seq<World>, es: seq<Event>) {
    Timeline(ws, es) && forall i :: 0 <= i < |es| ==> GoesForward(State(ws[i]), es[i])
  }

  lemma AdvancesTransitive(s: DreamState, t: DreamState, u: DreamState)
    requires Advances(s, t) && Advances(t, u)
    ensures Advances(s, u)
  {
  }

  lemma {:induction false} TimelineAdvances(ws: seq<World>, es: seq<Event>, i: nat, j: nat)
    requires Forward(ws, es) && Inv(ws[0]) && i <= j < |ws|
    ensures Advances(State(ws[i]), State(ws[j]))
    ensures ws[i].state.Some? ==> ws[j].state.Some?
    decreases j
  {
    if i < j {
      TimelineAdvances(ws, es, i, j - 1);
      TimelineKeepsInv(ws, es, j - 1);
      StepKeepsInv(ws[j - 1], es[j - 1]);
      AdvancesTransitive(State(ws[i]), State(ws[j - 1]), State(ws[j]));
    }
  }

  /** Between two reads of the same state the state never changed. */
  lemma SameStateInBetween(ws: seq<World>, es: seq<Event>, i: nat, j: nat, k: nat)
    requires Forward(ws, es) && Inv(ws[0]) && i <= j <= k < |ws|
    requires ws[i].state == ws[k].state
    ensures ws[j].state == ws[i].state
  {
    TimelineAdvances(ws, es, i, j);
    TimelineAdvances(ws, es, j, k);
    assert State(ws[j]).known == State(ws[i]).known;
  }

  /** Saving a commit that wrote anything moves the state, and so does a batch's first write of its state. */
  lemma SavingMovesTheState(w: World, e: Event, id: ClaimId)
    requires Inv(w) && Possible(w, e) && w.phase == Committing && (e.Saves? || e.Finishes?)
    requires id in w.journal
    ensures Next(w, e).state != w.state
  {
    assert id in Extended(w).known && Extended(w).known[id] == Digest(w.journal[id]);
  }

  ghost predicate Pending(w: World, id: ClaimId) {
    w.phase == Committing && id in w.journal
  }

  ghost predicate StateStands(ws: seq<World>, i: nat, j: nat) {
    j < |ws| && forall t :: i <= t <= j ==> ws[t].state == ws[i].state
  }

  /** While the state stands still, a commit that has written a claim stays pending. */
  lemma {:induction false} CommitStaysPending(ws: seq<World>, es: seq<Event>, i: nat, j: nat)
    requires Timeline(ws, es) && Inv(ws[0]) && i < j && StateStands(ws, i, j)
    requires es[i].CommitWrites?
    ensures Pending(ws[j], es[i].claim.id)
    decreases j
  {
    if i + 1 < j {
      CommitStaysPending(ws, es, i, j - 1);
      assert ws[j].state == ws[i].state == ws[j - 1].state;
      PendingStep(ws, es, j - 1, es[i].claim.id);
    } else {
      WritingIsPending(ws, es, i);
    }
  }

  lemma WritingIsPending(ws: seq<World>, es: seq<Event>, i: nat)
    requires Timeline(ws, es) && i < |es| && es[i].CommitWrites?
    ensures Pending(ws[i + 1], es[i].claim.id)
  {
    TimelineStep(ws, es, i);
  }

  lemma PendingStep(ws: seq<World>, es: seq<Event>, i: nat, id: ClaimId)
    requires Timeline(ws, es) && Inv(ws[0]) && i < |es| && Pending(ws[i], id) && ws[i + 1].state == ws[i].state
    ensures Pending(ws[i + 1], id)
  {
    TimelineStep(ws, es, i);
    TimelineKeepsInv(ws, es, i);
    PendingNext(ws[i], es[i], id);
  }

  lemma TimelineStep(ws: seq<World>, es: seq<Event>, i: nat)
    requires Timeline(ws, es) && i < |es|
    ensures Possible(ws[i], es[i]) && ws[i + 1] == Next(ws[i], es[i])
  {
  }

  lemma PendingNext(w: World, e: Event, id: ClaimId)
    requires Inv(w) && Possible(w, e) && Pending(w, id) && Next(w, e).state == w.state
    ensures Pending(Next(w, e), id)
  {
    if e.Saves? || e.Finishes? {
      SavingMovesTheState(w, e, id);
    }
  }

  /**
   If both halves of the boundary succeed, no commit wrote a claim while the reader was reading. What it
   read of any claim at any of its instants is that claim as it stood when reading began, unless an
   ordinary edit of that very claim was made in the meantime.
   */
  lemma ReadIsOneSnapshot(ws: seq<World>, es: seq<Event>, t1: nat, t2: nat, t3: nat, t4: nat)
    requires Forward(ws, es) && Inv(ws[0]) && t1 <= t2 <= t3 <= t4 < |ws|
    requires Begin(ws[t1], ws[t2]).Some? && Finish(Begin(ws[t1], ws[t2]).value, ws[t3], ws[t4])
    ensures forall i :: t2 <= i < t3 ==> !es[i].CommitWrites?
    ensures forall t, id :: t2 <= t <= t3 && Unedited(es, t2, t, id) ==> SameClaim(ws[t2], ws[t], id)
  {
    forall i | t2 <= i < t3
      ensures !es[i].CommitWrites?
    {
      if es[i].CommitWrites? {
        forall t | i <= t <= t3
          ensures ws[t].state == ws[i].state
        {
          SameStateInBetween(ws, es, t1, t, t4);
          SameStateInBetween(ws, es, t1, i, t4);
        }
        CommitStaysPending(ws, es, i, t3);
      }
    }
    forall t, id | t2 <= t <= t3 && Unedited(es, t2, t, id)
      ensures SameClaim(ws[t2], ws[t], id)
    {
      UneditedIsSame(ws, es, t2, t, id);
    }
  }

  ghost predicate Unedited(es: seq<Event>, begin: nat, end: nat, id: ClaimId) {
    forall i :: begin <= i < end && i < |es| ==> !(es[i].Edits? && es[i].claim.id == id)
  }

  ghost predicate SameClaim(v: World, w: World, id: ClaimId) {
    (id in v.claims <==> id in w.claims) && (id in v.claims ==> w.claims[id] == v.claims[id])
  }

  lemma {:induction false} UneditedIsSame(ws: seq<World>, es: seq<Event>, begin: nat, end: nat, id: ClaimId)
    requires Timeline(ws, es) && begin <= end < |ws|
    requires forall i :: begin <= i < end ==> !es[i].CommitWrites?
    requires Unedited(es, begin, end, id)
    ensures SameClaim(ws[begin], ws[end], id)
    decreases end
  {
    if end > begin {
      UneditedIsSame(ws, es, begin, end - 1, id);
      assert Possible(ws[end - 1], es[end - 1]);
    }
  }

  /** Nothing has been recorded before the first Dream, so reads are safe from any claims on. */
  lemma ReadsFromTheFirstDreamOn(claims: map<ClaimId, Claim>, ws: seq<World>, es: seq<Event>, t1: nat, t2: nat,
                                 t3: nat, t4: nat)
    requires Forward(ws, es) && ws[0] == World(claims, Idle, map[], None) && t1 <= t2 <= t3 <= t4 < |ws|
    requires Begin(ws[t1], ws[t2]).Some? && Finish(Begin(ws[t1], ws[t2]).value, ws[t3], ws[t4])
    ensures forall i :: t2 <= i < t3 ==> !es[i].CommitWrites?
  {
    BeforeAnyDream(claims);
    ReadIsOneSnapshot(ws, es, t1, t2, t3, t4);
  }

  // ---- When the guard holds: the versions of a batch, gathered from its groups ----

  /** What the groups of a batch wrote, one after another by their clock; later ones win. */
  function Merged(groups: seq<map<ClaimId, Revision>>): map<ClaimId, Revision> {
    if groups == [] then map[] else Merged(groups[..|groups| - 1]) + groups[|groups| - 1]
  }

  ghost predicate SameOrNewer(r: Revision, s: Revision) {
    s == r || Newer(r.of, s.of)
  }

  /** By the clock's order every claim moves forward: the clock did not go back between groups that share one. */
  ghost predicate InWritingOrder(groups: seq<map<ClaimId, Revision>>) {
    forall i, j, id :: 0 <= i < j < |groups| && id in groups[i] && id in groups[j] ==>
      SameOrNewer(groups[i][id], groups[j][id])
  }

  lemma {:induction false} MergedIsLatest(groups: seq<map<ClaimId, Revision>>, i: nat, id: ClaimId)
    requires InWritingOrder(groups) && i < |groups| && id in groups[i]
    ensures id in Merged(groups) && SameOrNewer(groups[i][id], Merged(groups)[id])
  {
    if i < |groups| - 1 {
      MergedIsLatest(groups[..|groups| - 1], i, id);
    }
  }

  /** With such a clock a late batch passes the guard, if what is on record of its claims was written by its groups. */
  lemma ForwardClockIsEnough(s: DreamState, e: Event, groups: seq<map<ClaimId, Revision>>)
    requires e.Finishes? && e.own == Merged(groups) && InWritingOrder(groups)
    requires s.lastSuccess.Some? && e.success < s.lastSuccess.value
    requires forall id :: id in s.known && id in e.own ==> exists i :: Wrote(groups, i, id, s.known[id])
    ensures GoesForward(s, e)
  {
    forall id | id in s.known && id in e.own
      ensures SameOrNewer(s.known[id], e.own[id])
    {
      var i :| Wrote(groups, i, id, s.known[id]);
      MergedIsLatest(groups, i, id);
    }
  }

  ghost predicate Wrote(groups: seq<map<ClaimId, Revision>>, i: nat, id: ClaimId, version: Revision) {
    i < |groups| && id in groups[i] && groups[i][id] == version
  }

  // ---- When it fails ----

  /**
   Wherever a success time is on record, a late batch that brings back the recorded version of a claim hides any
   commit made to that claim just before: both halves of the boundary succeed around them.
   */
  lemma LateBatchHidesACommit(w: World, c: Claim, success: Instant) returns (ws: seq<World>, es: seq<Event>)
    requires Inv(w) && w.phase == Idle && Writable(w, c) && c.id in State(w).known
    requires State(w).lastSuccess.Some? && success < State(w).lastSuccess.value
    ensures var own := map[c.id := State(w).known[c.id]];
            es == [Begins, CommitWrites(c), Saves, Clears] + [Begins, Finishes(success, map[], own), Clears]
    ensures Timeline(ws, es) && ws[0] == w && |ws| == 8 && SafelyRead(ws[0], ws[7])
    ensures ws[7].claims == w.claims[c.id := c] && c.id in w.claims && w.claims[c.id] != c
  {
    var own := map[c.id := State(w).known[c.id]];
    var commit := OneCommit(w, c);
    var late := OneBatch(commit[4], success, map[], own);
    Joined(commit, [Begins, CommitWrites(c), Saves, Clears], late, [Begins, Finishes(success, map[], own), Clears]);
    ws := commit + late[1..];
    es := [Begins, CommitWrites(c), Saves, Clears] + [Begins, Finishes(success, map[], own), Clears];
    assert State(w).known[c.id := Digest(c)] + own == State(w).known;
  }

  /** Both halves of the boundary succeed, the first in one world and the second in another. */
  ghost predicate SafelyRead(first: World, last: World) {
    Begin(first, first).Some? && Finish(Begin(first, first).value, last, last)
  }

  lemma OneCommit(w: World, c: Claim) returns (ws: seq<World>)
    requires w.phase == Idle && Writable(w, c)
    ensures |ws| == 5 && ws[0] == w && Timeline(ws, [Begins, CommitWrites(c), Saves, Clears])
    ensures ws[4] == World(w.claims[c.id := c], Idle, map[c.id := c],
                           Some(State(w).(known := State(w).known[c.id := Digest(c)])))
  {
    var w1 := Next(w, Begins);
    var w2 := Next(w1, CommitWrites(c));
    var w3 := Next(w2, Saves);
    ws := [w, w1, w2, w3, Next(w3, Clears)];
    assert w2.journal == map[c.id := c];
    assert (map id | id in w2.journal :: Digest(w2.journal[id])) == map[c.id := Digest(c)];
    assert State(w2).known + map[c.id := Digest(c)] == State(w).known[c.id := Digest(c)];
    assert State(w3) == State(w).(known := State(w).known[c.id := Digest(c)]);
    assert w3.claims == w.claims[c.id := c];
    assert ws[4] == w3.(phase := Idle);
  }

  lemma OneBatch(w: World, success: Instant, inputs: map<ClaimId, Revision>, own: map<ClaimId, Revision>)
    returns (ws: seq<World>)
    requires w.phase == Idle && AtOrBehind(inputs, w.claims) && AtOrBehind(own, w.claims)
    ensures |ws| == 4 && ws[0] == w && Timeline(ws, [Begins, Finishes(success, inputs, own), Clears])
    ensures ws[3] == World(w.claims, Idle, map[], Some(Finished(State(w), success, inputs, own)))
  {
    var w1 := Next(w, Begins);
    var w2 := Next(w1, Finishes(success, inputs, own));
    ws := [w, w1, w2, Next(w2, Clears)];
  }

  lemma Joined(ws: seq<World>, es: seq<Event>, xs: seq<World>, fs: seq<Event>)
    requires Timeline(ws, es) && Timeline(xs, fs) && ws[|ws| - 1] == xs[0]
    ensures Timeline(ws + xs[1..], es + fs)
  {
    var ys, gs := ws + xs[1..], es + fs;
    forall i | 0 <= i < |gs|
      ensures Possible(ys[i], gs[i]) && ys[i + 1] == Next(ys[i], gs[i])
    {
      if i < |es| {
        TimelineStep(ws, es, i);
      } else {
        TimelineStep(xs, fs, i - |es|);
      }
    }
  }

  /**
   It takes a clock that goes back between two groups of one batch, and a batch that ends late. The first group
   writes the second version of a claim, the second group the third; by the clock they sort the other way round,
   so the batch calls the second version its own, and a read around the second group finds nothing changed.
   */
  lemma ClockGoneBackHidesACommit(v1: Claim, v2: Claim, v3: Claim)
    returns (ws: seq<World>, es: seq<Event>, groups: seq<map<ClaimId, Revision>>)
    requires v1.id == v2.id == v3.id && Newer(v1, v2) && Newer(v2, v3)
    ensures groups == [map[v3.id := Digest(v3)], map[v2.id := Digest(v2)]]
    ensures Timeline(ws, es) && |ws| == 15 && ws[0] == World(map[v1.id := v1], Idle, map[], None)
    ensures es[12] == Finishes(60, map[], Merged(groups))
    ensures SafelyRead(ws[7], ws[14]) && ws[7].claims == map[v2.id := v2] && ws[14].claims == map[v3.id := v3]
  {
    groups := [map[v3.id := Digest(v3)], map[v2.id := Digest(v2)]];
    MergedOfTwo(groups[0], groups[1]);
    var first, e1 := UpToTheFirstGroup(v1, v2);
    var rest, e2 := LateBatchHidesACommit(first[7], v3, 60);
    Joined(first, e1, rest, e2);
    ws, es := first + rest[1..], e1 + e2;
    assert ws[7] == first[7] && ws[14] == rest[7] && es[12] == e2[5];
  }

  lemma UpToTheFirstGroup(v1: Claim, v2: Claim) returns (ws: seq<World>, es: seq<Event>)
    requires v1.id == v2.id && Newer(v1, v2)
    ensures Timeline(ws, es) && |ws| == 8 && ws[0] == World(map[v1.id := v1], Idle, map[], None)
    ensures ws[7].claims == map[v2.id := v2] && ws[7].phase == Idle && Inv(ws[7])
    ensures ws[7].state == Some(DreamState(Some(110), map[v2.id := Digest(v2)]))
  {
    var w := World(map[v1.id := v1], Idle, map[], None);
    var known := map[v1.id := Digest(v1)];
    var batch := OneBatch(w, 110, known, map[]);
    assert known + map[] == known;
    assert State(batch[3]) == DreamState(Some(110), known);
    var group := OneCommit(batch[3], v2);
    assert known[v2.id := Digest(v2)] == map[v2.id := Digest(v2)];
    Joined(batch, [Begins, Finishes(110, known, map[]), Clears], group, [Begins, CommitWrites(v2), Saves, Clears]);
    es := [Begins, Finishes(110, known, map[]), Clears] + [Begins, CommitWrites(v2), Saves, Clears];
    ws := batch + group[1..];
    assert ws[7] == group[4];
  }

  lemma MergedOfTwo(g: map<ClaimId, Revision>, h: map<ClaimId, Revision>)
    ensures Merged([g, h]) == g + h
  {
    assert [g, h][..1] == [g] && [g][..0] == [];
    assert Merged([g]) == Merged([]) + g;
  }
}
