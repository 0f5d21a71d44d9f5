/**
 Editing one's own claims: a compare-and-swap update that logs its intent before it writes, so that a
 session which crashed half-way is either forgotten or carried through by the next one.
 */
module ClaimEdits {
  import opened Claims
  import Text

  const SECOND: Instant := 1_000_000_000

  function TruncateToSecond(t: Instant): Instant {
    t - t % SECOND
  }

  /** Strictly later than the previous version, whatever the clock says. */
  function NextUpdateAt(now: Instant, previous: Instant): Instant {
    var clock := TruncateToSecond(now);
    if clock >= previous + SECOND then clock else previous + SECOND
  }

  /** A digest of the canonical encoding, taken to be free of collisions. */
  datatype Revision = Digest(of: Claim)

  datatype PendingEdit = PendingEdit(expected: Revision, target: Claim)

  /** The files an edit touches, and whether a Dream commit is under way. */
  datatype Home = Home(claims: map<ClaimId, Claim>, queue: map<ClaimId, Claim>, edit: Option<PendingEdit>,
                       dreamPending: bool)

  datatype Update = Update(
    id: ClaimId,
    expected: Revision,
    name: Option<string>,
    statement: Option<string>,
    scope: Option<string>,
    evidenceSummary: Option<string>,
    confidence: Option<Confidence>,
    status: Option<ClaimStatus>)

  datatype EditError = NothingToEdit | KnowledgeBusy | MissingClaim | NotOwned | RevisionConflict | RejectedText

  /** Who runs the session: its agent, whether team services are configured, and its text scanner. */
  datatype Session = Session(agent: AgentId, team: bool, scan: string -> bool)

  function Or<T>(value: Option<T>, otherwise: T): T {
    match value
    case Some(v) => v
    case None => otherwise
  }

  function Edited(c: Claim, u: Update, now: Instant): Claim {
    c.(name := Or(u.name, c.name),
       statement := Or(u.statement, c.statement),
       scope := Or(u.scope, c.scope),
       evidenceSummary := Or(u.evidenceSummary, c.evidenceSummary),
       confidence := Or(u.confidence, c.confidence),
       status := Or(u.status, c.status),
       updatedAt := Some(NextUpdateAt(TruncateToSecond(now), c.EffectiveUpdatedAt())))
  }

  predicate EditsSomething(u: Update) {
    u.name.Some? || u.statement.Some? || u.scope.Some? || u.evidenceSummary.Some? || u.confidence.Some? ||
    u.status.Some?
  }

  predicate TextAccepted(c: Claim, scan: string -> bool) {
    forall t :: t in [c.name, c.statement, c.scope, c.evidenceSummary] ==> Text.Trim(t) != "" && scan(t)
  }

  /** The upload queue keeps one version per claim, the later one; of two equally old ones the newcomer. */
  function Staged(queue: map<ClaimId, Claim>, c: Claim): map<ClaimId, Claim> {
    if c.id in queue && c.EffectiveUpdatedAt() < queue[c.id].EffectiveUpdatedAt() then queue else queue[c.id := c]
  }

  function OwnedError(h: Home, agent: AgentId, id: ClaimId): Option<EditError> {
    if id !in h.claims then Some(MissingClaim)
    else if h.claims[id].holder != agent then Some(NotOwned)
    else None
  }

  // ---- Recovery ----

  /** Forgets an edit whose claim was never written; queues whatever replaced the old version otherwise. */
  function Recover(h: Home, s: Session): (Home, Option<EditError>) {
    if !s.team then (h, None)
    else if h.dreamPending then (h, Some(KnowledgeBusy))
    else if h.edit == None then (h, None)
    else
      var p := h.edit.value;
      var error := OwnedError(h, s.agent, p.target.id);
      if error.Some? then (h, error)
      else
        var current := h.claims[p.target.id];
        if Digest(current) == p.expected then (h.(edit := None), None)
        else (h.(queue := Staged(h.queue, current), edit := None), None)
  }

  /** A crash after the current version was queued and before the log was cleared. */
  function HalfRecovered(h: Home, s: Session): Home {
    h.(queue := Recover(h, s).0.queue)
  }

  // ---- Update ----

  /** Why an update of the recovered home is refused, if it is. */
  function Refusal(h: Home, s: Session, u: Update, now: Instant): Option<EditError> {
    var error := OwnedError(h, s.agent, u.id);
    if error.Some? then error
    else if u.expected != Digest(h.claims[u.id]) then Some(RevisionConflict)
    else if !TextAccepted(Edited(h.claims[u.id], u, now), s.scan) then Some(RejectedText)
    else None
  }

  /** How far an accepted edit got before its session ended, from within the recovery that precedes it. */
  datatype Progress = Recovering | Nothing | Logged | Written | Queued | Complete

  predicate Landed(p: Progress) {
    p in {Written, Queued, Complete}
  }

  function Carried(h: Home, s: Session, u: Update, now: Instant, p: Progress): Home
    requires u.id in h.claims
  {
    var next := Edited(h.claims[u.id], u, now);
    var logged := if s.team then Some(PendingEdit(Digest(h.claims[u.id]), next)) else h.edit;
    match p
    case Recovering => h
    case Nothing => h
    case Logged => h.(edit := logged)
    case Written => h.(claims := h.claims[next.id := next], edit := logged)
    case Queued =>
      h.(claims := h.claims[next.id := next], edit := logged,
         queue := if s.team then Staged(h.queue, next) else h.queue)
    case Complete =>
      h.(claims := h.claims[next.id := next], edit := if s.team then None else h.edit,
         queue := if s.team then Staged(h.queue, next) else h.queue)
  }

  /** One call of update_claim that got as far as `p`; a call refused earlier gets no further than its refusal. */
  function UpdateClaim(h: Home, s: Session, u: Update, now: Instant, p: Progress): (Home, Option<EditError>) {
    if !EditsSomething(u) then (h, Some(NothingToEdit))
    else if h.dreamPending then (h, Some(KnowledgeBusy))
    else
      var (recovered, error) := Recover(h, s);
      if error.Some? then (recovered, error)
      else if p == Recovering then (HalfRecovered(h, s), None)
      else
        var refusal := Refusal(recovered, s, u, now);
        if refusal.Some? then (recovered, refusal) else (Carried(recovered, s, u, now, p), None)
  }

  /** Every claim file is named after the claim in it. */
  ghost predicate Keyed(h: Home) {
    forall id :: id in h.claims ==> h.claims[id].id == id
  }

  /**
   A crash anywhere in a team-mode edit leaves nothing for good: recovery returns either the home as it was
   before the edit or the home the completed edit would have produced, with the log cleared.
   */
  lemma CrashLeavesOldOrNew(h: Home, s: Session, u: Update, now: Instant, p: Progress)
    requires Keyed(h) && s.team && UpdateClaim(h, s, u, now, Complete).1 == None
    ensures u.id in h.claims
    ensures var crashed := UpdateClaim(h, s, u, now, p).0;
            var (recovered, error) := Recover(crashed, s);
            && error == None
            && recovered.edit == None
            && (Landed(p) ==> recovered == UpdateClaim(h, s, u, now, Complete).0)
            && (!Landed(p) ==> recovered == Recover(h, s).0)
            && recovered.claims == (if Landed(p) then h.claims[u.id := Edited(h.claims[u.id], u, now)] else h.claims)
  {
    RecoverTwice(h, s);
    CarriedRecovers(Recover(h, s).0, s, u, now, p);
  }

  lemma CarriedRecovers(h: Home, s: Session, u: Update, now: Instant, p: Progress)
    requires Keyed(h) && s.team && !h.dreamPending && h.edit == None && Refusal(h, s, u, now) == None
    ensures Recover(Carried(h, s, u, now, p), s) ==
            (Carried(h, s, u, now, if Landed(p) then Complete else Nothing), None)
  {
    var next := Edited(h.claims[u.id], u, now);
    assert next.EffectiveUpdatedAt() > h.claims[u.id].EffectiveUpdatedAt();
    StagedTwice(h.queue, next);
  }

  /** Recovering twice is recovering once, also when the first time was cut off. */
  lemma RecoverTwice(h: Home, s: Session)
    ensures Recover(h, s).1 == None ==> Recover(Recover(h, s).0, s) == (Recover(h, s).0, None)
    ensures Recover(HalfRecovered(h, s), s) == Recover(h, s)
    ensures Recover(h, s).1.Some? ==> Recover(h, s).0 == h
  {
    if h.edit.Some? && h.edit.value.target.id in h.claims {
      StagedTwice(h.queue, h.claims[h.edit.value.target.id]);
    }
  }

  lemma StagedTwice(queue: map<ClaimId, Claim>, c: Claim)
    ensures Staged(Staged(queue, c), c) == Staged(queue, c)
  {
  }

  // ---- Runs: sessions of both kinds, other writers, uploads and Dream, each possibly crashing ----

  datatype Event =
    | Edits(session: Session, update: Update, now: Instant, progress: Progress)
    | Recovers(session: Session, crashed: bool)
    // Another holder of the knowledge lock writes a new claim or a later version of one.
    | Writes(claim: Claim)
    // Another writer stages the version in place for upload, right after writing it or later.
    | Stages(id: ClaimId)
    // The maintainer confirmed the queued version.
    | Uploaded(id: ClaimId)
    | DreamBegins
    | DreamEnds

  ghost predicate Later(c: Claim, d: Claim) {
    d.EffectiveUpdatedAt() > c.EffectiveUpdatedAt() && d.holder == c.holder && d.id == c.id
  }

  ghost predicate Possible(h: Home, e: Event, agent: AgentId) {
    match e
    case Edits(s, _, _, _) => s.agent == agent
    case Recovers(s, _) => s.agent == agent
    case Stages(id) => id in h.claims
    case Writes(c) => c.holder == agent && (c.id in h.claims ==> Later(h.claims[c.id], c))
    case _ => true
  }

  function Next(h: Home, e: Event): Home {
    match e
    case Edits(s, u, now, p) => UpdateClaim(h, s, u, now, p).0
    case Recovers(s, crashed) => if crashed then HalfRecovered(h, s) else Recover(h, s).0
    case Stages(id) => if id in h.claims then h.(queue := Staged(h.queue, h.claims[id])) else h
    case Writes(c) => h.(claims := h.claims[c.id := c])
    case Uploaded(id) => h.(queue := h.queue - {id})
    case DreamBegins => h.(dreamPending := true)
    case DreamEnds => h.(dreamPending := false)
  }

  ghost predicate PossibleRun(h: Home, events: seq<Event>, agent: AgentId)
    decreases |events|
  {
    events == [] || (Possible(h, events[0], agent) && PossibleRun(Next(h, events[0]), events[1..], agent))
  }

  function After(h: Home, events: seq<Event>): Home
    decreases |events|
  {
    if events == [] then h else After(Next(h, events[0]), events[1..])
  }

  ghost predicate Inv(h: Home, agent: AgentId) {
    && (forall id :: id in h.claims ==> h.claims[id].id == id && h.claims[id].holder == agent)
    // The queue never runs ahead of the local store.
    && (forall id :: id in h.queue ==>
          id in h.claims && (h.queue[id] == h.claims[id] || Later(h.queue[id], h.claims[id])))
    && (h.edit.Some? ==> EditInv(h, h.edit.value))
  }

  /** The logged original is still in place or has been left behind for good. */
  ghost predicate EditInv(h: Home, p: PendingEdit) {
    var original := p.expected.of;
    p.target.id == original.id && original.id in h.claims &&
    (h.claims[original.id] == original || Later(original, h.claims[original.id]))
  }

  /** Claims are only ever replaced by later versions. */
  ghost predicate Advances(h: Home, g: Home) {
    forall id :: id in h.claims ==>
      id in g.claims && (g.claims[id] == h.claims[id] || Later(h.claims[id], g.claims[id]))
  }

  lemma RecoverKeepsInv(h: Home, s: Session)
    requires Inv(h, s.agent)
    ensures Inv(Recover(h, s).0, s.agent) && Recover(h, s).0.claims == h.claims
    ensures Inv(HalfRecovered(h, s), s.agent)
  {
  }

  lemma CarriedKeepsInv(h: Home, s: Session, u: Update, now: Instant, p: Progress)
    requires Inv(h, s.agent) && Refusal(h, s, u, now) == None
    ensures Inv(Carried(h, s, u, now, p), s.agent) && Advances(h, Carried(h, s, u, now, p))
  {
    assert Later(h.claims[u.id], Edited(h.claims[u.id], u, now));
  }

  lemma StepKeepsInv(h: Home, e: Event, agent: AgentId)
    requires Inv(h, agent) && Possible(h, e, agent)
    ensures Inv(Next(h, e), agent) && Advances(h, Next(h, e))
  {
    match e
    case Edits(s, u, now, p) => EditKeepsInv(h, s, u, now, p);
    case Recovers(s, _) => RecoverKeepsInv(h, s);
    case Writes(c) => OtherWritersKeepInv(h, c);
    case _ =>
  }

  lemma EditKeepsInv(h: Home, s: Session, u: Update, now: Instant, p: Progress)
    requires Inv(h, s.agent)
    ensures var g := UpdateClaim(h, s, u, now, p).0; Inv(g, s.agent) && Advances(h, g)
  {
    RecoverKeepsInv(h, s);
    var recovered := Recover(h, s).0;
    assert Advances(h, recovered);
    if Refusal(recovered, s, u, now) == None {
      CarriedKeepsInv(recovered, s, u, now, p);
      var g := Carried(recovered, s, u, now, p);
      assert Advances(h, g);
    }
    UpdateEndsIn(h, s, u, now, p);
  }

  lemma UpdateEndsIn(h: Home, s: Session, u: Update, now: Instant, p: Progress)
    ensures var g, recovered := UpdateClaim(h, s, u, now, p).0, Recover(h, s).0;
            || g == h || g == recovered || g == HalfRecovered(h, s)
            || (Refusal(recovered, s, u, now) == None && g == Carried(recovered, s, u, now, p))
  {
  }

  lemma OtherWritersKeepInv(h: Home, c: Claim)
    requires Inv(h, c.holder) && (c.id in h.claims ==> Later(h.claims[c.id], c))
    ensures var g := h.(claims := h.claims[c.id := c]); Inv(g, c.holder) && Advances(h, g)
  {
  }

  lemma {:induction false} RunAdvances(h: Home, events: seq<Event>, agent: AgentId)
    requires Inv(h, agent) && PossibleRun(h, events, agent)
    ensures Inv(After(h, events), agent) && Advances(h, After(h, events))
    decreases |events|
  {
    if events != [] {
      StepKeepsInv(h, events[0], agent);
      RunAdvances(Next(h, events[0]), events[1..], agent);
    }
  }

  /**
   In every reachable state an interrupted edit recovers to one of two outcomes: its claim is untouched since
   and the queue is left alone, or some later version is in place and exactly that version is queued.
   */
  lemma RecoveryOverRuns(h: Home, events: seq<Event>, s: Session)
    requires Inv(h, s.agent) && PossibleRun(h, events, s.agent) && s.team
    requires After(h, events).edit.Some? && !After(h, events).dreamPending
    ensures var g := After(h, events);
            var (recovered, error) := Recover(g, s);
            var original := g.edit.value.expected.of;
            && error == None && recovered.edit == None && recovered.claims == g.claims && original.id in g.claims
            && (g.claims[original.id] == original ==> recovered.queue == g.queue)
            && (g.claims[original.id] != original ==>
                  Later(original, g.claims[original.id]) &&
                  recovered.queue == g.queue[original.id := g.claims[original.id]])
  {
    RunAdvances(h, events, s.agent);
  }

  /** The event is a call that carries `revision` and whose claim was written. */
  predicate Lands(h: Home, e: Event, revision: Revision) {
    e.Edits? && e.update.expected == revision && Landed(e.progress) &&
    UpdateClaim(h, e.session, e.update, e.now, e.progress).1 == None
  }

  /** A call lands only on the very version it names, and moves the claim past it. */
  lemma LandingMovesOn(h: Home, e: Event, revision: Revision, agent: AgentId)
    requires Inv(h, agent) && Possible(h, e, agent) && Lands(h, e, revision)
    ensures var id := revision.of.id;
            id in h.claims && h.claims[id] == revision.of &&
            id in Next(h, e).claims && Later(revision.of, Next(h, e).claims[id])
  {
    RecoverKeepsInv(h, e.session);
    assert Later(revision.of, Edited(revision.of, e.update, e.now));
  }

  /** Of all calls carrying one revision at most one writes its claim, under any clock and any crashes. */
  lemma OneEditPerRevision(h: Home, first: Event, between: seq<Event>, second: Event, revision: Revision,
                           agent: AgentId)
    requires Inv(h, agent) && Possible(h, first, agent) && PossibleRun(Next(h, first), between, agent)
    requires Possible(After(Next(h, first), between), second, agent)
    requires Lands(h, first, revision)
    ensures !Lands(After(Next(h, first), between), second, revision)
  {
    var after := After(Next(h, first), between);
    LandingMovesOn(h, first, revision, agent);
    StepKeepsInv(h, first, agent);
    RunAdvances(Next(h, first), between, agent);
    if Lands(after, second, revision) {
      LandingMovesOn(after, second, revision, agent);
      assert false;
    }
  }

  /** A version once replaced never comes back, so a revision identifies one moment of a claim's life. */
  lemma RevisionsNeverRepeat(h: Home, before: seq<Event>, after: seq<Event>, id: ClaimId, agent: AgentId)
    requires Inv(h, agent) && PossibleRun(h, before, agent) && PossibleRun(After(h, before), after, agent)
    requires id in h.claims
    ensures id in After(h, before).claims && id in After(After(h, before), after).claims
    ensures After(h, before).claims[id] != h.claims[id] ==> After(After(h, before), after).claims[id] != h.claims[id]
    ensures After(h, before).claims[id] != h.claims[id] ==> Later(h.claims[id], After(h, before).claims[id])
  {
    RunAdvances(h, before, agent);
    RunAdvances(After(h, before), after, agent);
  }
}
