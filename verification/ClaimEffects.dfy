/** What an edit of a claim and its recovery write, field by field, and which edits are refused. */
module ClaimEffects {
  import opened Claims
  import opened ClaimEdits
  import Text

  // ---- The edited claim ----

  function Given<T>(value: Option<T>, otherwise: T): T {
    if value.Some? then value.value else otherwise
  }

  /** Each field given is taken, each other field kept; the claim stays its holder's and keeps its origin. */
  ghost predicate EditOf(c: Claim, u: Update, d: Claim) {
    && d.name == Given(u.name, c.name)
    && d.statement == Given(u.statement, c.statement)
    && d.scope == Given(u.scope, c.scope)
    && d.evidenceSummary == Given(u.evidenceSummary, c.evidenceSummary)
    && d.confidence == Given(u.confidence, c.confidence)
    && d.status == Given(u.status, c.status)
    && d.id == c.id && d.holder == c.holder && d.createdAt == c.createdAt && d.sourceClaimIds == c.sourceClaimIds
  }

  /** The clock's whole second, unless that is less than a second after the version replaced. */
  ghost predicate DatedAfter(c: Claim, now: Instant, d: Claim) {
    var was := if c.updatedAt.Some? then c.updatedAt.value else c.createdAt;
    var second := now - now % 1_000_000_000;
    d.updatedAt == Some(if second >= was + 1_000_000_000 then second else was + 1_000_000_000)
  }

  lemma EditTakesWhatIsGiven(c: Claim, u: Update, now: Instant)
    ensures EditOf(c, u, Edited(c, u, now)) && DatedAfter(c, now, Edited(c, u, now))
  {
  }

  // ---- The queue ----

  function LastChange(c: Claim): Instant {
    if c.updatedAt.Some? then c.updatedAt.value else c.createdAt
  }

  /** A claim displaces the queued version unless that is later; other claims stay. */
  lemma QueueKeepsTheLater(queue: map<ClaimId, Claim>, c: Claim)
    ensures var r := Staged(queue, c);
            && c.id in r
            && (r[c.id] == if c.id in queue && LastChange(queue[c.id]) > LastChange(c) then queue[c.id] else c)
            && forall id :: id != c.id ==> (id in r <==> id in queue) && (id in queue ==> r[id] == queue[id])
  {
  }

  // ---- Recovery ----

  /** The record stands in the way only of a team session, and only until the commit in progress has ended. */
  lemma RecoveryIs(h: Home, s: Session)
    ensures !s.team || (h.edit == None && !h.dreamPending) ==> Recover(h, s) == (h, None)
    ensures s.team && h.dreamPending ==> Recover(h, s) == (h, Some(KnowledgeBusy))
    ensures s.team && !h.dreamPending && h.edit.Some? ==>
              var p := h.edit.value;
              var (g, error) := Recover(h, s);
              && g.claims == h.claims && g.dreamPending == h.dreamPending
              && (error == Some(MissingClaim) <==> p.target.id !in h.claims)
              && (error == Some(NotOwned) <==> p.target.id in h.claims && h.claims[p.target.id].holder != s.agent)
              && (error == None <==> p.target.id in h.claims && h.claims[p.target.id].holder == s.agent)
              && (error.Some? ==> g == h)
              && (error == None ==> g.edit == None)
              && (error == None ==> g.queue == if h.claims[p.target.id] == p.expected.of then h.queue
                                               else Staged(h.queue, h.claims[p.target.id]))
  {
  }

  // ---- Refusals ----

  ghost predicate Empty(u: Update) {
    u.name == None && u.statement == None && u.scope == None && u.evidenceSummary == None && u.confidence == None &&
    u.status == None
  }

  ghost predicate Unfit(text: string, s: Session) {
    Text.Blank(text) || !s.scan(text)
  }

  /** One of the four texts, as they would read after the update, is blank or does not pass the scan. */
  ghost predicate Unacceptable(c: Claim, u: Update, s: Session) {
    || Unfit(Given(u.name, c.name), s) || Unfit(Given(u.statement, c.statement), s)
    || Unfit(Given(u.scope, c.scope), s) || Unfit(Given(u.evidenceSummary, c.evidenceSummary), s)
  }

  /** The reason why an update that finds no record in its way is refused: the first that applies. */
  ghost function Reason(h: Home, s: Session, u: Update): Option<EditError> {
    if Empty(u) then Some(NothingToEdit)
    else if h.dreamPending then Some(KnowledgeBusy)
    else if u.id !in h.claims then Some(MissingClaim)
    else if h.claims[u.id].holder != s.agent then Some(NotOwned)
    else if h.claims[u.id] != u.expected.of then Some(RevisionConflict)
    else if Unacceptable(h.claims[u.id], u, s) then Some(RejectedText)
    else None
  }

  lemma RejectedWhen(c: Claim, s: Session)
    ensures TextAccepted(c, s.scan) <==>
            !(Unfit(c.name, s) || Unfit(c.statement, s) || Unfit(c.scope, s) || Unfit(c.evidenceSummary, s))
  {
    Text.TrimBlank(c.name);
    Text.TrimBlank(c.statement);
    Text.TrimBlank(c.scope);
    Text.TrimBlank(c.evidenceSummary);
  }

  /** An update is refused for exactly these reasons, or because the recovery it starts with is. */
  lemma RefusedExactly(h: Home, s: Session, u: Update, now: Instant)
    ensures Empty(u) || h.dreamPending || Recover(h, s).1 == None ==>
              UpdateClaim(h, s, u, now, Complete).1 == Reason(h, s, u)
    ensures !Empty(u) && !h.dreamPending && Recover(h, s).1.Some? ==>
              UpdateClaim(h, s, u, now, Complete) == Recover(h, s)
  {
    if u.id in h.claims {
      RejectedWhen(Edited(h.claims[u.id], u, now), s);
    }
    RecoveryIs(h, s);
  }

  /** A successful update replaces the claim by its edit, queues it for the team, and touches no other claim. */
  lemma UpdateWrites(h: Home, s: Session, u: Update, now: Instant)
    requires Keyed(h) && UpdateClaim(h, s, u, now, Complete).1 == None
    ensures u.id in h.claims
    ensures var g := UpdateClaim(h, s, u, now, Complete).0;
            && g.claims.Keys == h.claims.Keys && EditOf(h.claims[u.id], u, g.claims[u.id])
            && DatedAfter(h.claims[u.id], now, g.claims[u.id])
            && (forall id :: id in h.claims && id != u.id ==> g.claims[id] == h.claims[id])
            && (s.team ==> g.edit == None && g.queue == Staged(Recover(h, s).0.queue, g.claims[u.id]))
            && (!s.team ==> g.edit == h.edit && g.queue == h.queue)
            && g.dreamPending == h.dreamPending
  {
    RecoveryIs(h, s);
    EditTakesWhatIsGiven(h.claims[u.id], u, now);
  }
}
