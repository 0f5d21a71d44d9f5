/** The edit protocol as the program runs it: one file after another, under the knowledge lock. */
module ClaimEditor {
  import opened Claims
  import opened ClaimEdits
  import opened ClaimEffects

  class AgentHome {
    var claims: map<ClaimId, Claim>
    var queue: map<ClaimId, Claim>
    var edit: Option<PendingEdit>
    var dreamPending: bool

    constructor ()
      ensures State() == Home(map[], map[], None, false)
    {
      claims, queue, edit, dreamPending := map[], map[], None, false;
    }

    function State(): Home
      reads this
    {
      Home(claims, queue, edit, dreamPending)
    }

    method RecoverPendingEdit(s: Session) returns (error: Option<EditError>)
      modifies this`queue, this`edit
      ensures (State(), error) == Recover(old(State()), s)
    {
      if !s.team {
        return None;
      }
      if dreamPending {
        return Some(KnowledgeBusy);
      }
      if edit == None {
        return None;
      }
      var pending := edit.value;
      error := OwnedError(State(), s.agent, pending.target.id);
      if error.Some? {
        return error;
      }
      var current := claims[pending.target.id];
      if Digest(current) != pending.expected {
        queue := Staged(queue, current);
        assert State() == HalfRecovered(old(State()), s);
      }
      edit := None;
    }

    method UpdateClaim(s: Session, u: Update, now: Instant) returns (error: Option<EditError>)
      modifies this`claims, this`queue, this`edit
      ensures (State(), error) == ClaimEdits.UpdateClaim(old(State()), s, u, now, Complete)
      ensures error.Some? ==> claims == old(claims)
      ensures error == None && Keyed(old(State())) ==>
                && u.id in old(claims) && claims.Keys == old(claims).Keys
                && EditOf(old(claims)[u.id], u, claims[u.id]) && DatedAfter(old(claims)[u.id], now, claims[u.id])
                && forall id :: id in claims && id != u.id ==> claims[id] == old(claims)[id]
    {
      if Keyed(State()) && ClaimEdits.UpdateClaim(State(), s, u, now, Complete).1 == None {
        UpdateWrites(State(), s, u, now);
      }
      if !EditsSomething(u) {
        return Some(NothingToEdit);
      }
      if dreamPending {
        return Some(KnowledgeBusy);
      }
      error := RecoverPendingEdit(s);
      if error.Some? {
        return error;
      }
      error := OwnedError(State(), s.agent, u.id);
      if error.Some? {
        return error;
      }
      var current := claims[u.id];
      if u.expected != Digest(current) {
        return Some(RevisionConflict);
      }
      var next := Revise(current, u, now);
      if !TextAccepted(next, s.scan) {
        return Some(RejectedText);
      }
      Commit(s, u, now, next);
    }

    method Revise(current: Claim, u: Update, now: Instant) returns (next: Claim)
      ensures next == Edited(current, u, now)
    {
      next := current;
      if u.name.Some? {
        next := next.(name := u.name.value);
      }
      if u.statement.Some? {
        next := next.(statement := u.statement.value);
      }
      if u.scope.Some? {
        next := next.(scope := u.scope.value);
      }
      if u.evidenceSummary.Some? {
        next := next.(evidenceSummary := u.evidenceSummary.value);
      }
      if u.confidence.Some? {
        next := next.(confidence := u.confidence.value);
      }
      if u.status.Some? {
        next := next.(status := u.status.value);
      }
      next := next.(updatedAt := Some(NextUpdateAt(TruncateToSecond(now), current.EffectiveUpdatedAt())));
    }

    /** After each write the home is the one an interrupted call would have left behind. */
    method Commit(s: Session, u: Update, now: Instant, next: Claim)
      requires u.id in claims && next == Edited(claims[u.id], u, now)
      modifies this`claims, this`queue, this`edit
      ensures State() == Carried(old(State()), s, u, now, Complete)
    {
      ghost var was := State();
      if s.team {
        edit := Some(PendingEdit(Digest(claims[u.id]), next));
        assert State() == Carried(was, s, u, now, Logged);
      }
      claims := claims[next.id := next];
      assert State() == Carried(was, s, u, now, Written);
      if s.team {
        queue := Staged(queue, next);
        assert State() == Carried(was, s, u, now, Queued);
        edit := None;
      }
    }
  }
}
