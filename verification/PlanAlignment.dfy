/**
 Reconciling a half-executed plan with the current claims. A plan was drawn up from analysed versions and
 rewrites some claims into exact targets; a crash may fall between a write and the record of it.
 */
module PlanAlignment {
  import opened Claims

  /** The claims by id; of several with one id the last counts. */
  function ById(claims: seq<Claim>): map<ClaimId, Claim> {
    if claims == [] then map[] else
      var last := claims[|claims| - 1];
      ById(claims[..|claims| - 1])[last.id := last]
  }

  function Find(claims: seq<Claim>, id: ClaimId): Option<Claim> {
    if id in ById(claims) then Some(ById(claims)[id]) else None
  }

  lemma {:induction false} ByIdMembers(claims: seq<Claim>)
    ensures forall id :: id in ById(claims) ==> ById(claims)[id] in claims && ById(claims)[id].id == id
    ensures forall c :: c in claims ==> c.id in ById(claims)
    ensures UniqueIds(claims) ==> forall c :: c in claims ==> ById(claims)[c.id] == c
  {
    if claims != [] {
      var init, last := claims[..|claims| - 1], claims[|claims| - 1];
      ByIdMembers(init);
      assert claims == init + [last];
      if UniqueIds(claims) {
        LastIsNew(claims);
        assert forall c :: c in init ==> c.id in Ids(init);
      }
    }
  }

  lemma LastIsNew(claims: seq<Claim>)
    requires claims != [] && UniqueIds(claims)
    ensures UniqueIds(claims[..|claims| - 1])
    ensures claims[|claims| - 1].id !in Ids(claims[..|claims| - 1])
  {
    var init, last := claims[..|claims| - 1], claims[|claims| - 1];
    assert forall i :: 0 <= i < |init| ==> init[i] == claims[i] && init[i].id != last.id;
  }

  /** With unique ids, looking up and belonging are the same. */
  lemma FindIsMembership(claims: seq<Claim>, id: ClaimId, c: Claim)
    requires UniqueIds(claims) && c.id == id
    ensures Find(claims, id) == Some(c) <==> c in claims
    ensures Find(claims, id) == None <==> forall d :: d in claims ==> d.id != id
  {
    ByIdMembers(claims);
  }

  // ---- Recording what has been applied ----

  function ObserveApplied(targets: seq<Claim>, current: seq<Claim>, applied: seq<Claim>): seq<Claim> {
    if targets == [] then applied else
      var init, t := targets[..|targets| - 1], targets[|targets| - 1];
      var so := ObserveApplied(init, current, applied);
      if t.id !in Ids(so) && t in current then so + [t] else so
  }

  function Ids(claims: seq<Claim>): set<ClaimId> {
    set c | c in claims :: c.id
  }

  method Observe(targets: seq<Claim>, current: seq<Claim>, applied: seq<Claim>) returns (r: seq<Claim>)
    ensures r == ObserveApplied(targets, current, applied)
  {
    r := applied;
    for i := 0 to |targets|
      invariant r == ObserveApplied(targets[..i], current, applied)
    {
      assert targets[..i + 1][..i] == targets[..i];
      if targets[i].id !in Ids(r) && targets[i] in current {
        r := r + [targets[i]];
      }
    }
    assert targets[..|targets|] == targets;
  }

  /** What is recorded: the earlier record, and each exact target now in place whose id was not on record. */
  lemma {:induction false} ObservedMembers(targets: seq<Claim>, current: seq<Claim>, applied: seq<Claim>)
    requires UniqueIds(targets)
    ensures forall c :: c in ObserveApplied(targets, current, applied) <==>
              c in applied || (c in targets && c in current && c.id !in Ids(applied))
  {
    if targets != [] {
      var init, t := targets[..|targets| - 1], targets[|targets| - 1];
      assert targets == init + [t];
      LastIsNew(targets);
      ObservedMembers(init, current, applied);
      var so := ObserveApplied(init, current, applied);
      assert forall c :: c in init ==> c.id in Ids(init);
      assert t.id in Ids(so) <==> t.id in Ids(applied) by {
        assert t.id in Ids(applied) ==> exists c :: c in applied && c.id == t.id && c in so;
      }
    }
  }

  // ---- Comparing ----

  /** What each claim of the analysis or the plan should be now; absence where nothing was analysed. */
  function Expected(analysis: Option<seq<Claim>>, targets: seq<Claim>, applied: seq<Claim>):
    map<ClaimId, Option<Claim>>
  {
    WithApplied(Baseline(ById(if analysis.Some? then analysis.value else []), targets), targets, applied)
  }

  function Baseline(analysed: map<ClaimId, Claim>, targets: seq<Claim>): map<ClaimId, Option<Claim>> {
    map id | id in analysed.Keys + Ids(targets) :: if id in analysed then Some(analysed[id]) else None
  }

  function WithApplied(before: map<ClaimId, Option<Claim>>, targets: seq<Claim>, applied: seq<Claim>):
    map<ClaimId, Option<Claim>>
  {
    if applied == [] then before else
      var init, c := applied[..|applied| - 1], applied[|applied| - 1];
      var so := WithApplied(before, targets, init);
      if c in targets then so[c.id := Some(c)] else so
  }

  datatype Field = Existence | Name | Statement | Scope | Holder | ConfidenceLevel | Status | CreatedAt | UpdatedAt |
                   SourceClaimIds | EvidenceSummary

  predicate Differs(f: Field, a: Claim, b: Claim) {
    match f
    case Existence => false
    case Name => a.name != b.name
    case Statement => a.statement != b.statement
    case Scope => a.scope != b.scope
    case Holder => a.holder != b.holder
    case ConfidenceLevel => a.confidence != b.confidence
    case Status => a.status != b.status
    case CreatedAt => a.createdAt != b.createdAt
    case UpdatedAt => a.updatedAt != b.updatedAt
    case SourceClaimIds => a.sourceClaimIds != b.sourceClaimIds
    case EvidenceSummary => a.evidenceSummary != b.evidenceSummary
  }

  const REPORTED_FIELDS: seq<Field> :=
    [Name, Statement, Scope, Holder, ConfidenceLevel, Status, CreatedAt, UpdatedAt, SourceClaimIds, EvidenceSummary]

  function DifferingFields(fields: seq<Field>, a: Claim, b: Claim): (r: seq<Field>)
    ensures forall f :: f in r <==> f in fields && Differs(f, a, b)
  {
    if fields == [] then [] else
      assert fields == [fields[0]] + fields[1..];
      var rest := DifferingFields(fields[1..], a, b);
      if Differs(fields[0], a, b) then [fields[0]] + rest else rest
  }

  function ChangedFields(before: Option<Claim>, current: Option<Claim>): seq<Field> {
    if before == None || current == None then [Existence]
    else DifferingFields(REPORTED_FIELDS, before.value, current.value)
  }

  datatype Difference = Difference(before: Option<Claim>, current: Option<Claim>, changedFields: seq<Field>)

  function Changes(analysis: Option<seq<Claim>>, targets: seq<Claim>, applied: seq<Claim>, current: seq<Claim>):
    map<ClaimId, Difference>
  {
    var expected := Expected(analysis, targets, applied);
    map id | id in expected && Find(current, id) != expected[id] ::
      Difference(expected[id], Find(current, id), ChangedFields(expected[id], Find(current, id)))
  }

  predicate AnalysisIsStale(analysis: Option<seq<Claim>>, changes: map<ClaimId, Difference>) {
    analysis == None || changes != map[]
  }

  method IndexById(claims: seq<Claim>) returns (r: map<ClaimId, Claim>)
    ensures r == ById(claims)
  {
    r := map[];
    for i := 0 to |claims|
      invariant r == ById(claims[..i])
    {
      assert claims[..i + 1][..i] == claims[..i];
      r := r[claims[i].id := claims[i]];
    }
    assert claims[..|claims|] == claims;
  }

  method ReportChanges(analysis: Option<seq<Claim>>, targets: seq<Claim>, applied: seq<Claim>, current: seq<Claim>)
    returns (report: map<ClaimId, Difference>)
    ensures report == Changes(analysis, targets, applied, current)
  {
    var analysed := IndexById(if analysis.Some? then analysis.value else []);
    var expected := ExpectAnalysed(analysed, targets);
    expected := ExpectApplied(expected, targets, applied);
    report := map id | id in expected && Find(current, id) != expected[id] ::
      Difference(expected[id], Find(current, id), ChangedFields(expected[id], Find(current, id)));
  }

  method ExpectAnalysed(analysed: map<ClaimId, Claim>, targets: seq<Claim>)
    returns (expected: map<ClaimId, Option<Claim>>)
    ensures expected == Baseline(analysed, targets)
  {
    expected := map id | id in analysed :: Some(analysed[id]);
    for i := 0 to |targets|
      invariant expected == Baseline(analysed, targets[..i])
    {
      var id := targets[i].id;
      assert targets[..i + 1] == targets[..i] + [targets[i]];
      assert Ids(targets[..i + 1]) == Ids(targets[..i]) + {id};
      if id !in expected {
        expected := expected[id := None];
      }
    }
    assert targets[..|targets|] == targets;
  }

  method ExpectApplied(before: map<ClaimId, Option<Claim>>, targets: seq<Claim>, applied: seq<Claim>)
    returns (expected: map<ClaimId, Option<Claim>>)
    ensures expected == WithApplied(before, targets, applied)
  {
    expected := before;
    for i := 0 to |applied|
      invariant expected == WithApplied(before, targets, applied[..i])
    {
      assert applied[..i + 1][..i] == applied[..i];
      if applied[i] in targets {
        expected := expected[applied[i].id := Some(applied[i])];
      }
    }
    assert applied[..|applied|] == applied;
  }

  // ---- What the comparison decides ----

  lemma {:induction false} WithAppliedAt(before: map<ClaimId, Option<Claim>>, targets: seq<Claim>, applied: seq<Claim>,
                                         id: ClaimId)
    requires UniqueIds(targets) && Ids(targets) <= before.Keys
    ensures WithApplied(before, targets, applied).Keys == before.Keys
    ensures id in before ==>
              WithApplied(before, targets, applied)[id] ==
              if Find(targets, id).Some? && Find(targets, id).value in applied then Find(targets, id) else before[id]
  {
    ByIdMembers(targets);
    if applied != [] {
      var init, c := applied[..|applied| - 1], applied[|applied| - 1];
      assert applied == init + [c];
      WithAppliedAt(before, targets, init, id);
      if c in targets {
        assert c.id in Ids(targets);
        FindIsMembership(targets, c.id, c);
      }
    }
  }

  /** The claim is in a state the plan accounts for, given what was already on record as applied. */
  ghost predicate Accounted(analysis: seq<Claim>, targets: seq<Claim>, recorded: seq<Claim>, current: seq<Claim>,
                            id: ClaimId)
  {
    var actual, analysed, target := Find(current, id), Find(analysis, id), Find(targets, id);
    if id !in Ids(recorded) then actual == analysed || (target.Some? && actual == target)
    else if target.Some? && target.value in recorded then actual == target
    else actual == analysed
  }

  /**
   The exact test, for any record: nothing is reported iff every claim of the analysis or the plan holds its
   analysed value (or is absent like it) or its exact target; a target on record must still be in place.
   */
  lemma ReportIsExact(analysis: seq<Claim>, targets: seq<Claim>, recorded: seq<Claim>, current: seq<Claim>)
    requires UniqueIds(analysis) && UniqueIds(targets) && UniqueIds(current)
    ensures Changes(Some(analysis), targets, ObserveApplied(targets, current, recorded), current) == map[] <==>
            forall id :: id in Ids(analysis) + Ids(targets) ==> Accounted(analysis, targets, recorded, current, id)
  {
    var applied := ObserveApplied(targets, current, recorded);
    var changes := Changes(Some(analysis), targets, applied, current);
    forall id
      ensures id in changes <==>
              id in Ids(analysis) + Ids(targets) && !Accounted(analysis, targets, recorded, current, id)
    {
      ReportedIffUnaccounted(analysis, targets, recorded, current, id);
    }
    if changes == map[] {
      assert forall id :: id !in changes;
    }
  }

  lemma ReportedIffUnaccounted(analysis: seq<Claim>, targets: seq<Claim>, recorded: seq<Claim>, current: seq<Claim>,
                               id: ClaimId)
    requires UniqueIds(analysis) && UniqueIds(targets) && UniqueIds(current)
    ensures id in Changes(Some(analysis), targets, ObserveApplied(targets, current, recorded), current) <==>
            id in Ids(analysis) + Ids(targets) && !Accounted(analysis, targets, recorded, current, id)
  {
    var applied := ObserveApplied(targets, current, recorded);
    ByIdMembers(analysis);
    ByIdMembers(targets);
    ByIdMembers(current);
    ObservedMembers(targets, current, recorded);
    var analysed := ById(analysis);
    var before := Baseline(analysed, targets);
    WithAppliedAt(before, targets, applied, id);
    assert before.Keys == Ids(analysis) + Ids(targets);
    if Find(targets, id).Some? {
      var t := Find(targets, id).value;
      FindIsMembership(current, id, t);
      assert t in recorded ==> t.id in Ids(recorded);
    }
  }

  /** Every partially written plan is accepted: any part of the targets in place, the rest as analysed. */
  lemma PartialPlanIsAccepted(analysis: seq<Claim>, targets: seq<Claim>, current: seq<Claim>, written: set<ClaimId>)
    requires UniqueIds(analysis) && UniqueIds(targets) && UniqueIds(current)
    requires forall id :: id in Ids(analysis) + Ids(targets) ==>
               Find(current, id) == Find(if id in written && id in Ids(targets) then targets else analysis, id)
    ensures var applied := ObserveApplied(targets, current, []);
            !AnalysisIsStale(Some(analysis), Changes(Some(analysis), targets, applied, current))
  {
    ByIdMembers(targets);
    assert Ids([]) == {};
    ReportIsExact(analysis, targets, [], current);
  }

  /** Any other state of any such claim is flagged, and the report names at least one field that changed. */
  lemma OtherEditsAreFlagged(analysis: seq<Claim>, targets: seq<Claim>, current: seq<Claim>, id: ClaimId)
    requires UniqueIds(analysis) && UniqueIds(targets) && UniqueIds(current)
    requires id in Ids(analysis) + Ids(targets)
    requires Find(current, id) != Find(analysis, id) && (id in Ids(targets) ==> Find(current, id) != Find(targets, id))
    ensures var changes := Changes(Some(analysis), targets, ObserveApplied(targets, current, []), current);
            AnalysisIsStale(Some(analysis), changes) && id in changes && changes[id].changedFields != []
  {
    ByIdMembers(targets);
    ByIdMembers(analysis);
    ByIdMembers(current);
    assert Ids([]) == {};
    ReportedIffUnaccounted(analysis, targets, [], current, id);
    var change := Changes(Some(analysis), targets, ObserveApplied(targets, current, []), current)[id];
    ObservedMembers(targets, current, []);
    var analysed := ById(analysis);
    var before := Baseline(analysed, targets);
    WithAppliedAt(before, targets, ObserveApplied(targets, current, []), id);
    if change.before.Some? && change.current.Some? {
      DifferenceIsNamed(change.before.value, change.current.value);
    }
  }

  /** Two versions of one claim that differ at all differ in a reported field. */
  lemma DifferenceIsNamed(a: Claim, b: Claim)
    requires a.id == b.id && a != b
    ensures exists f :: f in DifferingFields(REPORTED_FIELDS, a, b)
  {
    var f := if a.name != b.name then Name
             else if a.statement != b.statement then Statement
             else if a.scope != b.scope then Scope
             else if a.holder != b.holder then Holder
             else if a.confidence != b.confidence then ConfidenceLevel
             else if a.status != b.status then Status
             else if a.createdAt != b.createdAt then CreatedAt
             else if a.updatedAt != b.updatedAt then UpdatedAt
             else if a.sourceClaimIds != b.sourceClaimIds then SourceClaimIds
             else EvidenceSummary;
    assert f in REPORTED_FIELDS && Differs(f, a, b);
    assert f in DifferingFields(REPORTED_FIELDS, a, b);
  }

  // ---- What a reported difference says ----

  /** The claim of that id, or that there is none. */
  ghost predicate Holds(claims: seq<Claim>, id: ClaimId, r: Option<Claim>) {
    match r
    case Some(c) => c in claims && c.id == id
    case None => forall c :: c in claims ==> c.id != id
  }

  ghost predicate InPlace(targets: seq<Claim>, applied: seq<Claim>, id: ClaimId, c: Claim) {
    c in targets && c in applied && c.id == id
  }

  /** Existence where one side is missing; otherwise exactly the fields that differ. */
  ghost predicate Names(fields: seq<Field>, before: Option<Claim>, current: Option<Claim>) {
    if before == None || current == None then fields == [Existence]
    else
      && Existence !in fields
      && NamesTexts(fields, before.value, current.value) && NamesOthers(fields, before.value, current.value)
  }

  ghost predicate NamesTexts(fields: seq<Field>, a: Claim, b: Claim) {
    && (Name in fields <==> a.name != b.name)
    && (Statement in fields <==> a.statement != b.statement)
    && (Scope in fields <==> a.scope != b.scope)
    && (EvidenceSummary in fields <==> a.evidenceSummary != b.evidenceSummary)
  }

  ghost predicate NamesOthers(fields: seq<Field>, a: Claim, b: Claim) {
    && (Holder in fields <==> a.holder != b.holder)
    && (ConfidenceLevel in fields <==> a.confidence != b.confidence)
    && (Status in fields <==> a.status != b.status)
    && (CreatedAt in fields <==> a.createdAt != b.createdAt)
    && (UpdatedAt in fields <==> a.updatedAt != b.updatedAt)
    && (SourceClaimIds in fields <==> a.sourceClaimIds != b.sourceClaimIds)
  }

  lemma AllButExistence(f: Field)
    ensures f in REPORTED_FIELDS <==> f != Existence
  {
    var fields := REPORTED_FIELDS;
    match f
    case Existence =>
    case Name => assert fields[0] == f;
    case Statement => assert fields[1] == f;
    case Scope => assert fields[2] == f;
    case Holder => assert fields[3] == f;
    case ConfidenceLevel => assert fields[4] == f;
    case Status => assert fields[5] == f;
    case CreatedAt => assert fields[6] == f;
    case UpdatedAt => assert fields[7] == f;
    case SourceClaimIds => assert fields[8] == f;
    case EvidenceSummary => assert fields[9] == f;
  }

  lemma FieldIsNamed(f: Field, a: Claim, b: Claim)
    ensures f in DifferingFields(REPORTED_FIELDS, a, b) <==> f != Existence && Differs(f, a, b)
  {
    AllButExistence(f);
  }

  lemma TextsAreNamed(a: Claim, b: Claim)
    ensures NamesTexts(DifferingFields(REPORTED_FIELDS, a, b), a, b)
  {
    FieldIsNamed(Name, a, b);
    FieldIsNamed(Statement, a, b);
    FieldIsNamed(Scope, a, b);
    FieldIsNamed(EvidenceSummary, a, b);
  }

  lemma OthersAreNamed(a: Claim, b: Claim)
    ensures NamesOthers(DifferingFields(REPORTED_FIELDS, a, b), a, b)
  {
    FieldIsNamed(Holder, a, b);
    FieldIsNamed(ConfidenceLevel, a, b);
    FieldIsNamed(Status, a, b);
    FieldIsNamed(CreatedAt, a, b);
    FieldIsNamed(UpdatedAt, a, b);
    FieldIsNamed(SourceClaimIds, a, b);
  }

  lemma FieldsAreNamed(before: Option<Claim>, current: Option<Claim>)
    ensures Names(ChangedFields(before, current), before, current)
  {
    if before.Some? && current.Some? {
      FieldIsNamed(Existence, before.value, current.value);
      TextsAreNamed(before.value, current.value);
      OthersAreNamed(before.value, current.value);
    }
  }

  lemma FindHolds(claims: seq<Claim>, id: ClaimId)
    ensures Holds(claims, id, Find(claims, id))
  {
    ByIdMembers(claims);
  }

  /**
   A difference sets the target where it is on record as applied, and the analysed version otherwise, against the
   version in place, and names the fields in which they differ.
   */
  lemma DifferenceIs(analysis: seq<Claim>, targets: seq<Claim>, applied: seq<Claim>, current: seq<Claim>, id: ClaimId)
    requires UniqueIds(targets) && id in Changes(Some(analysis), targets, applied, current)
    ensures var d := Changes(Some(analysis), targets, applied, current)[id];
            && Holds(current, id, d.current) && d.before != d.current && Names(d.changedFields, d.before, d.current)
            && (forall c :: InPlace(targets, applied, id, c) ==> d.before == Some(c))
            && ((forall c :: !InPlace(targets, applied, id, c)) ==> Holds(analysis, id, d.before))
  {
    ExpectedIs(analysis, targets, applied, id);
    FindHolds(current, id);
    var d := Changes(Some(analysis), targets, applied, current)[id];
    FieldsAreNamed(d.before, d.current);
  }

  lemma ExpectedIs(analysis: seq<Claim>, targets: seq<Claim>, applied: seq<Claim>, id: ClaimId)
    requires UniqueIds(targets) && id in Expected(Some(analysis), targets, applied)
    ensures var before := Expected(Some(analysis), targets, applied)[id];
            && (forall c :: InPlace(targets, applied, id, c) ==> before == Some(c))
            && ((forall c :: !InPlace(targets, applied, id, c)) ==> Holds(analysis, id, before))
  {
    ByIdMembers(analysis);
    WithAppliedAt(Baseline(ById(analysis), targets), targets, applied, id);
    FindHolds(analysis, id);
    FindHolds(targets, id);
    forall c | InPlace(targets, applied, id, c)
      ensures Find(targets, id) == Some(c)
    {
      FindIsMembership(targets, id, c);
    }
    if Find(targets, id).Some? && Find(targets, id).value in applied {
      assert InPlace(targets, applied, id, Find(targets, id).value);
    }
  }

  /** An analysis counts as stale without one, or when any difference is reported. */
  lemma StaleWhen(analysis: Option<seq<Claim>>, changes: map<ClaimId, Difference>)
    ensures AnalysisIsStale(analysis, changes) <==> analysis.None? || exists id :: id in changes
  {
    if forall id :: id !in changes {
      assert changes == map[];
    }
  }
}
