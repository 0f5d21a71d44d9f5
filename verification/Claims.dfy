/** The claim record shared by the agent-side modules. */
module Claims {
  // Identifiers are opaque tokens. Naturals give them equality and a total order.
  type ClaimId = nat
  type AgentId = nat
  type PolicyId = nat

  // Instants are nanoseconds; clocks may be set backwards.
  type Instant = int

  datatype Option<+T> = None | Some(value: T)

  datatype Confidence = High | Medium | Low

  datatype ClaimStatus = Active | Stale | Deprecated

  datatype SourceId = FromClaim(claim: ClaimId) | FromPolicy(policy: PolicyId)

  datatype Claim = Claim(
    id: ClaimId,
    name: string,
    statement: string,
    scope: string,
    holder: AgentId,
    confidence: Confidence,
    status: ClaimStatus,
    createdAt: Instant,
    updatedAt: Option<Instant>,
    sourceClaimIds: seq<SourceId>,
    evidenceSummary: string)
  {
    /** The last semantic update; claims never revised fall back to their creation. */
    function EffectiveUpdatedAt(): Instant {
      match updatedAt
      case Some(t) => t
      case None => createdAt
    }
  }

  /** No two claims of a collection carry the same id. */
  ghost predicate UniqueIds(claims: seq<Claim>) {
    forall i, j :: 0 <= i < |claims| && 0 <= j < |claims| && claims[i].id == claims[j].id ==> i == j
  }
}
