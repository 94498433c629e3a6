/** The kernel vocabulary shared by every capability: identifiers, claims, the claim predicates
    and the domain events.

    Identifiers are natural numbers: only equality and one total order (the source's `localeCompare`)
    is ever used on them. Timestamps are integers, ordered as ISO-8601 strings are. */
module Kernel {

  type EntityId = nat
  type ClaimId = nat
  type EventId = nat
  type ConflictId = nat
  type Timestamp = int

  datatype Option<+T> = None | Some(value: T)

  datatype Result<+T, +E> = Ok(value: T) | Err(error: E)

  function Lookup<K, V>(table: map<K, V>, key: K): Option<V> {
    if key in table then Some(table[key]) else None
  }

  /** Tenant and namespace of a record. */
  datatype Scope = Scope(tenant: nat, namespace: nat)

  datatype ClaimStatus = Asserted | Retracted | Superseded | Conflicted

  datatype ClaimObject =
    | EntityObject(entityId: EntityId)
    | LiteralObject(text: string, datatypeName: Option<string>)

  datatype Claim = Claim(
    id: ClaimId,
    scope: Scope,
    subject: EntityId,
    predicateName: string,
    obj: ClaimObject,
    validFrom: Timestamp,
    validTo: Option<Timestamp>,
    recordedAt: Timestamp,
    status: ClaimStatus)

  datatype Temporal = Temporal(validAt: Option<Timestamp>, knownAt: Option<Timestamp>)

  predicate ClaimValidAt(claim: Claim, asOf: Option<Timestamp>) {
    asOf.None? ||
    (claim.validFrom <= asOf.value && (claim.validTo.None? || asOf.value < claim.validTo.value))
  }

  predicate ClaimKnownAt(claim: Claim, knownAt: Option<Timestamp>) {
    knownAt.None? || claim.recordedAt <= knownAt.value
  }

  predicate ClaimVisibleAt(claim: Claim, temporal: Temporal) {
    claim.status != Retracted && ClaimValidAt(claim, temporal.validAt) && ClaimKnownAt(claim, temporal.knownAt)
  }

  datatype Outcome = Approved | Rejected

  /** A proposal's id is the id of the event that records it. */
  datatype Proposal = Proposal(id: EventId, scope: Scope, source: EntityId, candidate: EntityId, proposedAt: Timestamp)

  datatype ResolutionDecision =
    ResolutionDecision(id: EventId, proposalId: EventId, outcome: Outcome, decidedAt: Timestamp)

  datatype DomainEvent =
    | ClaimAsserted(eventId: EventId, occurredAt: Timestamp, claimId: ClaimId)
    | ClaimRetracted(eventId: EventId, occurredAt: Timestamp, claimId: ClaimId)
    | ResolutionProposed(eventId: EventId, occurredAt: Timestamp, proposal: Proposal)
    | ResolutionDecided(eventId: EventId, occurredAt: Timestamp, decision: ResolutionDecision)
    | EntityMerged(eventId: EventId, occurredAt: Timestamp, surviving: EntityId, absorbed: seq<EntityId>,
                   resolutionProposalId: Option<EventId>)
    | MergeReverted(eventId: EventId, occurredAt: Timestamp, mergeEventId: EventId, survivor: EntityId,
                    restored: seq<EntityId>)
    | OtherEvent(eventId: EventId, occurredAt: Timestamp)

  type Log = seq<DomainEvent>

  /** Event ids are the primary key of the event table. */
  ghost predicate DistinctIds(log: Log) {
    forall i, j :: 0 <= i < j < |log| ==> log[i].eventId != log[j].eventId
  }
}
