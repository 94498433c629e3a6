/** The reviewed entity-resolution protocol: propose, decide, merge, revert, each reading the event log
    and appending at most one event to it.

    The functions give each command's outcome on a store value, branch by branch; the class runs them
    over a mutable store. What the protocol guarantees over whole runs is in module ResolutionRuns. */
module EntityResolution {
  import opened Kernel
  import opened EntityIdentity
  import Sorting

  datatype ResolutionError =
    | SelfPair
    | EntityNotFound(id: EntityId)
    | CrossScope
    | Denied
    | AlreadyAbsorbed(id: EntityId, canonical: EntityId)
    | IdentityCycle(at: EntityId)
    | PendingEquivalent(proposalId: EventId)
    | ApprovedEquivalent(proposalId: EventId)
    | MergedEquivalent(mergeEventId: EventId)
    | NoSignal
    | ProposalNotFound
    | ReasonRequired
    | AlreadyDecided
    | NotApproved
    | SurvivorOutsidePair
    | AlreadyMerged(mergeEventId: EventId)
    | MergeNotFound
    | AlreadyReverted

  datatype World = World(entities: map<EntityId, Scope>, log: Log)

  // ----- reading the log

  function First(log: Log, wanted: DomainEvent -> bool): (r: Option<DomainEvent>)
    ensures r.Some? ==> r.value in log && wanted(r.value)
    ensures r.None? ==> forall e :: e in log ==> !wanted(e)
  {
    if log == [] then None
    else if wanted(log[0]) then Some(log[0])
    else First(log[1..], wanted)
  }

  function ProposalEvent(p: Proposal): DomainEvent {
    ResolutionProposed(p.id, p.proposedAt, p)
  }

  function DecisionEvent(d: ResolutionDecision): DomainEvent {
    ResolutionDecided(d.id, d.decidedAt, d)
  }

  function IsProposal(id: EventId): DomainEvent -> bool {
    (e: DomainEvent) => e.ResolutionProposed? && e.eventId == id
  }

  function IsMergeOf(proposalId: EventId): DomainEvent -> bool {
    (e: DomainEvent) => e.EntityMerged? && e.resolutionProposalId == Some(proposalId)
  }

  function IsMerge(id: EventId): DomainEvent -> bool {
    (e: DomainEvent) => e.EntityMerged? && e.eventId == id
  }

  function FindProposal(log: Log, id: EventId): Option<Proposal> {
    var e := First(log, IsProposal(id));
    if e.None? then None else Some(e.value.proposal)
  }

  predicate IsReverted(log: Log, mergeEventId: EventId) {
    exists e :: e in log && e.MergeReverted? && e.mergeEventId == mergeEventId
  }

  function DecisionsIn(log: Log, proposalId: EventId): (r: seq<ResolutionDecision>)
    ensures forall d :: d in r <==>
              exists e :: e in log && e.ResolutionDecided? && e.decision == d && d.proposalId == proposalId
  {
    if log == [] then []
    else
      var front, last := DecisionsIn(log[..|log| - 1], proposalId), log[|log| - 1];
      assert log == log[..|log| - 1] + [last];
      if last.ResolutionDecided? && last.decision.proposalId == proposalId then front + [last.decision] else front
  }

  predicate DecisionOrder(left: ResolutionDecision, right: ResolutionDecision) {
    left.decidedAt < right.decidedAt || (left.decidedAt == right.decidedAt && left.id <= right.id)
  }

  function ListDecisions(log: Log, proposalId: EventId): (r: seq<ResolutionDecision>)
    ensures forall d :: d in r <==>
              exists e :: e in log && e.ResolutionDecided? && e.decision == d && d.proposalId == proposalId
  {
    Sorting.SortMembers(DecisionsIn(log, proposalId), DecisionOrder);
    Sorting.SortBy(DecisionsIn(log, proposalId), DecisionOrder)
  }

  function LastDecision(log: Log, proposalId: EventId): Option<ResolutionDecision> {
    var ds := ListDecisions(log, proposalId);
    if ds == [] then None else Some(ds[|ds| - 1])
  }

  predicate ProposalMatches(p: Proposal, scope: Scope, entityId: EntityId) {
    p.scope == scope && (p.source == entityId || p.candidate == entityId)
  }

  function ProposalsIn(log: Log, scope: Scope, entityId: EntityId): (r: seq<Proposal>)
    ensures forall p :: p in r <==>
              exists e :: e in log && e.ResolutionProposed? && e.proposal == p && ProposalMatches(p, scope, entityId)
  {
    if log == [] then []
    else
      var front, last := ProposalsIn(log[..|log| - 1], scope, entityId), log[|log| - 1];
      assert log == log[..|log| - 1] + [last];
      if last.ResolutionProposed? && ProposalMatches(last.proposal, scope, entityId) then front + [last.proposal]
      else front
  }

  predicate ProposalOrder(left: Proposal, right: Proposal) {
    left.proposedAt < right.proposedAt || (left.proposedAt == right.proposedAt && left.id <= right.id)
  }

  function ListProposals(log: Log, scope: Scope, entityId: EntityId): (r: seq<Proposal>)
    ensures forall p :: p in r <==>
              exists e :: e in log && e.ResolutionProposed? && e.proposal == p && ProposalMatches(p, scope, entityId)
  {
    Sorting.SortMembers(ProposalsIn(log, scope, entityId), ProposalOrder);
    Sorting.SortBy(ProposalsIn(log, scope, entityId), ProposalOrder)
  }

  // ----- guards

  function MissingEntity(entities: map<EntityId, Scope>, ids: seq<EntityId>): (r: Option<ResolutionError>)
    ensures r.None? <==> forall x :: x in ids ==> x in entities
  {
    if ids == [] then None
    else if ids[0] !in entities then Some(EntityNotFound(ids[0]))
    else MissingEntity(entities, ids[1..])
  }

  function RootError(log: Log, ids: seq<EntityId>): Option<ResolutionError> {
    if ids == [] then None
    else
      match CanonicalId(log, ids[0])
      case Err(e) => Some(IdentityCycle(e.at))
      case Ok(canonical) =>
        if canonical != ids[0] then Some(AlreadyAbsorbed(ids[0], canonical)) else RootError(log, ids[1..])
  }

  predicate SamePair(p: Proposal, source: EntityId, candidate: EntityId): (same: bool)
    ensures same <==> {p.source, p.candidate} == {source, candidate}
  {
    (p.source == source && p.candidate == candidate) || (p.source == candidate && p.candidate == source)
  }

  /** Why proposal `p` still blocks a new proposal of its pair, if it does. */
  function OpenError(log: Log, p: Proposal): Option<ResolutionError> {
    match LastDecision(log, p.id)
    case None => Some(PendingEquivalent(p.id))
    case Some(decision) =>
      if decision.outcome.Rejected? then None
      else
        match First(log, IsMergeOf(p.id))
        case None => Some(ApprovedEquivalent(p.id))
        case Some(merge) => if IsReverted(log, merge.eventId) then None else Some(MergedEquivalent(merge.eventId))
  }

  function EquivalentError(log: Log, proposals: seq<Proposal>, source: EntityId, candidate: EntityId):
    (r: Option<ResolutionError>)
    ensures r.None? <==>
            forall p :: p in proposals && SamePair(p, source, candidate) ==> OpenError(log, p).None?
  {
    if proposals == [] then None
    else
      assert proposals == [proposals[0]] + proposals[1..];
      if SamePair(proposals[0], source, candidate) && OpenError(log, proposals[0]).Some? then
        OpenError(log, proposals[0])
      else EquivalentError(log, proposals[1..], source, candidate)
  }

  // ----- command outcomes

  function ProposeOutcome(w: World, source: EntityId, candidate: EntityId, allowed: bool, signals: nat,
                          id: EventId, now: Timestamp): Result<DomainEvent, ResolutionError> {
    if source == candidate then Err(SelfPair)
    else if MissingEntity(w.entities, [source, candidate]).Some? then
      Err(MissingEntity(w.entities, [source, candidate]).value)
    else if w.entities[source] != w.entities[candidate] then Err(CrossScope)
    else if !allowed then Err(Denied)
    else if RootError(w.log, [source, candidate]).Some? then Err(RootError(w.log, [source, candidate]).value)
    else
      var scope := w.entities[source];
      var open := EquivalentError(w.log, ListProposals(w.log, scope, source), source, candidate);
      if open.Some? then Err(open.value)
      else if signals == 0 then Err(NoSignal)
      else Ok(ProposalEvent(Proposal(id, scope, source, candidate, now)))
  }

  function DecideOutcome(w: World, proposalId: EventId, outcome: Outcome, hasReason: bool, allowed: bool,
                         id: EventId, now: Timestamp): Result<DomainEvent, ResolutionError> {
    match FindProposal(w.log, proposalId)
    case None => Err(ProposalNotFound)
    case Some(p) =>
      if !hasReason then Err(ReasonRequired)
      else if ListDecisions(w.log, proposalId) != [] then Err(AlreadyDecided)
      else if MissingEntity(w.entities, [p.source, p.candidate]).Some? then
        Err(MissingEntity(w.entities, [p.source, p.candidate]).value)
      else if w.entities[p.source] != w.entities[p.candidate] then Err(CrossScope)
      else if !allowed then Err(Denied)
      else Ok(DecisionEvent(ResolutionDecision(id, proposalId, outcome, now)))
  }

  function MergeOutcome(w: World, proposalId: EventId, surviving: EntityId, allowed: bool,
                        id: EventId, now: Timestamp): Result<DomainEvent, ResolutionError> {
    match FindProposal(w.log, proposalId)
    case None => Err(ProposalNotFound)
    case Some(p) =>
      var decision := LastDecision(w.log, proposalId);
      if decision.None? || decision.value.outcome.Rejected? then Err(NotApproved)
      else if surviving != p.source && surviving != p.candidate then Err(SurvivorOutsidePair)
      else
        var absorbed := if surviving == p.source then p.candidate else p.source;
        if MissingEntity(w.entities, [surviving, absorbed]).Some? then
          Err(MissingEntity(w.entities, [surviving, absorbed]).value)
        else if w.entities[surviving] != w.entities[absorbed] then Err(CrossScope)
        else if !allowed then Err(Denied)
        else if RootError(w.log, [surviving, absorbed]).Some? then
          Err(RootError(w.log, [surviving, absorbed]).value)
        else
          match First(w.log, IsMergeOf(proposalId))
          case Some(previous) => Err(AlreadyMerged(previous.eventId))
          case None => Ok(EntityMerged(id, now, surviving, [absorbed], Some(proposalId)))
  }

  function RevertOutcome(w: World, mergeEventId: EventId, hasReason: bool, allowed: bool,
                         id: EventId, now: Timestamp): Result<DomainEvent, ResolutionError> {
    if !hasReason then Err(ReasonRequired)
    else
      match First(w.log, IsMerge(mergeEventId))
      case None => Err(MergeNotFound)
      case Some(merge) =>
        var ids := [merge.surviving] + merge.absorbed;
        if IsReverted(w.log, mergeEventId) then Err(AlreadyReverted)
        else if MissingEntity(w.entities, ids).Some? then Err(MissingEntity(w.entities, ids).value)
        else if exists x :: x in ids && w.entities[x] != w.entities[merge.surviving] then Err(CrossScope)
        else if !allowed then Err(Denied)
        else Ok(MergeReverted(id, now, mergeEventId, merge.surviving, merge.absorbed))
  }

  // ----- the service over a mutable store

  class ResolutionService {
    var entities: map<EntityId, Scope>
    var events: Log
    var outbox: Log

    constructor ()
      ensures entities == map[] && events == [] && outbox == []
    {
      entities, events, outbox := map[], [], [];
    }

    function Store(): World
      reads this
    {
      World(entities, events)
    }

    /** Each transaction appends one event to the log and to the outbox. */
    method Append(event: DomainEvent)
      modifies this`events, this`outbox
      ensures events == old(events) + [event] && outbox == old(outbox) + [event]
    {
      events := events + [event];
      outbox := outbox + [event];
    }

    method RequireEntities(ids: seq<EntityId>) returns (r: Option<ResolutionError>)
      ensures r == MissingEntity(entities, ids)
    {
      for i := 0 to |ids|
        invariant MissingEntity(entities, ids) == MissingEntity(entities, ids[i..])
      {
        if ids[i] !in entities {
          return Some(EntityNotFound(ids[i]));
        }
        assert ids[i..][1..] == ids[i + 1..];
      }
      r := None;
    }

    method AssertResolutionRoots(ids: seq<EntityId>) returns (r: Option<ResolutionError>)
      ensures r == RootError(events, ids)
    {
      for i := 0 to |ids|
        invariant RootError(events, ids) == RootError(events, ids[i..])
      {
        var canonical, _ := CanonicalEntityIdFromEvents(events, ids[i]);
        if canonical.Err? {
          return Some(IdentityCycle(canonical.error.at));
        }
        if canonical.value != ids[i] {
          return Some(AlreadyAbsorbed(ids[i], canonical.value));
        }
        assert ids[i..][1..] == ids[i + 1..];
      }
      r := None;
    }

    /** Why a proposal of the pair in question is still open, if it is. */
    method BlockingError(p: Proposal) returns (r: Option<ResolutionError>)
      ensures r == OpenError(events, p)
    {
      var decisions := ListDecisions(events, p.id);
      if decisions == [] {
        return Some(PendingEquivalent(p.id));
      }
      if decisions[|decisions| - 1].outcome.Approved? {
        var merge := First(events, IsMergeOf(p.id));
        if merge.None? {
          return Some(ApprovedEquivalent(p.id));
        }
        if !IsReverted(events, merge.value.eventId) {
          return Some(MergedEquivalent(merge.value.eventId));
        }
      }
      r := None;
    }

    method AssertNoOpenEquivalentProposal(scope: Scope, source: EntityId, candidate: EntityId)
      returns (r: Option<ResolutionError>)
      ensures r == EquivalentError(events, ListProposals(events, scope, source), source, candidate)
    {
      var proposals := ListProposals(events, scope, source);
      for i := 0 to |proposals|
        invariant EquivalentError(events, proposals, source, candidate) ==
                  EquivalentError(events, proposals[i..], source, candidate)
      {
        assert proposals[i..][1..] == proposals[i + 1..];
        if SamePair(proposals[i], source, candidate) {
          var blocking := BlockingError(proposals[i]);
          if blocking.Some? {
            return blocking;
          }
        }
      }
      r := None;
    }

    method Propose(source: EntityId, candidate: EntityId, allowed: bool, signals: nat, id: EventId, now: Timestamp)
      returns (r: Result<DomainEvent, ResolutionError>)
      modifies this`events, this`outbox
      ensures r == ProposeOutcome(old(Store()), source, candidate, allowed, signals, id, now)
      ensures events == old(events) + (if r.Ok? then [r.value] else [])
      ensures outbox == old(outbox) + (if r.Ok? then [r.value] else [])
    {
      if source == candidate { return Err(SelfPair); }
      var missing := RequireEntities([source, candidate]);
      if missing.Some? { return Err(missing.value); }
      if entities[source] != entities[candidate] { return Err(CrossScope); }
      if !allowed { return Err(Denied); }
      var absorbed := AssertResolutionRoots([source, candidate]);
      if absorbed.Some? { return Err(absorbed.value); }
      var open := AssertNoOpenEquivalentProposal(entities[source], source, candidate);
      if open.Some? { return Err(open.value); }
      if signals == 0 { return Err(NoSignal); }
      var event := ProposalEvent(Proposal(id, entities[source], source, candidate, now));
      Append(event);
      r := Ok(event);
    }

    method Decide(proposalId: EventId, outcome: Outcome, hasReason: bool, allowed: bool, id: EventId, now: Timestamp)
      returns (r: Result<DomainEvent, ResolutionError>)
      modifies this`events, this`outbox
      ensures r == DecideOutcome(old(Store()), proposalId, outcome, hasReason, allowed, id, now)
      ensures events == old(events) + (if r.Ok? then [r.value] else [])
      ensures outbox == old(outbox) + (if r.Ok? then [r.value] else [])
    {
      var proposal := FindProposal(events, proposalId);
      if proposal.None? { return Err(ProposalNotFound); }
      if !hasReason { return Err(ReasonRequired); }
      if ListDecisions(events, proposalId) != [] { return Err(AlreadyDecided); }
      var source, candidate := proposal.value.source, proposal.value.candidate;
      var missing := RequireEntities([source, candidate]);
      if missing.Some? { return Err(missing.value); }
      if entities[source] != entities[candidate] { return Err(CrossScope); }
      if !allowed { return Err(Denied); }
      var event := DecisionEvent(ResolutionDecision(id, proposalId, outcome, now));
      Append(event);
      r := Ok(event);
    }

    method Merge(proposalId: EventId, surviving: EntityId, allowed: bool, id: EventId, now: Timestamp)
      returns (r: Result<DomainEvent, ResolutionError>)
      modifies this`events, this`outbox
      ensures r == MergeOutcome(old(Store()), proposalId, surviving, allowed, id, now)
      ensures events == old(events) + (if r.Ok? then [r.value] else [])
      ensures outbox == old(outbox) + (if r.Ok? then [r.value] else [])
    {
      var proposal := FindProposal(events, proposalId);
      if proposal.None? { return Err(ProposalNotFound); }
      var decisions := ListDecisions(events, proposalId);
      if decisions == [] || decisions[|decisions| - 1].outcome.Rejected? { return Err(NotApproved); }
      var source, candidate := proposal.value.source, proposal.value.candidate;
      if surviving != source && surviving != candidate { return Err(SurvivorOutsidePair); }
      var absorbed := if surviving == source then candidate else source;
      var missing := RequireEntities([surviving, absorbed]);
      if missing.Some? { return Err(missing.value); }
      if entities[surviving] != entities[absorbed] { return Err(CrossScope); }
      if !allowed { return Err(Denied); }
      var notRoot := AssertResolutionRoots([surviving, absorbed]);
      if notRoot.Some? { return Err(notRoot.value); }
      var previous := First(events, IsMergeOf(proposalId));
      if previous.Some? { return Err(AlreadyMerged(previous.value.eventId)); }
      var event := EntityMerged(id, now, surviving, [absorbed], Some(proposalId));
      Append(event);
      r := Ok(event);
    }

    method Revert(mergeEventId: EventId, hasReason: bool, allowed: bool, id: EventId, now: Timestamp)
      returns (r: Result<DomainEvent, ResolutionError>)
      modifies this`events, this`outbox
      ensures r == RevertOutcome(old(Store()), mergeEventId, hasReason, allowed, id, now)
      ensures events == old(events) + (if r.Ok? then [r.value] else [])
      ensures outbox == old(outbox) + (if r.Ok? then [r.value] else [])
    {
      if !hasReason { return Err(ReasonRequired); }
      var merge := First(events, IsMerge(mergeEventId));
      if merge.None? { return Err(MergeNotFound); }
      if IsReverted(events, mergeEventId) { return Err(AlreadyReverted); }
      var ids := [merge.value.surviving] + merge.value.absorbed;
      var missing := RequireEntities(ids);
      if missing.Some? { return Err(missing.value); }
      if exists x :: x in ids && entities[x] != entities[merge.value.surviving] { return Err(CrossScope); }
      if !allowed { return Err(Denied); }
      var event := MergeReverted(id, now, mergeEventId, merge.value.surviving, merge.value.absorbed);
      Append(event);
      r := Ok(event);
    }
  }
}
