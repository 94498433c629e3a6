/** Which error a refused entity-resolution command reports, in any state a run can reach, and what an accepted one
    records: in terms of what the log says about proposals, decisions and merges. */
module ResolutionErrors {
  import opened Kernel
  import opened EntityIdentity
  import opened EntityResolution
  import opened ResolutionRuns
  import opened ResolutionGuards
  import Sorting

  // ----- the guard against equivalent proposals

  /** An undecided proposal is pending, an approved one without a merge approved, one with a standing merge merged; a
      rejected or reverted one blocks nothing. */
  lemma OpenErrorIs(log: Log, p: Proposal)
    requires DecidedAtMostOnce(log) && MergedOnceIfApproved(log) && DistinctIds(log) && ProposalEvent(p) in log
    ensures !Decided(log, p.id) ==> OpenError(log, p) == Some(PendingEquivalent(p.id))
    ensures ApprovedBy(log, p.id) && !Merged(log, p.id) ==> OpenError(log, p) == Some(ApprovedEquivalent(p.id))
    ensures forall e :: e in log && MergeOf(e, p.id) ==>
              OpenError(log, p) == if IsReverted(log, e.eventId) then None else Some(MergedEquivalent(e.eventId))
    ensures Decided(log, p.id) && !ApprovedBy(log, p.id) ==> OpenError(log, p) == None
  {
    LastDecisionMeaning(log, p.id);
    UnmergedIff(log, p.id);
    NotApprovedUndecided(log, p.id);
    forall e | e in log && MergeOf(e, p.id)
      ensures OpenError(log, p) == if IsReverted(log, e.eventId) then None else Some(MergedEquivalent(e.eventId))
    {
      var merge := First(log, IsMergeOf(p.id));
      assert IsMergeOf(p.id)(e) && Backed(log, e);
      assert merge.value == e;
    }
  }

  lemma FirstOpenError(log: Log, proposals: seq<Proposal>, x: EntityId, y: EntityId, p: Proposal)
    requires p in proposals && SamePair(p, x, y) && OpenError(log, p).Some?
    requires forall q :: q in proposals && SamePair(q, x, y) && OpenError(log, q).Some? ==> q == p
    ensures EquivalentError(log, proposals, x, y) == OpenError(log, p)
  {
    if !(SamePair(proposals[0], x, y) && OpenError(log, proposals[0]).Some?) {
      FirstOpenError(log, proposals[1..], x, y, p);
    }
  }

  /** The one live proposal of the pair decides the error. */
  lemma PairErrorIs(w: World, x: EntityId, y: EntityId, p: Proposal)
    requires Sound(w) && Colocated(w, x, y) && ProposalEvent(p) in w.log && SamePair(p, x, y) && Live(w.log, p)
    ensures EquivalentError(w.log, ListProposals(w.log, w.entities[x], x), x, y) == OpenError(w.log, p)
  {
    var listed := ListProposals(w.log, w.entities[x], x);
    ListedProposal(w, p, x, y);
    OpenErrorIffLive(w.log, p);
    forall q | q in listed && SamePair(q, x, y) && OpenError(w.log, q).Some? ensures q == p {
      ListedProposal(w, q, x, y);
      OpenErrorIffLive(w.log, q);
    }
    FirstOpenError(w.log, listed, x, y, p);
  }

  // ----- the guard against absorbed entities

  /** The first entity that is no longer its own canonical id, with the id that absorbed it. */
  lemma RootErrorIs(w: World, x: EntityId, y: EntityId)
    requires Sound(w)
    ensures RootError(w.log, [x, y]) ==
            if !IsRoot(w, x) then Some(AlreadyAbsorbed(x, Canonical(w, x)))
            else if !IsRoot(w, y) then Some(AlreadyAbsorbed(y, Canonical(w, y)))
            else None
  {
    SoundCanonical(w, x);
    SoundCanonical(w, y);
    assert [x, y][1..] == [y] && [y][1..] == [];
    assert RootError(w.log, [y]) == if !IsRoot(w, y) then Some(AlreadyAbsorbed(y, Canonical(w, y))) else None;
  }

  lemma MissingIs(entities: map<EntityId, Scope>, x: EntityId, y: EntityId)
    ensures MissingEntity(entities, [x, y]) ==
            if x !in entities then Some(EntityNotFound(x))
            else if y !in entities then Some(EntityNotFound(y))
            else None
  {
    assert [x, y][1..] == [y] && [y][1..] == [];
    assert MissingEntity(entities, [y]) == if y !in entities then Some(EntityNotFound(y)) else None;
  }

  // ----- the commands

  /** What a proposal reports, guard by guard: an equal pair, an unknown entity, different scopes, no permission, an
      absorbed entity, the live proposal of the pair, no signal; and the proposal it records otherwise. */
  lemma ProposeReports(w: World, c: Command)
    requires Sound(w) && c.Propose?
    ensures var r := ProposeOutcome(w, c.source, c.candidate, c.allowed, c.signals, c.id, c.now);
            var x, y := c.source, c.candidate;
            if x == y then r == Err(SelfPair)
            else if x !in w.entities then r == Err(EntityNotFound(x))
            else if y !in w.entities then r == Err(EntityNotFound(y))
            else if w.entities[x] != w.entities[y] then r == Err(CrossScope)
            else if !c.allowed then r == Err(Denied)
            else if !IsRoot(w, x) then r == Err(AlreadyAbsorbed(x, Canonical(w, x)))
            else if !IsRoot(w, y) then r == Err(AlreadyAbsorbed(y, Canonical(w, y)))
            else
              && (forall p: Proposal ::
                    ProposalEvent(p) in w.log && {p.source, p.candidate} == {x, y} && Live(w.log, p) ==>
                    OpenError(w.log, p).Some? && r == Err(OpenError(w.log, p).value))
              && (PairFree(w.log, x, y) ==>
                    r ==
                    if c.signals == 0 then Err(NoSignal)
                    else Ok(ResolutionProposed(c.id, c.now, Proposal(c.id, w.entities[x], x, y, c.now))))
  {
    var x, y := c.source, c.candidate;
    MissingIs(w.entities, x, y);
    RootErrorIs(w, x, y);
    if Colocated(w, x, y) {
      PairFreeIff(w, x, y);
      forall p: Proposal | ProposalEvent(p) in w.log && SamePair(p, x, y) && Live(w.log, p)
        ensures EquivalentError(w.log, ListProposals(w.log, w.entities[x], x), x, y) == OpenError(w.log, p)
        ensures OpenError(w.log, p).Some?
      {
        PairErrorIs(w, x, y, p);
        OpenErrorIffLive(w.log, p);
      }
    }
  }

  /** A decision reports an unknown proposal, a missing reason, an earlier decision, no permission; nothing else. */
  lemma DecideReports(w: World, c: Command)
    requires Sound(w) && c.Decide?
    ensures DecideOutcome(w, c.proposalId, c.outcome, c.hasReason, c.allowed, c.id, c.now) ==
            if !Proposed(w.log, c.proposalId) then Err(ProposalNotFound)
            else if !c.hasReason then Err(ReasonRequired)
            else if Decided(w.log, c.proposalId) then Err(AlreadyDecided)
            else if !c.allowed then Err(Denied)
            else Ok(ResolutionDecided(c.id, c.now, ResolutionDecision(c.id, c.proposalId, c.outcome, c.now)))
  {
    FoundIffProposed(w.log, c.proposalId);
    LastDecisionMeaning(w.log, c.proposalId);
    if Proposed(w.log, c.proposalId) {
      var p: Proposal :| p.id == c.proposalId && ProposalEvent(p) in w.log;
      ProposedPair(w, p);
    }
  }

  lemma MergeUnknown(w: World, c: Command)
    requires Sound(w) && c.Merge? && !Proposed(w.log, c.proposalId)
    ensures MergeOutcome(w, c.proposalId, c.surviving, c.allowed, c.id, c.now) ==
            Err(ProposalNotFound)
  {
    FoundIffProposed(w.log, c.proposalId);
  }

  /** A merge of a recorded proposal reports a missing approval, a survivor outside the pair, no permission, an absorbed
      entity, an earlier merge that was reverted since; otherwise it absorbs the other one of the pair. */
  lemma MergeReports(w: World, c: Command, p: Proposal)
    requires Sound(w) && c.Merge? && c.proposalId == p.id && ProposalEvent(p) in w.log
    ensures var r := MergeOutcome(w, c.proposalId, c.surviving, c.allowed, c.id, c.now);
            var other := if c.surviving == p.source then p.candidate else p.source;
            if !ApprovedBy(w.log, p.id) then r == Err(NotApproved)
            else if c.surviving != p.source && c.surviving != p.candidate then
              r == Err(SurvivorOutsidePair)
            else if !c.allowed then r == Err(Denied)
            else if !IsRoot(w, c.surviving) then
              r == Err(AlreadyAbsorbed(c.surviving, Canonical(w, c.surviving)))
            else if !IsRoot(w, other) then r == Err(AlreadyAbsorbed(other, Canonical(w, other)))
            else if Merged(w.log, p.id) then
              exists e :: e in w.log && MergeOf(e, p.id) && r == Err(AlreadyMerged(e.eventId))
            else r == Ok(EntityMerged(c.id, c.now, c.surviving, [other], Some(p.id)))
  {
    FoundIffProposed(w.log, p.id);
    ProposedPair(w, p);
    LastDecisionMeaning(w.log, p.id);
    NotApprovedUndecided(w.log, p.id);
    UnmergedIff(w.log, p.id);
    RootErrorIs(w, p.source, p.candidate);
    RootErrorIs(w, p.candidate, p.source);
    var previous := First(w.log, IsMergeOf(p.id));
    if previous.Some? {
      assert MergeOf(previous.value, p.id);
    }
  }

  /** A revert reports a missing reason, an unknown merge, an earlier revert, no permission; otherwise it restores what
      the merge absorbed. */
  lemma RevertReports(w: World, c: Command)
    requires Sound(w) && c.Revert?
    ensures var r := RevertOutcome(w, c.mergeEventId, c.hasReason, c.allowed, c.id, c.now);
            && (!c.hasReason ==> r == Err(ReasonRequired))
            && (c.hasReason && !MergeRecorded(w.log, c.mergeEventId) ==> r == Err(MergeNotFound))
            && (forall m :: c.hasReason && m in w.log && m.EntityMerged? && m.eventId == c.mergeEventId ==>
                  r == if IsReverted(w.log, m.eventId) then Err(AlreadyReverted)
                       else if !c.allowed then Err(Denied)
                       else Ok(MergeReverted(c.id, c.now, m.eventId, m.surviving, m.absorbed)))
  {
    var found := First(w.log, IsMerge(c.mergeEventId));
    forall m | m in w.log && m.EntityMerged? && m.eventId == c.mergeEventId ensures found == Some(m) {
      assert IsMerge(c.mergeEventId)(m);
      SameEventId(w.log, m, found.value);
    }
    if found.Some? {
      MergedPairColocated(w, found.value);
    }
  }

  // ----- on any log at all

  /** What an accepted command records names registered entities of one scope, whatever the log holds. */
  lemma AcceptedIsColocated(w: World, c: Command, e: DomainEvent)
    requires Appended(w, c) == Some(e)
    ensures e.ResolutionProposed? ==> Colocated(w, e.proposal.source, e.proposal.candidate)
    ensures e.ResolutionDecided? ==>
              exists f :: f in w.log && f.ResolutionProposed? && f.eventId == e.decision.proposalId &&
                          Colocated(w, f.proposal.source, f.proposal.candidate)
    ensures e.EntityMerged? ==> forall x :: x in e.absorbed ==> Colocated(w, e.surviving, x)
    ensures e.MergeReverted? ==> forall x :: x in e.restored ==> Colocated(w, e.survivor, x)
  {
    match c
    case Propose(source, candidate, _, _, _, _) => PairMissing(w.entities, source, candidate);
    case Decide(proposalId, _, _, _, _, _) =>
      var found := First(w.log, IsProposal(proposalId)).value;
      PairMissing(w.entities, found.proposal.source, found.proposal.candidate);
    case Merge(_, surviving, _, _, _) => PairMissing(w.entities, surviving, e.absorbed[0]);
    case Revert(_, _, _, _, _) =>
      assert forall x :: x in e.restored ==> x in [e.survivor] + e.restored;
      assert e.survivor in [e.survivor] + e.restored;
    case _ =>
  }

  /** The last decision of a proposal is the latest, by id within one instant. */
  lemma LastDecisionIsLatest(log: Log, proposalId: EventId)
    ensures LastDecision(log, proposalId).None? <==> !Decided(log, proposalId)
    ensures LastDecision(log, proposalId).Some? ==>
              var d := LastDecision(log, proposalId).value;
              && (exists e :: e in log && e.ResolutionDecided? && e.decision == d && d.proposalId == proposalId)
              && forall e :: e in log && e.ResolutionDecided? && e.decision.proposalId == proposalId ==>
                   e.decision.decidedAt < d.decidedAt || (e.decision.decidedAt == d.decidedAt && e.decision.id <= d.id)
  {
    var ds := ListDecisions(log, proposalId);
    Sorting.SortOrders(DecisionsIn(log, proposalId), DecisionOrder);
    assert ds != [] ==> ds[|ds| - 1] in ds;
    forall e | e in log && e.ResolutionDecided? && e.decision.proposalId == proposalId
      ensures ds != [] && (e.decision == ds[|ds| - 1] || DecisionOrder(e.decision, ds[|ds| - 1]))
    {
      assert e.decision in ds;
      var i :| 0 <= i < |ds| && ds[i] == e.decision;
      assert i < |ds| - 1 ==> DecisionOrder(ds[i], ds[|ds| - 1]);
    }
  }

  /** A recorded proposal of the scope and the unordered pair that still blocks a new one. */
  ghost predicate Blocks(log: Log, scope: Scope, x: EntityId, y: EntityId, p: Proposal) {
    && (exists e :: e in log && e.ResolutionProposed? && e.proposal == p)
    && p.scope == scope && {p.source, p.candidate} == {x, y} && OpenError(log, p).Some?
  }

  lemma ListedBlocks(log: Log, scope: Scope, x: EntityId, y: EntityId, p: Proposal)
    ensures p in ListProposals(log, scope, x) && SamePair(p, x, y) && OpenError(log, p).Some? <==>
            Blocks(log, scope, x, y, p)
  {}

  /** The earliest blocking proposal, by id within one instant, is the one reported. */
  lemma EarliestBlocks(log: Log, scope: Scope, x: EntityId, y: EntityId)
    ensures var r := EquivalentError(log, ListProposals(log, scope, x), x, y);
            && (r.None? <==> forall p :: !Blocks(log, scope, x, y, p))
            && (r.Some? ==>
                  exists p :: Blocks(log, scope, x, y, p) && r == OpenError(log, p) &&
                              forall q :: Blocks(log, scope, x, y, q) ==>
                                p.proposedAt < q.proposedAt || (p.proposedAt == q.proposedAt && p.id <= q.id))
  {
    var listed := ListProposals(log, scope, x);
    var r := EquivalentError(log, listed, x, y);
    forall p ensures p in listed && SamePair(p, x, y) && OpenError(log, p).Some? <==> Blocks(log, scope, x, y, p) {
      ListedBlocks(log, scope, x, y, p);
    }
    if r.Some? {
      var i := FirstBlocking(log, listed, x, y);
      Sorting.SortOrders(ProposalsIn(log, scope, x), ProposalOrder);
      forall q | Blocks(log, scope, x, y, q) ensures listed[i] == q || ProposalOrder(listed[i], q) {
        var j :| 0 <= j < |listed| && listed[j] == q;
        assert i < j ==> ProposalOrder(listed[i], listed[j]);
      }
      assert Blocks(log, scope, x, y, listed[i]);
    }
  }

  lemma {:induction false} FirstBlocking(log: Log, proposals: seq<Proposal>, x: EntityId, y: EntityId)
    returns (i: nat)
    requires EquivalentError(log, proposals, x, y).Some?
    ensures i < |proposals| && SamePair(proposals[i], x, y)
    ensures OpenError(log, proposals[i]) == EquivalentError(log, proposals, x, y)
    ensures forall j :: 0 <= j < i ==> !(SamePair(proposals[j], x, y) && OpenError(log, proposals[j]).Some?)
  {
    if SamePair(proposals[0], x, y) && OpenError(log, proposals[0]).Some? {
      i := 0;
    } else {
      var k := FirstBlocking(log, proposals[1..], x, y);
      i := k + 1;
      forall j | 0 <= j < i ensures !(SamePair(proposals[j], x, y) && OpenError(log, proposals[j]).Some?) {
        assert j > 0 ==> proposals[j] == proposals[1..][j - 1];
      }
    }
  }

  /** The event found is the first one wanted. */
  lemma {:induction false} FirstIsFirst(log: Log, wanted: DomainEvent -> bool)
    requires First(log, wanted).Some?
    ensures exists i :: 0 <= i < |log| && log[i] == First(log, wanted).value &&
                        forall j :: 0 <= j < i ==> !wanted(log[j])
  {
    if wanted(log[0]) {
      assert log[0] == First(log, wanted).value;
    } else {
      FirstIsFirst(log[1..], wanted);
      var i :| 0 <= i < |log[1..]| && log[1..][i] == First(log[1..], wanted).value &&
               forall j :: 0 <= j < i ==> !wanted(log[1..][j]);
      assert log[i + 1] == First(log, wanted).value;
      assert forall j :: 0 < j < i + 1 ==> log[j] == log[1..][j - 1];
    }
  }
}
