/** Exactly when each entity-resolution command is accepted, in any state a run can reach, and what follows: two
    roots that no live proposal ties together can always be merged. */
module ResolutionGuards {
  import opened Kernel
  import opened EntityIdentity
  import opened EntityResolution
  import opened ResolutionRuns

  predicate IsRoot(w: World, x: EntityId) {
    Canonical(w, x) == x
  }

  predicate Colocated(w: World, x: EntityId, y: EntityId) {
    x in w.entities && y in w.entities && w.entities[x] == w.entities[y]
  }

  /** No live proposal of the unordered pair. */
  ghost predicate PairFree(log: Log, x: EntityId, y: EntityId) {
    forall p: Proposal :: ProposalEvent(p) in log && SamePair(p, x, y) ==> !Live(log, p)
  }

  // ----- the guards, one by one

  lemma PairMissing(entities: map<EntityId, Scope>, x: EntityId, y: EntityId)
    ensures MissingEntity(entities, [x, y]).None? <==> x in entities && y in entities
  {
    assert x in [x, y] && y in [x, y];
  }

  lemma PairRoots(w: World, x: EntityId, y: EntityId)
    requires Sound(w)
    ensures RootError(w.log, [x, y]).None? <==> IsRoot(w, x) && IsRoot(w, y)
  {
    SoundCanonical(w, x);
    SoundCanonical(w, y);
    assert RootError(w.log, [y]).None? <==> IsRoot(w, y);
    assert [x, y][1..] == [y];
  }

  lemma ListedProposal(w: World, p: Proposal, x: EntityId, y: EntityId)
    requires ProposalsScoped(w) && Colocated(w, x, y) && SamePair(p, x, y)
    ensures p in ListProposals(w.log, w.entities[x], x) <==> ProposalEvent(p) in w.log
  {
    if ProposalEvent(p) in w.log {
      assert ProposalEvent(p).proposal == p && ProposalMatches(p, w.entities[x], x);
    }
  }

  lemma PairFreeIff(w: World, x: EntityId, y: EntityId)
    requires Sound(w) && Colocated(w, x, y)
    ensures EquivalentError(w.log, ListProposals(w.log, w.entities[x], x), x, y).None? <==> PairFree(w.log, x, y)
  {
    var listed := ListProposals(w.log, w.entities[x], x);
    forall p: Proposal | SamePair(p, x, y)
      ensures p in listed <==> ProposalEvent(p) in w.log
      ensures p in listed ==> (OpenError(w.log, p).Some? <==> Live(w.log, p))
    {
      ListedProposal(w, p, x, y);
      if p in listed {
        OpenErrorIffLive(w.log, p);
      }
    }
  }

  lemma FoundIffProposed(log: Log, id: EventId)
    requires DistinctIds(log) && forall e :: e in log && e.ResolutionProposed? ==> e == ProposalEvent(e.proposal)
    ensures FindProposal(log, id).Some? <==> Proposed(log, id)
    ensures forall p: Proposal :: p.id == id && ProposalEvent(p) in log ==> FindProposal(log, id) == Some(p)
  {
    var found := First(log, IsProposal(id));
    if found.Some? {
      assert found.value == ProposalEvent(found.value.proposal);
    }
    forall p: Proposal | p.id == id && ProposalEvent(p) in log ensures FindProposal(log, id) == Some(p) {
      assert IsProposal(id)(ProposalEvent(p));
      SameEventId(log, found.value, ProposalEvent(p));
    }
  }

  lemma ProposedPair(w: World, p: Proposal)
    requires ProposalsScoped(w) && ProposalEvent(p) in w.log
    ensures p.source != p.candidate && Colocated(w, p.source, p.candidate)
    ensures MissingEntity(w.entities, [p.source, p.candidate]).None?
    ensures MissingEntity(w.entities, [p.candidate, p.source]).None?
  {
    PairMissing(w.entities, p.source, p.candidate);
    PairMissing(w.entities, p.candidate, p.source);
  }

  lemma UnmergedIff(log: Log, id: EventId)
    ensures First(log, IsMergeOf(id)).None? <==> !Merged(log, id)
  {
    var found := First(log, IsMergeOf(id));
    if found.Some? {
      assert MergeOf(found.value, id);
    } else {
      forall e | e in log ensures !MergeOf(e, id) {
        assert !IsMergeOf(id)(e);
      }
    }
  }

  // ----- acceptance

  /** A proposal is accepted exactly for two different registered roots of one scope, with permission, an identity
      signal and no live proposal of the pair. */
  lemma ProposeAcceptedIff(w: World, c: Command)
    requires Sound(w) && c.Propose?
    ensures Appended(w, c).Some? <==>
            && c.source != c.candidate && Colocated(w, c.source, c.candidate)
            && c.allowed && c.signals > 0
            && IsRoot(w, c.source) && IsRoot(w, c.candidate)
            && PairFree(w.log, c.source, c.candidate)
  {
    PairMissing(w.entities, c.source, c.candidate);
    if Colocated(w, c.source, c.candidate) {
      PairRoots(w, c.source, c.candidate);
      PairFreeIff(w, c.source, c.candidate);
    }
  }

  /** A decision is accepted exactly for a recorded, undecided proposal, with permission and a reason. */
  lemma DecideAcceptedIff(w: World, c: Command)
    requires Sound(w) && c.Decide?
    ensures Appended(w, c).Some? <==>
            Proposed(w.log, c.proposalId) && !Decided(w.log, c.proposalId) && c.hasReason && c.allowed
  {
    FoundIffProposed(w.log, c.proposalId);
    LastDecisionMeaning(w.log, c.proposalId);
    if FindProposal(w.log, c.proposalId).Some? {
      FoundProposal(w, c.proposalId);
      ProposedPair(w, FindProposal(w.log, c.proposalId).value);
    }
  }

  /** The merge guards, once the proposal is found and its last decision known. */
  lemma MergeGuards(w: World, c: Command, p: Proposal, absorbed: EntityId)
    requires c.Merge? && FindProposal(w.log, c.proposalId) == Some(p) && p.source != p.candidate
    requires || (c.surviving == p.source && absorbed == p.candidate)
             || (c.surviving == p.candidate && absorbed == p.source)
    requires MissingEntity(w.entities, [c.surviving, absorbed]).None? && Colocated(w, c.surviving, absorbed)
    ensures var decision := LastDecision(w.log, c.proposalId);
            Appended(w, c).Some? <==>
            && decision.Some? && decision.value.outcome.Approved? && c.allowed
            && RootError(w.log, [c.surviving, absorbed]).None? && First(w.log, IsMergeOf(c.proposalId)).None?
  {}

  /** What merging proposal `p` asks of the log and the caller. */
  ghost predicate Mergeable(w: World, c: Command, p: Proposal)
    requires c.Merge?
  {
    && p.id == c.proposalId && ProposalEvent(p) in w.log
    && ApprovedBy(w.log, p.id) && !Merged(w.log, p.id)
    && (c.surviving == p.source || c.surviving == p.candidate) && c.allowed
    && IsRoot(w, p.source) && IsRoot(w, p.candidate)
  }

  /** A merge is accepted exactly for a recorded and approved proposal that was never merged, between roots, into
      one of its pair, with permission. */
  lemma MergeAcceptedIff(w: World, c: Command)
    requires Sound(w) && c.Merge?
    ensures Appended(w, c).Some? <==> exists p: Proposal :: Mergeable(w, c, p)
  {
    FoundIffProposed(w.log, c.proposalId);
    if Proposed(w.log, c.proposalId) {
      var p: Proposal :| p.id == c.proposalId && ProposalEvent(p) in w.log;
      MergeOfProposal(w, c, p);
      forall q: Proposal | Mergeable(w, c, q) ensures q == p {}
    }
  }

  lemma MergeOfProposal(w: World, c: Command, p: Proposal)
    requires Sound(w) && c.Merge? && c.proposalId == p.id && ProposalEvent(p) in w.log
    ensures Appended(w, c).Some? <==> Mergeable(w, c, p)
  {
    FoundIffProposed(w.log, p.id);
    ProposedPair(w, p);
    if c.surviving == p.source || c.surviving == p.candidate {
      var absorbed := if c.surviving == p.source then p.candidate else p.source;
      MergeGuards(w, c, p, absorbed);
      PairRoots(w, c.surviving, absorbed);
      LastDecisionMeaning(w.log, p.id);
      NotApprovedUndecided(w.log, p.id);
      UnmergedIff(w.log, p.id);
    }
  }

  lemma NotApprovedUndecided(log: Log, id: EventId)
    ensures ApprovedBy(log, id) ==> Decided(log, id)
  {}

  /** A revert is accepted exactly for a recorded, unreverted merge, with permission and a reason. */
  lemma RevertAcceptedIff(w: World, c: Command)
    requires Sound(w) && c.Revert?
    ensures Appended(w, c).Some? <==>
            MergeRecorded(w.log, c.mergeEventId) && !IsReverted(w.log, c.mergeEventId) && c.hasReason && c.allowed
  {
    var found := First(w.log, IsMerge(c.mergeEventId));
    if found.Some? {
      MergedPairColocated(w, found.value);
    } else {
      forall e | e in w.log ensures !(e.EntityMerged? && e.eventId == c.mergeEventId) {
        assert !IsMerge(c.mergeEventId)(e);
      }
    }
  }

  lemma MergedPairColocated(w: World, m: DomainEvent)
    requires Sound(w) && m in w.log && m.EntityMerged?
    ensures |m.absorbed| == 1 && Colocated(w, m.surviving, m.absorbed[0])
    ensures MissingEntity(w.entities, [m.surviving] + m.absorbed).None?
    ensures forall x :: x in [m.surviving] + m.absorbed ==> x in w.entities && w.entities[x] == w.entities[m.surviving]
  {
    assert Backed(w.log, m);
    var p: Proposal :| ProposalEvent(p) in w.log && Merges(m, p) && ApprovedBy(w.log, p.id);
    ProposedPair(w, p);
    PairMissing(w.entities, m.surviving, m.absorbed[0]);
    assert [m.surviving] + m.absorbed == [m.surviving, m.absorbed[0]];
  }

  // ----- any two roots can be merged

  lemma UnusedId(w: World, id: EventId)
    requires Sound(w) && FreshIn(w.log, id)
    ensures !Decided(w.log, id) && !Merged(w.log, id)
  {
    assert !Proposed(w.log, id);
  }

  lemma FreshAfter(log: Log, e: DomainEvent, id: EventId)
    requires FreshIn(log, id) && e.eventId != id
    ensures FreshIn(log + [e], id)
  {}

  lemma CanProposePair(w: World, c: Command) returns (p: Proposal)
    requires Sound(w) && c.Propose? && c.allowed && c.signals > 0 && FreshIn(w.log, c.id)
    requires c.source != c.candidate && Colocated(w, c.source, c.candidate)
    requires IsRoot(w, c.source) && IsRoot(w, c.candidate) && PairFree(w.log, c.source, c.candidate)
    ensures p.id == c.id && p.source == c.source && p.candidate == c.candidate
    ensures Apply(w, c) == w.(log := w.log + [ProposalEvent(p)]) && Sound(Apply(w, c))
    ensures !Decided(Apply(w, c).log, p.id) && !Merged(Apply(w, c).log, p.id)
  {
    ProposeAcceptedIff(w, c);
    var e := Appended(w, c).value;
    ProposalAccepted(w, c, e);
    p := e.proposal;
    ApplyKeepsSound(w, c);
    UnusedId(w, c.id);
    StageAfter(w.log, e, p);
  }

  lemma CanApprove(w: World, c: Command, p: Proposal)
    requires Sound(w) && c.Decide? && c.outcome.Approved? && c.hasReason && c.allowed && FreshIn(w.log, c.id)
    requires c.proposalId == p.id && ProposalEvent(p) in w.log && !Decided(w.log, p.id) && !Merged(w.log, p.id)
    ensures Sound(Apply(w, c))
    ensures Apply(w, c) == w.(log := w.log + [DecisionEvent(ResolutionDecision(c.id, p.id, Approved, c.now))])
    ensures ApprovedBy(Apply(w, c).log, p.id) && !Merged(Apply(w, c).log, p.id)
  {
    DecideAcceptedIff(w, c);
    var e := Appended(w, c).value;
    DecisionAccepted(w, c, e);
    ApplyKeepsSound(w, c);
    StageAfter(w.log, e, p);
  }

  /** In any reachable state two different roots of one scope without a live proposal can be proposed, approved
      and merged in three commands, after which exactly the absorbed root's class has moved to the survivor. */
  lemma RootsCanMerge(w: World, c: Command, d: Command, m: Command, x: EntityId)
    requires Sound(w) && c.Propose? && c.allowed && c.signals > 0
    requires c.source != c.candidate && Colocated(w, c.source, c.candidate)
    requires IsRoot(w, c.source) && IsRoot(w, c.candidate) && PairFree(w.log, c.source, c.candidate)
    requires d.Decide? && d.proposalId == c.id && d.outcome.Approved? && d.hasReason && d.allowed
    requires m.Merge? && m.proposalId == c.id && m.surviving == c.source && m.allowed
    requires FreshIn(w.log, c.id) && FreshIn(w.log, d.id) && FreshIn(w.log, m.id)
    requires c.id != d.id && c.id != m.id && d.id != m.id
    ensures var merged := Apply(Apply(Apply(w, c), d), m);
            && Sound(merged) && |merged.log| == |w.log| + 3
            && Canonical(merged, x) == if Canonical(w, x) == c.candidate then c.source else Canonical(w, x)
  {
    var p := CanProposePair(w, c);
    var proposed := Apply(w, c);
    FreshAfter(w.log, ProposalEvent(p), d.id);
    FreshAfter(w.log, ProposalEvent(p), m.id);
    CanApprove(proposed, d, p);
    var approved := Apply(proposed, d);
    var decision := DecisionEvent(ResolutionDecision(d.id, p.id, Approved, d.now));
    FreshAfter(proposed.log, decision, m.id);
    RedirectsIgnore(w.log, ProposalEvent(p));
    RedirectsIgnore(proposed.log, decision);
    MergeOfProposal(approved, m, p);
    ApplyMerge(approved, m, x, c.candidate, p);
  }

  lemma MergeRecords(w: World, m: Command, p: Proposal)
    requires DistinctIds(w.log) && ProposalsScoped(w) && m.Merge? && Appended(w, m).Some?
    requires ProposalEvent(p) in w.log && m.proposalId == p.id && m.surviving == p.source
    ensures Appended(w, m) == Some(EntityMerged(m.id, m.now, p.source, [p.candidate], Some(p.id)))
  {
    FoundIffProposed(w.log, p.id);
  }

  lemma ApplyMerge(w: World, m: Command, x: EntityId, absorbed: EntityId, p: Proposal)
    requires Sound(w) && m.Merge? && Appended(w, m).Some? && FreshIn(w.log, m.id)
    requires ProposalEvent(p) in w.log && m.proposalId == p.id && m.surviving == p.source && absorbed == p.candidate
    ensures Sound(Apply(w, m)) && |Apply(w, m).log| == |w.log| + 1
    ensures Canonical(Apply(w, m), x) == if Canonical(w, x) == absorbed then m.surviving else Canonical(w, x)
  {
    MergeRecords(w, m, p);
    ApplyKeepsSound(w, m);
    MergeSendsClass(w, m, Appended(w, m).value, x);
  }

  // ----- what the runs range over

  /** Any entity can be registered once, and other capabilities can append any claim event or any event of their own. */
  lemma RunsAreOpen(w: World, x: EntityId, scope: Scope, e: DomainEvent)
    ensures Apply(w, Register(x, scope)) ==
            if x in w.entities then w else w.(entities := w.entities[x := scope])
    ensures Apply(w, Elsewhere(e)) ==
            if e.ClaimAsserted? || e.ClaimRetracted? || e.OtherEvent? then w.(log := w.log + [e]) else w
  {}

  lemma RunNext(commands: seq<Command>, c: Command)
    ensures Run(commands + [c]) == Apply(Run(commands), c)
    ensures FreshRun(commands) && (Appended(Run(commands), c).Some? ==>
                                     FreshIn(Run(commands).log, Appended(Run(commands), c).value.eventId)) ==>
              FreshRun(commands + [c])
  {
    assert (commands + [c])[..|commands|] == commands;
  }

  /** Before anything is recorded every entity is a root and every pair is free. */
  lemma NothingRecorded(w: World, x: EntityId, y: EntityId)
    requires w.log == []
    ensures IsRoot(w, x) && PairFree(w.log, x, y)
  {
    LatestMergeDecides(w.log, x);
  }

  lemma BothRegistered(x: EntityId, y: EntityId, scope: Scope) returns (commands: seq<Command>)
    requires x != y
    ensures FreshRun(commands) && Run(commands).log == [] && Colocated(Run(commands), x, y)
  {
    RunNext([], Register(x, scope));
    RunNext([] + [Register(x, scope)], Register(y, scope));
    commands := [] + [Register(x, scope)] + [Register(y, scope)];
  }

  ghost predicate IdsBelow(log: Log, next: nat) {
    forall e :: e in log ==> e.eventId < next
  }

  lemma AppendedBearsId(w: World, c: Command, id: EventId)
    requires (c.Propose? && c.id == id) || (c.Decide? && c.id == id) || (c.Merge? && c.id == id)
    ensures Appended(w, c).Some? ==> Appended(w, c).value.eventId == id
    ensures Apply(w, c).log == w.log + if Appended(w, c).Some? then [Appended(w, c).value] else []
  {}

  lemma NumberedNext(commands: seq<Command>, c: Command, id: EventId)
    requires FreshRun(commands) && IdsBelow(Run(commands).log, id)
    requires (c.Propose? && c.id == id) || (c.Decide? && c.id == id) || (c.Merge? && c.id == id)
    ensures FreshRun(commands + [c]) && IdsBelow(Run(commands + [c]).log, id + 1)
    ensures Run(commands + [c]) == Apply(Run(commands), c)
  {
    RunNext(commands, c);
    AppendedBearsId(Run(commands), c, id);
  }

  /** In some run any two entities end up merged. */
  lemma SomeRunMerges(x: EntityId, y: EntityId, scope: Scope) returns (commands: seq<Command>)
    requires x != y
    ensures FreshRun(commands) && Canonical(Run(commands), y) == x && Canonical(Run(commands), x) == x
  {
    var registered := BothRegistered(x, y, scope);
    var w := Run(registered);
    var c, d, m := Propose(x, y, true, 1, 0, 0), Decide(0, Approved, true, true, 1, 0), Merge(0, x, true, 2, 0);
    NumberedNext(registered, c, 0);
    NumberedNext(registered + [c], d, 1);
    NumberedNext(registered + [c] + [d], m, 2);
    commands := registered + [c] + [d] + [m];
    EveryRunIsSound(registered);
    MergedAfter(w, c, d, m);
  }

  lemma MergedAfter(w: World, c: Command, d: Command, m: Command)
    requires Sound(w) && w.log == [] && c.Propose? && c.allowed && c.signals > 0 && c.source != c.candidate
    requires Colocated(w, c.source, c.candidate)
    requires d.Decide? && d.proposalId == c.id && d.outcome.Approved? && d.hasReason && d.allowed
    requires m.Merge? && m.proposalId == c.id && m.surviving == c.source && m.allowed
    requires c.id != d.id && c.id != m.id && d.id != m.id
    ensures var merged := Apply(Apply(Apply(w, c), d), m);
            Canonical(merged, c.candidate) == c.source && Canonical(merged, c.source) == c.source
  {
    NothingRecorded(w, c.source, c.candidate);
    NothingRecorded(w, c.candidate, c.source);
    RootsCanMerge(w, c, d, m, c.source);
    RootsCanMerge(w, c, d, m, c.candidate);
  }
}
