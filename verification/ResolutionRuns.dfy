/** Whole runs of the entity-resolution protocol.

    A run is any serialized sequence of commands, accepted or refused, over a growing set of entities,
    interleaved with events of other capabilities. Event ids are fresh; clocks are arbitrary. */
module ResolutionRuns {
  import opened Kernel
  import opened EntityIdentity
  import opened EntityResolution
  import opened Redirects
  import Sorting

  datatype Command =
    | Register(entity: EntityId, scope: Scope)
    | Propose(source: EntityId, candidate: EntityId, allowed: bool, signals: nat, id: EventId, now: Timestamp)
    | Decide(proposalId: EventId, outcome: Outcome, hasReason: bool, allowed: bool, id: EventId, now: Timestamp)
    | Merge(proposalId: EventId, surviving: EntityId, allowed: bool, id: EventId, now: Timestamp)
    | Revert(mergeEventId: EventId, hasReason: bool, allowed: bool, id: EventId, now: Timestamp)
    | Elsewhere(event: DomainEvent)

  /** Events that other capabilities append. */
  predicate Foreign(e: DomainEvent) {
    e.ClaimAsserted? || e.ClaimRetracted? || e.OtherEvent?
  }

  /** The event a command appends, if it is accepted. */
  function Appended(w: World, c: Command): Option<DomainEvent> {
    match c
    case Register(_, _) => None
    case Propose(source, candidate, allowed, signals, id, now) =>
      Accepted(ProposeOutcome(w, source, candidate, allowed, signals, id, now))
    case Decide(proposalId, outcome, hasReason, allowed, id, now) =>
      Accepted(DecideOutcome(w, proposalId, outcome, hasReason, allowed, id, now))
    case Merge(proposalId, surviving, allowed, id, now) =>
      Accepted(MergeOutcome(w, proposalId, surviving, allowed, id, now))
    case Revert(mergeEventId, hasReason, allowed, id, now) =>
      Accepted(RevertOutcome(w, mergeEventId, hasReason, allowed, id, now))
    case Elsewhere(event) => if Foreign(event) then Some(event) else None
  }

  function Accepted(r: Result<DomainEvent, ResolutionError>): Option<DomainEvent> {
    if r.Ok? then Some(r.value) else None
  }

  function Apply(w: World, c: Command): World {
    match Appended(w, c)
    case Some(e) => w.(log := w.log + [e])
    case None =>
      if c.Register? && c.entity !in w.entities then w.(entities := w.entities[c.entity := c.scope]) else w
  }

  function Run(commands: seq<Command>): World {
    if commands == [] then World(map[], [])
    else Apply(Run(commands[..|commands| - 1]), commands[|commands| - 1])
  }

  ghost predicate FreshIn(log: Log, id: EventId) {
    forall e :: e in log ==> e.eventId != id
  }

  /** Every event appended by the run gets an id of its own. */
  ghost predicate FreshRun(commands: seq<Command>) {
    commands == [] ||
    var w, c := Run(commands[..|commands| - 1]), commands[|commands| - 1];
    FreshRun(commands[..|commands| - 1]) && (Appended(w, c).Some? ==> FreshIn(w.log, Appended(w, c).value.eventId))
  }

  // ----- what a run keeps

  ghost predicate Proposed(log: Log, id: EventId) {
    exists p: Proposal :: p.id == id && ProposalEvent(p) in log
  }

  ghost predicate Decided(log: Log, proposalId: EventId) {
    exists e :: e in log && e.ResolutionDecided? && e.decision.proposalId == proposalId
  }

  ghost predicate ApprovedBy(log: Log, proposalId: EventId) {
    exists e :: e in log && e.ResolutionDecided? && e.decision.proposalId == proposalId && e.decision.outcome.Approved?
  }

  predicate MergeOf(e: DomainEvent, proposalId: EventId) {
    e.EntityMerged? && e.resolutionProposalId == Some(proposalId)
  }

  ghost predicate Merged(log: Log, proposalId: EventId) {
    exists e :: e in log && MergeOf(e, proposalId)
  }

  /** Undecided, approved but unmerged, or merged and unreverted. */
  ghost predicate Live(log: Log, p: Proposal) {
    || !Decided(log, p.id)
    || (ApprovedBy(log, p.id) && !Merged(log, p.id))
    || exists e :: e in log && MergeOf(e, p.id) && !IsReverted(log, e.eventId)
  }

  ghost predicate ProposalsScoped(w: World) {
    forall e :: e in w.log && e.ResolutionProposed? ==>
      && e == ProposalEvent(e.proposal)
      && e.proposal.source != e.proposal.candidate
      && e.proposal.source in w.entities && w.entities[e.proposal.source] == e.proposal.scope
      && e.proposal.candidate in w.entities && w.entities[e.proposal.candidate] == e.proposal.scope
  }

  ghost predicate DecidedAtMostOnce(log: Log) {
    && (forall e :: e in log && e.ResolutionDecided? ==> Proposed(log, e.decision.proposalId))
    && (forall e, f ::
          (e in log && f in log && e.ResolutionDecided? && f.ResolutionDecided? &&
           e.decision.proposalId == f.decision.proposalId) ==> e == f)
  }

  /** Merge `m` merges the pair of proposal `p`. */
  ghost predicate Merges(m: DomainEvent, p: Proposal) {
    && MergeOf(m, p.id)
    && (|| (m.surviving == p.source && m.absorbed == [p.candidate])
        || (m.surviving == p.candidate && m.absorbed == [p.source]))
  }

  ghost predicate Backed(log: Log, m: DomainEvent) {
    exists p: Proposal :: ProposalEvent(p) in log && Merges(m, p) && ApprovedBy(log, p.id)
  }

  ghost predicate MergedOnceIfApproved(log: Log) {
    && (forall m :: m in log && m.EntityMerged? ==> Backed(log, m))
    && (forall m, n ::
          (m in log && n in log && m.EntityMerged? && n.EntityMerged? &&
           m.resolutionProposalId == n.resolutionProposalId) ==> m == n)
  }

  ghost predicate MergeRecorded(log: Log, id: EventId) {
    exists m :: m in log && m.EntityMerged? && m.eventId == id
  }

  ghost predicate RevertedAtMostOnce(log: Log) {
    && (forall r :: r in log && r.MergeReverted? ==> MergeRecorded(log, r.mergeEventId))
    && (forall r, s ::
          (r in log && s in log && r.MergeReverted? && s.MergeReverted? &&
           r.mergeEventId == s.mergeEventId) ==> r == s)
  }

  ghost predicate OneLiveProposalPerPair(log: Log) {
    forall p: Proposal, q: Proposal ::
      (ProposalEvent(p) in log && ProposalEvent(q) in log && SamePair(p, q.source, q.candidate) &&
       Live(log, p) && Live(log, q)) ==> p == q
  }

  ghost predicate Forest(log: Log) {
    OneActiveAbsorber(log) && Acyclic(CanonicalRedirects(log))
  }

  ghost predicate Sound(w: World) {
    && DistinctIds(w.log)
    && ProposalsScoped(w)
    && DecidedAtMostOnce(w.log)
    && MergedOnceIfApproved(w.log)
    && RevertedAtMostOnce(w.log)
    && Forest(w.log)
    && OneLiveProposalPerPair(w.log)
  }

  // ----- guards mean what they say

  lemma SameEventId(log: Log, e: DomainEvent, f: DomainEvent)
    requires DistinctIds(log) && e in log && f in log && e.eventId == f.eventId
    ensures e == f
  {
    var i :| 0 <= i < |log| && log[i] == e;
    var j :| 0 <= j < |log| && log[j] == f;
  }

  lemma LastDecisionMeaning(log: Log, id: EventId)
    requires DecidedAtMostOnce(log)
    ensures LastDecision(log, id).Some? <==> Decided(log, id)
    ensures LastDecision(log, id).Some? ==> (LastDecision(log, id).value.outcome.Approved? <==> ApprovedBy(log, id))
  {
    var ds := ListDecisions(log, id);
    if ds != [] {
      assert ds[|ds| - 1] in ds;
    }
    if Decided(log, id) {
      var e :| e in log && e.ResolutionDecided? && e.decision.proposalId == id;
      assert e.decision in ds;
    }
  }

  /** The guard against equivalent proposals blocks exactly the live ones. */
  lemma OpenErrorIffLive(log: Log, p: Proposal)
    requires DecidedAtMostOnce(log) && MergedOnceIfApproved(log) && DistinctIds(log)
    requires ProposalEvent(p) in log
    ensures OpenError(log, p).Some? <==> Live(log, p)
  {
    LastDecisionMeaning(log, p.id);
    var merge := First(log, IsMergeOf(p.id));
    if merge.Some? {
      assert MergeOf(merge.value, p.id);
      forall e | e in log && MergeOf(e, p.id) ensures e == merge.value {}
      assert Merged(log, p.id);
      var q: Proposal :| ProposalEvent(q) in log && Merges(merge.value, q) && ApprovedBy(log, q.id);
      assert ApprovedBy(log, p.id);
    } else {
      forall e | e in log ensures !MergeOf(e, p.id) {
        assert !IsMergeOf(p.id)(e);
      }
    }
  }

  lemma RootErrorMeaning(log: Log, x: EntityId, y: EntityId)
    requires RootError(log, [x, y]).None?
    ensures x !in CanonicalRedirects(log) && y !in CanonicalRedirects(log)
  {
    assert [x, y][1..] == [y];
    assert RootError(log, [y]).None?;
  }

  // ----- one appended event

  lemma AbsorbsIgnore(log: Log, e: DomainEvent, m: DomainEvent, x: EntityId)
    requires !e.EntityMerged? && !e.MergeReverted?
    ensures ActiveAbsorbs(log + [e], m, x) <==> ActiveAbsorbs(log, m, x)
  {
    RevertedAppend(log, e);
  }

  lemma RedirectsIgnore(log: Log, e: DomainEvent)
    requires !e.EntityMerged? && !e.MergeReverted?
    ensures CanonicalRedirects(log + [e]) == CanonicalRedirects(log)
    ensures OneActiveAbsorber(log) ==> OneActiveAbsorber(log + [e])
  {
    RevertedAppend(log, e);
    var keep := ActiveMerge(RevertedIds(log));
    assert RevertedIds(log + [e]) == RevertedIds(log);
    Sorting.FilterAppend(log, [e], keep);
    assert Sorting.Filter([e], keep) == [];
    assert Sorting.Filter(log + [e], keep) == Sorting.Filter(log, keep);
    assert ActiveMerges(log + [e]) == ActiveMerges(log);
    forall m, x ensures ActiveAbsorbs(log + [e], m, x) <==> ActiveAbsorbs(log, m, x) {
      AbsorbsIgnore(log, e, m, x);
    }
  }

  lemma AbsorbsAfterMerge(log: Log, e: DomainEvent, a: EntityId, m: DomainEvent, x: EntityId)
    requires RevertedAtMostOnce(log) && FreshIn(log, e.eventId)
    requires e.EntityMerged? && e.absorbed == [a]
    ensures ActiveAbsorbs(log + [e], m, x) <==> ActiveAbsorbs(log, m, x) || (m == e && x == a)
  {
    RevertedAppend(log, e);
    assert forall r :: r in log && r.MergeReverted? ==> MergeRecorded(log, r.mergeEventId);
  }

  /** A merge of two roots adds one redirect. */
  lemma RedirectsAfterMerge(log: Log, e: DomainEvent, a: EntityId)
    requires RevertedAtMostOnce(log) && OneActiveAbsorber(log) && FreshIn(log, e.eventId)
    requires e.EntityMerged? && e.absorbed == [a] && a !in CanonicalRedirects(log)
    ensures CanonicalRedirects(log + [e]) == CanonicalRedirects(log)[a := e.surviving]
    ensures OneActiveAbsorber(log + [e])
  {
    var log' := log + [e];
    forall m, x ensures ActiveAbsorbs(log', m, x) <==> ActiveAbsorbs(log, m, x) || (m == e && x == a) {
      AbsorbsAfterMerge(log, e, a, m, x);
    }
    forall m ensures !ActiveAbsorbs(log, m, a) {
      CanonicalRedirectsAt(log, a);
      assert ActiveAbsorbs(log, m, a) ==> Redirected(log, a, m.surviving);
    }
    forall x, s ensures Redirected(log', x, s) <==> Redirected(log, x, s) || (x == a && s == e.surviving) {
      assert ActiveAbsorbs(log', e, a);
    }
    forall x, s { RedirectedIff(log, x, s); }
    RedirectsAre(log', CanonicalRedirects(log)[a := e.surviving]);
  }

  lemma AbsorbsAfterRevert(log: Log, m: DomainEvent, e: DomainEvent, n: DomainEvent, x: EntityId)
    requires DistinctIds(log) && m in log && m.EntityMerged?
    requires e.MergeReverted? && e.mergeEventId == m.eventId
    ensures ActiveAbsorbs(log + [e], n, x) <==> ActiveAbsorbs(log, n, x) && n != m
  {
    RevertedAppend(log, e);
    if n in log && n.eventId == m.eventId {
      SameEventId(log, n, m);
    }
  }

  /** Reverting an active merge removes its redirect and no other. */
  lemma RedirectsAfterRevert(log: Log, m: DomainEvent, e: DomainEvent, a: EntityId)
    requires DistinctIds(log) && OneActiveAbsorber(log)
    requires m in log && m.EntityMerged? && m.absorbed == [a] && !IsReverted(log, m.eventId)
    requires e.MergeReverted? && e.mergeEventId == m.eventId
    ensures CanonicalRedirects(log + [e]) == CanonicalRedirects(log) - {a}
    ensures OneActiveAbsorber(log + [e])
    ensures a in CanonicalRedirects(log) && CanonicalRedirects(log)[a] == m.surviving
  {
    var log' := log + [e];
    assert ActiveAbsorbs(log, m, a);
    forall n, x ensures ActiveAbsorbs(log', n, x) <==> ActiveAbsorbs(log, n, x) && n != m {
      AbsorbsAfterRevert(log, m, e, n, x);
    }
    forall x, s ensures Redirected(log', x, s) <==> Redirected(log, x, s) && x != a {
      if Redirected(log', x, s) {
        var n :| ActiveAbsorbs(log', n, x) && n.surviving == s;
        assert ActiveAbsorbs(log, n, x);
      }
      if Redirected(log, x, s) && x != a {
        var n :| ActiveAbsorbs(log, n, x) && n.surviving == s;
        assert ActiveAbsorbs(log', n, x);
      }
    }
    forall x, s { RedirectedIff(log, x, s); }
    assert Redirected(log, a, m.surviving);
    RedirectsAre(log', CanonicalRedirects(log) - {a});
  }

  /** What an event changes about a proposal: its own decision, its own merge, or that merge's revert. */
  lemma StageAfter(log: Log, e: DomainEvent, p: Proposal)
    ensures Decided(log + [e], p.id) <==>
            Decided(log, p.id) || (e.ResolutionDecided? && e.decision.proposalId == p.id)
    ensures ApprovedBy(log + [e], p.id) <==>
            ApprovedBy(log, p.id) ||
            (e.ResolutionDecided? && e.decision.proposalId == p.id && e.decision.outcome.Approved?)
    ensures Merged(log + [e], p.id) <==> Merged(log, p.id) || MergeOf(e, p.id)
  {
    var log' := log + [e];
    assert e in log' && forall f :: f in log ==> f in log';
    if Decided(log, p.id) {
      var f :| f in log && f.ResolutionDecided? && f.decision.proposalId == p.id;
      assert f in log';
    }
    if ApprovedBy(log, p.id) {
      var f :| f in log && f.ResolutionDecided? && f.decision.proposalId == p.id && f.decision.outcome.Approved?;
      assert f in log';
    }
    if Merged(log, p.id) {
      var f :| f in log && MergeOf(f, p.id);
      assert f in log';
    }
  }

  lemma RevertsAfter(log: Log, e: DomainEvent, id: EventId)
    ensures IsReverted(log + [e], id) <==> IsReverted(log, id) || (e.MergeReverted? && e.mergeEventId == id)
  {
    var log' := log + [e];
    assert e in log' && forall f :: f in log ==> f in log';
    if IsReverted(log, id) {
      var f :| f in log && f.MergeReverted? && f.mergeEventId == id;
      assert f in log';
    }
  }

  /** No event but a proposal makes a proposal live that was not. */
  lemma LiveShrinks(log: Log, e: DomainEvent, p: Proposal)
    requires Live(log + [e], p)
    requires e.ResolutionDecided? ==> !Decided(log, e.decision.proposalId)
    requires e.EntityMerged? ==>
               e.resolutionProposalId.Some? &&
               ApprovedBy(log, e.resolutionProposalId.value) && !Merged(log, e.resolutionProposalId.value)
    ensures Live(log, p)
  {
    StageAfter(log, e, p);
    if Decided(log, p.id) && !(ApprovedBy(log, p.id) && !Merged(log, p.id)) {
      var m :| m in log + [e] && MergeOf(m, p.id) && !IsReverted(log + [e], m.eventId);
      RevertsAfter(log, e, m.eventId);
      assert m in log;
    }
  }

  lemma OneLiveAfter(log: Log, e: DomainEvent)
    requires OneLiveProposalPerPair(log) && !e.ResolutionProposed?
    requires e.ResolutionDecided? ==> !Decided(log, e.decision.proposalId)
    requires e.EntityMerged? ==>
               e.resolutionProposalId.Some? &&
               ApprovedBy(log, e.resolutionProposalId.value) && !Merged(log, e.resolutionProposalId.value)
    ensures OneLiveProposalPerPair(log + [e])
  {
    forall p: Proposal, q: Proposal |
      ProposalEvent(p) in log + [e] && ProposalEvent(q) in log + [e] && SamePair(p, q.source, q.candidate) &&
      Live(log + [e], p) && Live(log + [e], q)
      ensures p == q
    {
      LiveShrinks(log, e, p);
      LiveShrinks(log, e, q);
    }
  }

  lemma RecordsPersist(log: Log, e: DomainEvent)
    ensures forall id :: Proposed(log, id) ==> Proposed(log + [e], id)
    ensures forall id :: ApprovedBy(log, id) ==> ApprovedBy(log + [e], id)
    ensures forall m :: Backed(log, m) ==> Backed(log + [e], m)
    ensures forall id :: MergeRecorded(log, id) ==> MergeRecorded(log + [e], id)
  {
    var log' := log + [e];
    assert forall f :: f in log ==> f in log';
    forall id | ApprovedBy(log, id) ensures ApprovedBy(log', id) {
      var f :| f in log && f.ResolutionDecided? && f.decision.proposalId == id && f.decision.outcome.Approved?;
      assert f in log';
    }
    forall id | MergeRecorded(log, id) ensures MergeRecorded(log', id) {
      var f :| f in log && f.EntityMerged? && f.eventId == id;
      assert f in log';
    }
    forall m | Backed(log, m) ensures Backed(log', m) {
      var p: Proposal :| ProposalEvent(p) in log && Merges(m, p) && ApprovedBy(log, p.id);
      assert ProposalEvent(p) in log';
    }
  }

  lemma ScopedAfter(w: World, e: DomainEvent)
    requires ProposalsScoped(w) && !e.ResolutionProposed?
    ensures ProposalsScoped(w.(log := w.log + [e]))
  {}

  lemma DecidedAfter(log: Log, e: DomainEvent)
    requires DecidedAtMostOnce(log) && !e.ResolutionDecided?
    ensures DecidedAtMostOnce(log + [e])
  {
    RecordsPersist(log, e);
  }

  lemma MergedAfter(log: Log, e: DomainEvent)
    requires MergedOnceIfApproved(log) && !e.EntityMerged?
    ensures MergedOnceIfApproved(log + [e])
  {
    RecordsPersist(log, e);
  }

  lemma RevertedAfter(log: Log, e: DomainEvent)
    requires RevertedAtMostOnce(log) && !e.MergeReverted?
    ensures RevertedAtMostOnce(log + [e])
  {
    RecordsPersist(log, e);
  }

  lemma SoundAfterForeign(w: World, e: DomainEvent)
    requires Sound(w) && Foreign(e) && FreshIn(w.log, e.eventId)
    ensures Sound(w.(log := w.log + [e]))
  {
    ScopedAfter(w, e);
    DecidedAfter(w.log, e);
    MergedAfter(w.log, e);
    RevertedAfter(w.log, e);
    RedirectsIgnore(w.log, e);
    OneLiveAfter(w.log, e);
  }

  /** A proposal accepted next to no live equivalent one is the only live one of its pair. */
  lemma OneLiveAfterProposal(w: World, p: Proposal)
    requires Sound(w) && FreshIn(w.log, p.id)
    requires p.source in w.entities && w.entities[p.source] == p.scope
    requires EquivalentError(w.log, ListProposals(w.log, p.scope, p.source), p.source, p.candidate).None?
    ensures OneLiveProposalPerPair(w.log + [ProposalEvent(p)])
  {
    var e, log' := ProposalEvent(p), w.log + [ProposalEvent(p)];
    forall q: Proposal | ProposalEvent(q) in w.log && SamePair(q, p.source, p.candidate)
      ensures !Live(w.log, q)
    {
      assert ProposalEvent(q).proposal == q;
      assert ProposalMatches(q, p.scope, p.source);
      assert q in ListProposals(w.log, p.scope, p.source);
      OpenErrorIffLive(w.log, q);
    }
    forall q: Proposal, r: Proposal |
      ProposalEvent(q) in log' && ProposalEvent(r) in log' && SamePair(q, r.source, r.candidate) &&
      Live(log', q) && Live(log', r)
      ensures q == r
    {
      LiveShrinks(w.log, e, q);
      LiveShrinks(w.log, e, r);
      assert ProposalEvent(q) == e ==> q == p;
      assert ProposalEvent(r) == e ==> r == p;
    }
  }

  lemma ProposalAccepted(w: World, c: Command, e: DomainEvent)
    requires c.Propose?
    requires ProposeOutcome(w, c.source, c.candidate, c.allowed, c.signals, c.id, c.now) == Ok(e)
    ensures c.source != c.candidate && c.source in w.entities && c.candidate in w.entities
    ensures w.entities[c.source] == w.entities[c.candidate]
    ensures e == ProposalEvent(Proposal(c.id, w.entities[c.source], c.source, c.candidate, c.now))
    ensures EquivalentError(w.log, ListProposals(w.log, w.entities[c.source], c.source), c.source, c.candidate).None?
  {
    assert c.source in [c.source, c.candidate] && c.candidate in [c.source, c.candidate];
  }

  lemma SoundAfterPropose(w: World, c: Command, e: DomainEvent)
    requires Sound(w) && c.Propose? && FreshIn(w.log, e.eventId)
    requires Appended(w, c) == Some(e)
    ensures Sound(w.(log := w.log + [e]))
  {
    ProposalAccepted(w, c, e);
    OneLiveAfterProposal(w, e.proposal);
    DecidedAfter(w.log, e);
    MergedAfter(w.log, e);
    RevertedAfter(w.log, e);
    RedirectsIgnore(w.log, e);
    assert ProposalsScoped(w.(log := w.log + [e]));
  }

  lemma FoundProposal(w: World, id: EventId)
    requires Sound(w) && FindProposal(w.log, id).Some?
    ensures var p := FindProposal(w.log, id).value;
            p.id == id && ProposalEvent(p) in w.log && p.source != p.candidate
  {}

  lemma DecisionAccepted(w: World, c: Command, e: DomainEvent)
    requires Sound(w) && c.Decide? && Appended(w, c) == Some(e)
    ensures e == DecisionEvent(ResolutionDecision(c.id, c.proposalId, c.outcome, c.now))
    ensures Proposed(w.log, c.proposalId) && !Decided(w.log, c.proposalId)
  {
    FoundProposal(w, c.proposalId);
    LastDecisionMeaning(w.log, c.proposalId);
  }

  lemma SoundAfterDecide(w: World, e: DomainEvent)
    requires Sound(w) && FreshIn(w.log, e.eventId) && e.ResolutionDecided?
    requires Proposed(w.log, e.decision.proposalId) && !Decided(w.log, e.decision.proposalId)
    ensures Sound(w.(log := w.log + [e]))
  {
    OneLiveAfter(w.log, e);
    ScopedAfter(w, e);
    MergedAfter(w.log, e);
    RevertedAfter(w.log, e);
    RedirectsIgnore(w.log, e);
    DecidedOnceAfter(w.log, e);
  }

  lemma DecidedOnceAfter(log: Log, e: DomainEvent)
    requires DecidedAtMostOnce(log) && e.ResolutionDecided?
    requires Proposed(log, e.decision.proposalId) && !Decided(log, e.decision.proposalId)
    ensures DecidedAtMostOnce(log + [e])
  {
    RecordsPersist(log, e);
  }

  /** What an accepted merge records. */
  lemma MergeAccepted(w: World, c: Command, e: DomainEvent) returns (p: Proposal, a: EntityId)
    requires Sound(w) && c.Merge? && Appended(w, c) == Some(e)
    ensures e == EntityMerged(c.id, c.now, c.surviving, [a], Some(p.id))
    ensures ProposalEvent(p) in w.log && Merges(e, p) && ApprovedBy(w.log, p.id) && !Merged(w.log, p.id)
    ensures a != c.surviving
    ensures a !in CanonicalRedirects(w.log) && c.surviving !in CanonicalRedirects(w.log)
  {
    FoundProposal(w, c.proposalId);
    LastDecisionMeaning(w.log, c.proposalId);
    p := FindProposal(w.log, c.proposalId).value;
    a := if c.surviving == p.source then p.candidate else p.source;
    RootErrorMeaning(w.log, c.surviving, a);
    assert First(w.log, IsMergeOf(p.id)).None?;
    forall m | m in w.log ensures !MergeOf(m, p.id) {
      assert !IsMergeOf(p.id)(m);
    }
  }

  lemma MergedOnceAfter(log: Log, e: DomainEvent, p: Proposal)
    requires MergedOnceIfApproved(log)
    requires ProposalEvent(p) in log && Merges(e, p) && ApprovedBy(log, p.id) && !Merged(log, p.id)
    ensures MergedOnceIfApproved(log + [e])
  {
    RecordsPersist(log, e);
    assert Backed(log, e);
    forall m | m in log && m.EntityMerged? ensures m.resolutionProposalId != e.resolutionProposalId {
      assert !MergeOf(m, p.id);
    }
  }

  lemma SoundAfterMerge(w: World, e: DomainEvent, p: Proposal, a: EntityId)
    requires Sound(w) && FreshIn(w.log, e.eventId)
    requires ProposalEvent(p) in w.log && Merges(e, p) && ApprovedBy(w.log, p.id) && !Merged(w.log, p.id)
    requires e.absorbed == [a] && a != e.surviving
    requires a !in CanonicalRedirects(w.log) && e.surviving !in CanonicalRedirects(w.log)
    ensures Sound(w.(log := w.log + [e]))
  {
    MergedOnceAfter(w.log, e, p);
    OneLiveAfter(w.log, e);
    ScopedAfter(w, e);
    DecidedAfter(w.log, e);
    RevertedAfter(w.log, e);
    RedirectsAfterMerge(w.log, e, a);
    MergeKeepsAcyclic(CanonicalRedirects(w.log), a, e.surviving);
  }

  lemma MergesAbsorbOne(log: Log, m: DomainEvent)
    requires MergedOnceIfApproved(log) && m in log && m.EntityMerged?
    ensures |m.absorbed| == 1
  {
    assert Backed(log, m);
  }

  /** What an accepted revert takes back. */
  lemma RevertAccepted(w: World, c: Command, e: DomainEvent) returns (m: DomainEvent, a: EntityId)
    requires Sound(w) && c.Revert? && Appended(w, c) == Some(e)
    ensures m in w.log && m.EntityMerged? && m.eventId == c.mergeEventId && m.absorbed == [a]
    ensures !IsReverted(w.log, m.eventId)
    ensures e == MergeReverted(c.id, c.now, m.eventId, m.surviving, [a])
  {
    m := First(w.log, IsMerge(c.mergeEventId)).value;
    MergesAbsorbOne(w.log, m);
    a := m.absorbed[0];
  }

  lemma RevertedOnceAfter(log: Log, e: DomainEvent)
    requires RevertedAtMostOnce(log) && e.MergeReverted?
    requires MergeRecorded(log, e.mergeEventId) && !IsReverted(log, e.mergeEventId)
    ensures RevertedAtMostOnce(log + [e])
  {
    RecordsPersist(log, e);
  }

  lemma SoundAfterRevert(w: World, e: DomainEvent, m: DomainEvent, a: EntityId)
    requires Sound(w) && FreshIn(w.log, e.eventId)
    requires m in w.log && m.EntityMerged? && m.absorbed == [a] && !IsReverted(w.log, m.eventId)
    requires e.MergeReverted? && e.mergeEventId == m.eventId
    ensures Sound(w.(log := w.log + [e]))
  {
    assert MergeRecorded(w.log, m.eventId);
    RevertedOnceAfter(w.log, e);
    OneLiveAfter(w.log, e);
    ScopedAfter(w, e);
    DecidedAfter(w.log, e);
    MergedAfter(w.log, e);
    RedirectsAfterRevert(w.log, m, e, a);
    SubmapAcyclic(CanonicalRedirects(w.log), {a});
  }

  lemma SoundAfterRegister(w: World, entity: EntityId, scope: Scope)
    requires Sound(w) && entity !in w.entities
    ensures Sound(w.(entities := w.entities[entity := scope]))
  {}

  lemma SoundInitially()
    ensures Sound(World(map[], []))
  {
    forall x, s ensures !Redirected([], x, s) {}
    RedirectsAre([], map[]);
  }

  lemma AcceptedKeepsSound(w: World, c: Command, e: DomainEvent)
    requires Sound(w) && Appended(w, c) == Some(e) && FreshIn(w.log, e.eventId)
    ensures Sound(w.(log := w.log + [e]))
  {
    if c.Propose? {
      SoundAfterPropose(w, c, e);
    } else if c.Decide? {
      DecisionAccepted(w, c, e);
      SoundAfterDecide(w, e);
    } else if c.Merge? {
      var p, a := MergeAccepted(w, c, e);
      SoundAfterMerge(w, e, p, a);
    } else if c.Revert? {
      var m, a := RevertAccepted(w, c, e);
      SoundAfterRevert(w, e, m, a);
    } else if c.Elsewhere? {
      SoundAfterForeign(w, e);
    }
  }

  lemma ApplyKeepsSound(w: World, c: Command)
    requires Sound(w)
    requires Appended(w, c).Some? ==> FreshIn(w.log, Appended(w, c).value.eventId)
    ensures Sound(Apply(w, c))
  {
    if Appended(w, c).Some? {
      AcceptedKeepsSound(w, c, Appended(w, c).value);
    } else if c.Register? && c.entity !in w.entities {
      SoundAfterRegister(w, c.entity, c.scope);
    }
  }

  // ----- the guarantees

  /** Every run: a proposal is decided at most once and merged only if approved and at most once, a merge
      is reverted at most once, each pair has at most one live proposal, and redirects form a forest. */
  lemma {:induction false} EveryRunIsSound(commands: seq<Command>)
    requires FreshRun(commands)
    ensures Sound(Run(commands))
  {
    if commands == [] {
      SoundInitially();
    } else {
      var front := commands[..|commands| - 1];
      EveryRunIsSound(front);
      ApplyKeepsSound(Run(front), commands[|commands| - 1]);
    }
  }

  lemma {:induction false} RedirectCount(merges: seq<DomainEvent>)
    requires forall m :: m in merges ==> m.EntityMerged? && |m.absorbed| == 1
    ensures |RedirectsOf(merges)| <= |merges|
  {
    if merges != [] {
      var front, last := merges[..|merges| - 1], merges[|merges| - 1];
      RedirectCount(front);
      var m := RedirectsOf(front);
      assert last.absorbed == [last.absorbed[0]];
      assert AbsorbAll(m, last.absorbed[..0], last.surviving) == m;
      var m' := m[last.absorbed[0] := last.surviving];
      assert m'.Keys == m.Keys + {last.absorbed[0]};
      assert |m'.Keys| == |m'| && |m.Keys| == |m|;
    }
  }

  /** In every run canonical ids exist for all entities, are found within as many redirects as there are
      active merges, are their own canonical ids, and do not depend on the order the log is listed in. */
  lemma CanonicalIdsAlwaysResolve(commands: seq<Command>, id: EntityId, listed: Log)
    requires FreshRun(commands) && multiset(listed) == multiset(Run(commands).log)
    ensures var log := Run(commands).log;
            && CanonicalId(log, id).Ok?
            && Hops(CanonicalRedirects(log), id) <= |ActiveMerges(log)|
            && CanonicalId(log, CanonicalId(log, id).value) == CanonicalId(log, id)
            && CanonicalId(listed, id) == CanonicalId(log, id)
  {
    EveryRunIsSound(commands);
    var log := Run(commands).log;
    ChaseEndsAtRoot(CanonicalRedirects(log), id);
    ActiveMergesMembers(log);
    forall m | m in ActiveMerges(log) ensures |m.absorbed| == 1 {
      assert Backed(log, m);
    }
    RedirectCount(ActiveMerges(log));
    PermutationInvariant(log, listed);
  }

  /** The projection's resolver never disagrees with the knowledge capability in any run. */
  lemma ProjectionResolverAgrees(commands: seq<Command>, id: EntityId)
    requires FreshRun(commands)
    ensures CanonicalId(Run(commands).log, id) == Ok(Resolve(RelevantEvents(Run(commands).log), id))
  {
    EveryRunIsSound(commands);
    var log := Run(commands).log;
    ReadersAgree(log, id);
    ChaseEndsAtRoot(CanonicalRedirects(log), id);
  }

  function Canonical(w: World, x: EntityId): EntityId {
    Chase(CanonicalRedirects(w.log), x)
  }

  lemma SoundCanonical(w: World, x: EntityId)
    requires Sound(w)
    ensures CanonicalId(w.log, x) == Ok(Canonical(w, x))
  {
    ChaseEndsAtRoot(CanonicalRedirects(w.log), x);
  }

  /** An accepted merge sends exactly the absorbed entity's class to the survivor. */
  lemma MergeSendsClass(w: World, c: Command, e: DomainEvent, x: EntityId)
    requires Sound(w) && c.Merge? && Appended(w, c) == Some(e) && FreshIn(w.log, e.eventId)
    ensures e.EntityMerged? && e.surviving == c.surviving && |e.absorbed| == 1
    ensures var absorbed := e.absorbed[0];
            && absorbed != c.surviving
            && Canonical(w, absorbed) == absorbed && Canonical(w, c.surviving) == c.surviving
            && Canonical(Apply(w, c), x) == if Canonical(w, x) == absorbed then c.surviving else Canonical(w, x)
  {
    var p, a := MergeAccepted(w, c, e);
    RedirectsAfterMerge(w.log, e, a);
    ChaseAfterMerge(CanonicalRedirects(w.log), a, c.surviving, x);
  }

  /** An accepted revert sends back exactly the entities whose redirect path passes through the absorbed one. */
  lemma RevertSplitsClass(w: World, c: Command, e: DomainEvent, x: EntityId)
    requires Sound(w) && c.Revert? && Appended(w, c) == Some(e) && FreshIn(w.log, e.eventId)
    ensures e.MergeReverted? && |e.restored| == 1
    ensures Canonical(Apply(w, c), x) ==
            if Reaches(CanonicalRedirects(w.log), x, e.restored[0]) then e.restored[0] else Canonical(w, x)
  {
    var m, a := RevertAccepted(w, c, e);
    RedirectsAfterRevert(w.log, m, e, a);
    ChaseAfterRevert(CanonicalRedirects(w.log), a, x);
  }

  /** The redirect table after an accepted revert. */
  lemma RedirectsReverted(w: World, c: Command) returns (a: EntityId)
    requires Sound(w) && c.Revert? && Appended(w, c).Some? && FreshIn(w.log, Appended(w, c).value.eventId)
    ensures Sound(Apply(w, c))
    ensures Appended(w, c).value.MergeReverted? && Appended(w, c).value.restored == [a]
    ensures exists m :: m in w.log && m.EntityMerged? && m.eventId == c.mergeEventId && m.absorbed == [a]
    ensures CanonicalRedirects(Apply(w, c).log) == CanonicalRedirects(w.log) - {a}
  {
    var e := Appended(w, c).value;
    var m;
    m, a := RevertAccepted(w, c, e);
    SoundAfterRevert(w, e, m, a);
    RedirectsAfterRevert(w.log, m, e, a);
  }

  lemma RedirectsMerged(w: World, c: Command) returns (a: EntityId)
    requires Sound(w) && c.Merge? && Appended(w, c).Some? && FreshIn(w.log, Appended(w, c).value.eventId)
    ensures Sound(Apply(w, c))
    ensures Appended(w, c).value.EntityMerged? && Appended(w, c).value.absorbed == [a]
    ensures a !in CanonicalRedirects(w.log)
    ensures CanonicalRedirects(Apply(w, c).log) == CanonicalRedirects(w.log)[a := c.surviving]
  {
    var e := Appended(w, c).value;
    var p;
    p, a := MergeAccepted(w, c, e);
    SoundAfterMerge(w, e, p, a);
    RedirectsAfterMerge(w.log, e, a);
  }

  lemma MergedEventOnly(w: World, c: Command, r: Command, b: EntityId)
    requires Sound(Apply(w, c)) && Appended(w, c).Some? && Appended(w, c).value.EntityMerged?
    requires r.Revert? && r.mergeEventId == Appended(w, c).value.eventId
    requires exists m :: m in Apply(w, c).log && m.EntityMerged? && m.eventId == r.mergeEventId && m.absorbed == [b]
    ensures Appended(w, c).value.absorbed == [b]
  {
    var log, e := Apply(w, c).log, Appended(w, c).value;
    var m :| m in log && m.EntityMerged? && m.eventId == r.mergeEventId && m.absorbed == [b];
    SameEventId(log, m, e);
  }

  lemma Unmerge(m: RedirectMap, a: EntityId, s: EntityId)
    requires a !in m
    ensures m[a := s] - {a} == m
  {}

  /** Reverting the merge just made restores every canonical id. */
  lemma MergeThenRevertRestores(w: World, c: Command, r: Command, x: EntityId)
    requires Sound(w) && c.Merge? && Appended(w, c).Some? && FreshIn(w.log, Appended(w, c).value.eventId)
    requires r.Revert? && r.mergeEventId == Appended(w, c).value.eventId
    requires Appended(Apply(w, c), r).Some? && FreshIn(Apply(w, c).log, Appended(Apply(w, c), r).value.eventId)
    ensures Canonical(Apply(Apply(w, c), r), x) == Canonical(w, x)
  {
    var a := RedirectsMerged(w, c);
    var b := RedirectsReverted(Apply(w, c), r);
    MergedEventOnly(w, c, r, b);
    assert [a][0] == [b][0];
    Unmerge(CanonicalRedirects(w.log), a, c.surviving);
  }

  lemma {:induction false} FirstAppend(log: Log, e: DomainEvent, wanted: DomainEvent -> bool)
    requires !wanted(e)
    ensures First(log + [e], wanted) == First(log, wanted)
  {
    if log != [] {
      assert (log + [e])[1..] == log[1..] + [e];
      FirstAppend(log[1..], e, wanted);
    }
  }

  lemma RevertLeavesOtherReverts(w: World, c: Command, d: Command)
    requires c.Revert? && d.Revert? && c.mergeEventId != d.mergeEventId
    ensures Appended(Apply(w, c), d) == Appended(w, d)
  {
    if Appended(w, c).Some? {
      var e := Appended(w, c).value;
      FirstAppend(w.log, e, IsMerge(d.mergeEventId));
      RevertsAfter(w.log, e, d.mergeEventId);
    }
  }

  lemma RevertUsesItsId(w: World, c: Command)
    requires c.Revert? && Appended(w, c).Some?
    ensures Appended(w, c).value.eventId == c.id
  {}

  /** The second of two reverts, after the first. */
  lemma SecondRevert(w: World, c: Command, d: Command) returns (b: EntityId)
    requires Sound(Apply(w, c)) && d.Revert? && c.Revert? && c.id != d.id && FreshIn(w.log, d.id)
    requires Appended(w, c).Some? && Appended(Apply(w, c), d).Some?
    ensures Appended(Apply(w, c), d).value.MergeReverted? && Appended(Apply(w, c), d).value.restored == [b]
    ensures CanonicalRedirects(Apply(Apply(w, c), d).log) == CanonicalRedirects(Apply(w, c).log) - {b}
  {
    RevertUsesItsId(w, c);
    RevertUsesItsId(Apply(w, c), d);
    b := RedirectsReverted(Apply(w, c), d);
  }

  lemma TwoReverts(w: World, c: Command, d: Command) returns (a: EntityId, b: EntityId)
    requires Sound(w) && c.Revert? && d.Revert? && c.mergeEventId != d.mergeEventId && c.id != d.id
    requires FreshIn(w.log, c.id) && FreshIn(w.log, d.id)
    requires Appended(w, c).Some? && Appended(w, d).Some?
    ensures Appended(Apply(w, c), d) == Appended(w, d)
    ensures Appended(w, c).value.MergeReverted? && Appended(w, c).value.restored == [a]
    ensures Appended(w, d).value.MergeReverted? && Appended(w, d).value.restored == [b]
    ensures CanonicalRedirects(Apply(Apply(w, c), d).log) == CanonicalRedirects(w.log) - {a} - {b}
  {
    RevertLeavesOtherReverts(w, c, d);
    RevertUsesItsId(w, c);
    a := RedirectsReverted(w, c);
    b := SecondRevert(w, c, d);
  }

  lemma RemovalsCommute(m: RedirectMap, a: EntityId, b: EntityId)
    ensures m - {a} - {b} == m - {b} - {a}
  {}

  lemma AcceptedRevertsCommute(w: World, c: Command, d: Command, x: EntityId)
    requires Sound(w) && c.Revert? && d.Revert? && c.mergeEventId != d.mergeEventId && c.id != d.id
    requires FreshIn(w.log, c.id) && FreshIn(w.log, d.id)
    requires Appended(w, c).Some? && Appended(w, d).Some?
    ensures Canonical(Apply(Apply(w, c), d), x) == Canonical(Apply(Apply(w, d), c), x)
  {
    var a, b := TwoReverts(w, c, d);
    var b', a' := TwoReverts(w, d, c);
    assert [a][0] == [a'][0] && [b][0] == [b'][0];
    RemovalsCommute(CanonicalRedirects(w.log), a, b);
  }

  lemma RefusedRevertDoesNothing(w: World, c: Command)
    requires c.Revert? && Appended(w, c).None?
    ensures Apply(w, c) == w
  {}

  /** Reverts of different merges commute: each is accepted or refused, with the same event, whether it comes first
      or second, and both orders give the same canonical ids. */
  lemma RevertsCommute(w: World, c: Command, d: Command, x: EntityId)
    requires Sound(w) && c.Revert? && d.Revert? && c.mergeEventId != d.mergeEventId && c.id != d.id
    requires FreshIn(w.log, c.id) && FreshIn(w.log, d.id)
    ensures Appended(Apply(w, c), d) == Appended(w, d) && Appended(Apply(w, d), c) == Appended(w, c)
    ensures Canonical(Apply(Apply(w, c), d), x) == Canonical(Apply(Apply(w, d), c), x)
  {
    RevertLeavesOtherReverts(w, c, d);
    RevertLeavesOtherReverts(w, d, c);
    if Appended(w, c).None? {
      RefusedRevertDoesNothing(w, c);
      RefusedRevertDoesNothing(Apply(w, d), c);
    } else if Appended(w, d).None? {
      RefusedRevertDoesNothing(w, d);
      RefusedRevertDoesNothing(Apply(w, c), d);
    } else {
      AcceptedRevertsCommute(w, c, d, x);
    }
  }
}
