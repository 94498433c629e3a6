/** Any interleaving of searches through the serving gate. */
module ServingRuns {
  import opened Kernel
  import opened ServingGate

  type SearchId = nat

  /** `settled` remembers, in order, whether each projection run since the last reset succeeded. */
  datatype System = System(gate: Gate, searches: map<SearchId, Phase>, settled: seq<bool>)

  /** What moves a search on: its own next segment, with what it awaited. */
  datatype Move =
    | StatusSettles(ready: bool, failure: Option<string>)
    | ResumeSearch(sample: real)
    | CanonicalSettles(found: bool, elapsed: real)
    | CanonicalReturns
    | ProjectionSettles(error: Option<string>, elapsed: real)
    | ProjectionReturns(sameOrder: bool)

  datatype Action =
    | BeginSearch(id: SearchId)
    | Advance(id: SearchId, move: Move)
    | PollStatus(failure: Option<string>)
    | ResetRollback

  const START := System(FRESH_GATE, map[], [])

  function Noted(g: Gate, failure: Option<string>): Gate {
    if failure.Some? then StatusFailed(g, failure.value) else g
  }

  /** The segment a move runs from a phase; a move that does not fit the phase does nothing. */
  function Segment(policy: Policy, g: Gate, phase: Phase, move: Move): (Gate, Phase) {
    match (phase, move)
    case (AwaitStatus(mode), StatusSettles(ready, failure)) =>
      (Noted(g, failure), Checked(mode, ready && failure.None?))
    case (Checked(mode, ready), ResumeSearch(sample)) =>
      Resume(policy, g, mode, ready, sample)
    case (AwaitCanonical(compare), CanonicalSettles(found, elapsed)) =>
      (SettleCanonical(g, elapsed), CanonicalSettled(compare, found))
    case (CanonicalSettled(compare, found), CanonicalReturns) =>
      (g, AfterCanonical(compare, found))
    case (AwaitProjection(shadow), ProjectionSettles(error, elapsed)) =>
      (SettleProjection(policy, g, error, elapsed), ProjectionSettled(shadow, error.None?))
    case (ProjectionSettled(shadow, found), ProjectionReturns(sameOrder)) =>
      AfterProjection(g, shadow, found, sameOrder)
    case _ => (g, phase)
  }

  function Outcomes(settled: seq<bool>, phase: Phase, move: Move): seq<bool> {
    if phase.AwaitProjection? && move.ProjectionSettles? then settled + [move.error.None?] else settled
  }

  function Step(policy: Policy, s: System, a: Action): System {
    match a
    case BeginSearch(id) =>
      if id in s.searches then s
      else var (g, phase) := Begin(policy, s.gate); System(g, s.searches[id := phase], s.settled)
    case Advance(id, move) =>
      if id !in s.searches then s
      else
        var (g, phase) := Segment(policy, s.gate, s.searches[id], move);
        System(g, s.searches[id := phase], Outcomes(s.settled, s.searches[id], move))
    case PollStatus(failure) => s.(gate := Noted(s.gate, failure))
    case ResetRollback => System(Reset(s.gate), s.searches, [])
  }

  function Run(policy: Policy, s: System, actions: seq<Action>): System {
    if actions == [] then s else Step(policy, Run(policy, s, actions[..|actions| - 1]), actions[|actions| - 1])
  }

  predicate Quiescent(s: System) {
    forall id :: id in s.searches ==> s.searches[id].Finished?
  }

  // ----- counting searches by phase

  function InPhase(searches: map<SearchId, Phase>, p: Phase -> bool): set<SearchId> {
    set id | id in searches && p(searches[id])
  }

  function Count(searches: map<SearchId, Phase>, p: Phase -> bool): nat {
    |InPhase(searches, p)|
  }

  function Unit(b: bool): nat {
    if b then 1 else 0
  }

  lemma CountMove(searches: map<SearchId, Phase>, id: SearchId, phase: Phase, p: Phase -> bool)
    requires id in searches
    ensures Count(searches[id := phase], p) + Unit(p(searches[id])) == Count(searches, p) + Unit(p(phase))
  {
    var rest := InPhase(searches, p) - {id};
    assert InPhase(searches[id := phase], p) == if p(phase) then rest + {id} else rest;
    assert InPhase(searches, p) == if p(searches[id]) then rest + {id} else rest;
  }

  lemma CountBegin(searches: map<SearchId, Phase>, id: SearchId, phase: Phase, p: Phase -> bool)
    requires id !in searches
    ensures Count(searches[id := phase], p) == Count(searches, p) + Unit(p(phase))
  {
    var before := InPhase(searches, p);
    assert InPhase(searches[id := phase], p) == if p(phase) then before + {id} else before;
  }

  lemma QuiescentCounts(s: System, p: Phase -> bool)
    requires Quiescent(s)
    ensures Count(s.searches, p) == if p(Finished) then |s.searches| else 0
  {
    assert InPhase(s.searches, p) == if p(Finished) then s.searches.Keys else {};
    assert |s.searches.Keys| == |s.searches|;
  }

  // ----- the counters, exactly, at every instant

  /** The projection has answered and the search has not yet booked it. */
  const UNBOOKED: Phase -> bool := (ph: Phase) => ph.ProjectionSettled? && ph.found

  /** The claims returned to the caller are already determined. */
  const ANSWERED: Phase -> bool := (ph: Phase) =>
    ph.Finished? || ph.CanonicalSettled? ||
    (ph.AwaitProjection? && ph.shadow) || (ph.ProjectionSettled? && ph.shadow)

  /** The search has been committed to the projection's answer or to the canonical one. */
  const COMMITTED: Phase -> bool := (ph: Phase) =>
    ph.Finished? || ph.CanonicalSettled? || ph.AwaitCanonical?

  ghost predicate Balanced(s: System) {
    && s.gate.projectionSearches ==
       s.gate.projectionServed + s.gate.shadowComparisons + Count(s.searches, UNBOOKED)
    && |s.gate.projectionLatency| == s.gate.projectionSearches + s.gate.projectionErrors
    && |s.gate.canonicalLatency| == s.gate.canonicalSearches
    && s.gate.projectionServed + s.gate.canonicalSearches == Count(s.searches, ANSWERED)
  }

  /** What the configured mode allows a search to be doing. */
  predicate Fits(mode: Mode, ph: Phase) {
    match ph
    case AwaitStatus(m) => m == mode && mode != Disabled
    case Checked(m, _) => m == mode && mode != Disabled
    case AwaitCanonical(compare) => compare ==> mode == Shadow
    case CanonicalSettled(compare, _) => compare ==> mode == Shadow
    case AwaitProjection(shadow) => mode != Disabled && (shadow <==> mode == Shadow)
    case ProjectionSettled(shadow, _) => mode != Disabled && (shadow <==> mode == Shadow)
    case Finished => true
  }

  ghost predicate Fitting(policy: Policy, s: System) {
    forall id :: id in s.searches ==> Fits(policy.mode, s.searches[id])
  }

  ghost predicate ModeCounts(policy: Policy, s: System) {
    && (policy.mode == Enabled ==>
          s.gate.projectionServed + s.gate.canonicalFallbacks == Count(s.searches, COMMITTED))
    && (policy.mode == Shadow ==> s.gate.projectionServed == 0)
    && (policy.mode != Shadow ==> s.gate.shadowComparisons == 0)
    && (policy.mode == Disabled ==> s.gate.projectionSearches + s.gate.projectionErrors == 0)
    && s.gate.shadowMismatches <= s.gate.shadowComparisons
  }

  lemma SegmentBalances(policy: Policy, s: System, id: SearchId, move: Move)
    requires id in s.searches && Balanced(s)
    ensures Balanced(Step(policy, s, Advance(id, move)))
  {
    var phase := Segment(policy, s.gate, s.searches[id], move).1;
    CountMove(s.searches, id, phase, UNBOOKED);
    CountMove(s.searches, id, phase, ANSWERED);
  }

  lemma BeginBalances(policy: Policy, s: System, id: SearchId)
    requires id !in s.searches && Balanced(s)
    ensures Balanced(Step(policy, s, BeginSearch(id)))
  {
    var phase := Begin(policy, s.gate).1;
    CountBegin(s.searches, id, phase, UNBOOKED);
    CountBegin(s.searches, id, phase, ANSWERED);
  }

  lemma SegmentFits(policy: Policy, g: Gate, ph: Phase, move: Move)
    requires Fits(policy.mode, ph)
    ensures Fits(policy.mode, Segment(policy, g, ph, move).1)
  {}

  lemma SegmentKeepsModeCounts(policy: Policy, s: System, id: SearchId, move: Move)
    requires id in s.searches && Fits(policy.mode, s.searches[id]) && ModeCounts(policy, s)
    ensures ModeCounts(policy, Step(policy, s, Advance(id, move)))
  {
    CountMove(s.searches, id, Segment(policy, s.gate, s.searches[id], move).1, COMMITTED);
  }

  lemma BeginKeepsModeCounts(policy: Policy, s: System, id: SearchId)
    requires id !in s.searches && ModeCounts(policy, s)
    ensures ModeCounts(policy, Step(policy, s, BeginSearch(id)))
  {
    CountBegin(s.searches, id, Begin(policy, s.gate).1, COMMITTED);
  }

  ghost predicate Counted(policy: Policy, s: System) {
    Balanced(s) && Fitting(policy, s) && ModeCounts(policy, s)
  }

  lemma StepKeepsFitting(policy: Policy, s: System, a: Action)
    requires Fitting(policy, s)
    ensures Fitting(policy, Step(policy, s, a))
  {
    if a.Advance? && a.id in s.searches {
      SegmentFits(policy, s.gate, s.searches[a.id], a.move);
    }
  }

  lemma StepKeepsCounted(policy: Policy, s: System, a: Action)
    requires Counted(policy, s)
    ensures Counted(policy, Step(policy, s, a))
  {
    StepKeepsFitting(policy, s, a);
    match a
    case BeginSearch(id) =>
      if id !in s.searches {
        BeginBalances(policy, s, id);
        BeginKeepsModeCounts(policy, s, id);
      }
    case Advance(id, move) =>
      if id in s.searches {
        SegmentBalances(policy, s, id, move);
        SegmentKeepsModeCounts(policy, s, id, move);
      }
    case PollStatus(_) =>
    case ResetRollback =>
  }

  lemma NoneCounted(searches: map<SearchId, Phase>, p: Phase -> bool)
    requires searches == map[]
    ensures Count(searches, p) == 0
  {
    assert InPhase(searches, p) == {};
  }

  lemma StartIsCounted(policy: Policy, s: System)
    requires s == START
    ensures Counted(policy, s)
  {
    NoneCounted(s.searches, UNBOOKED);
    NoneCounted(s.searches, ANSWERED);
    NoneCounted(s.searches, COMMITTED);
  }

  lemma {:induction false} EveryRunIsCounted(policy: Policy, actions: seq<Action>)
    ensures Counted(policy, Run(policy, START, actions))
  {
    if actions == [] {
      StartIsCounted(policy, START);
    } else {
      var before := Run(policy, START, actions[..|actions| - 1]);
      EveryRunIsCounted(policy, actions[..|actions| - 1]);
      StepKeepsCounted(policy, before, actions[|actions| - 1]);
    }
  }

  /** When no search is in flight the counters add up: every search was answered exactly once, by the projection
      or by the canonical store; every projection success was served or compared; every attempt was timed. */
  lemma CountersAddUp(policy: Policy, actions: seq<Action>)
    requires Quiescent(Run(policy, START, actions))
    ensures var s := Run(policy, START, actions);
            && s.gate.projectionSearches == s.gate.projectionServed + s.gate.shadowComparisons
            && |s.gate.projectionLatency| == s.gate.projectionSearches + s.gate.projectionErrors
            && |s.gate.canonicalLatency| == s.gate.canonicalSearches
            && |s.searches| == s.gate.projectionServed + s.gate.canonicalSearches
            && (policy.mode == Enabled ==> |s.searches| == s.gate.projectionServed + s.gate.canonicalFallbacks)
            && (policy.mode == Shadow ==> |s.searches| == s.gate.canonicalSearches)
            && (policy.mode == Disabled ==> |s.gate.projectionLatency| == 0)
  {
    var s := Run(policy, START, actions);
    EveryRunIsCounted(policy, actions);
    QuiescentCounts(s, UNBOOKED);
    QuiescentCounts(s, ANSWERED);
    QuiescentCounts(s, COMMITTED);
  }

  // ----- the circuit breaker

  /** Failures since the last success. */
  function Streak(settled: seq<bool>): nat {
    if settled == [] || settled[|settled| - 1] then 0 else 1 + Streak(settled[..|settled| - 1])
  }

  /** At some moment the latest runs had failed `limit` times in a row. */
  ghost predicate Tripped(settled: seq<bool>, limit: int) {
    exists i :: 0 < i <= |settled| && TripsAt(settled, i, limit)
  }

  predicate TripsAt(settled: seq<bool>, i: nat, limit: int)
    requires 0 < i <= |settled|
  {
    !settled[i - 1] && Streak(settled[..i]) >= limit
  }

  lemma TrippedNext(settled: seq<bool>, outcome: bool, limit: int)
    ensures Tripped(settled + [outcome], limit) <==>
            Tripped(settled, limit) || (!outcome && 1 + Streak(settled) >= limit)
    ensures Streak(settled + [outcome]) == if outcome then 0 else 1 + Streak(settled)
  {
    var next := settled + [outcome];
    assert next[..|settled|] == settled && next[..|next|] == next;
    forall i | 0 < i <= |settled| ensures TripsAt(next, i, limit) <==> TripsAt(settled, i, limit) {
      assert next[..i] == settled[..i];
    }
    assert TripsAt(next, |next|, limit) <==> !outcome && 1 + Streak(settled) >= limit;
  }

  ghost predicate BreakerExact(policy: Policy, g: Gate, settled: seq<bool>) {
    && (g.rollbackActive <==> Tripped(settled, policy.maxConsecutiveErrors))
    && g.consecutiveErrors == Streak(settled)
  }

  lemma SettlingKeepsBreaker(policy: Policy, g: Gate, settled: seq<bool>, error: Option<string>, elapsed: real)
    requires BreakerExact(policy, g, settled)
    ensures BreakerExact(policy, SettleProjection(policy, g, error, elapsed), settled + [error.None?])
  {
    TrippedNext(settled, error.None?, policy.maxConsecutiveErrors);
  }

  lemma OthersLeaveBreaker(policy: Policy, g: Gate, ph: Phase, move: Move)
    requires !(ph.AwaitProjection? && move.ProjectionSettles?)
    ensures var after := Segment(policy, g, ph, move).0;
            after.rollbackActive == g.rollbackActive && after.consecutiveErrors == g.consecutiveErrors
  {}

  lemma SegmentKeepsBreaker(policy: Policy, g: Gate, settled: seq<bool>, ph: Phase, move: Move)
    requires BreakerExact(policy, g, settled)
    ensures BreakerExact(policy, Segment(policy, g, ph, move).0, Outcomes(settled, ph, move))
  {
    if ph.AwaitProjection? && move.ProjectionSettles? {
      SettlingKeepsBreaker(policy, g, settled, move.error, move.elapsed);
    } else {
      OthersLeaveBreaker(policy, g, ph, move);
    }
  }

  lemma StepKeepsBreaker(policy: Policy, s: System, a: Action)
    requires BreakerExact(policy, s.gate, s.settled)
    ensures BreakerExact(policy, Step(policy, s, a).gate, Step(policy, s, a).settled)
  {
    match a
    case BeginSearch(id) =>
    case Advance(id, move) =>
      if id in s.searches {
        SegmentKeepsBreaker(policy, s.gate, s.settled, s.searches[id], move);
      }
    case PollStatus(_) =>
    case ResetRollback =>
  }

  /** In every interleaving the rollback is active exactly when, since the last reset, some `maxConsecutiveErrors`
      projection runs in a row settled with an error. */
  lemma {:induction false} RollbackIffTripped(policy: Policy, actions: seq<Action>)
    ensures var s := Run(policy, START, actions);
            (s.gate.rollbackActive <==> Tripped(s.settled, policy.maxConsecutiveErrors)) &&
            s.gate.consecutiveErrors == Streak(s.settled)
  {
    if actions != [] {
      RollbackIffTripped(policy, actions[..|actions| - 1]);
      StepKeepsBreaker(policy, Run(policy, START, actions[..|actions| - 1]), actions[|actions| - 1]);
    }
  }

  /** A search that will never call the projection. */
  predicate KeepsAway(ph: Phase) {
    match ph
    case AwaitCanonical(compare) => !compare
    case CanonicalSettled(compare, _) => !compare
    case Finished => true
    case _ => false
  }

  /** A rollback stays latched through any actions but a reset, and a search begun while it is active never calls
      the projection, not even after a reset. */
  lemma {:induction false} RollbackIsLatched(policy: Policy, s: System, id: SearchId, actions: seq<Action>)
    requires s.gate.rollbackActive && id !in s.searches
    ensures ResetRollback !in actions ==> Run(policy, s, actions).gate.rollbackActive
    ensures var begun := Step(policy, s, BeginSearch(id));
            var later := Run(policy, begun, actions);
            id in later.searches && KeepsAway(later.searches[id]) &&
            !later.searches[id].AwaitProjection? && !later.searches[id].ProjectionSettled?
  {
    if actions != [] {
      var front := actions[..|actions| - 1];
      RollbackIsLatched(policy, s, id, front);
      assert ResetRollback !in actions ==> ResetRollback !in front && actions[|actions| - 1] != ResetRollback;
    }
  }

  // ----- what readiness decides

  /** A search whose status check found the projection unready never calls the projection, whatever else happens. */
  lemma {:induction false} UnreadyStaysAway(policy: Policy, s: System, id: SearchId, mode: Mode, actions: seq<Action>)
    requires id in s.searches && s.searches[id] == Checked(mode, false)
    ensures var later := Run(policy, s, actions);
            && id in later.searches
            && (later.searches[id] == Checked(mode, false) || KeepsAway(later.searches[id]))
            && !later.searches[id].AwaitProjection? && !later.searches[id].ProjectionSettled?
  {
    if actions != [] {
      UnreadyStaysAway(policy, s, id, mode, actions[..|actions| - 1]);
    }
  }

  /** A failed check, or one that finds the projection behind, leaves a search unready; a failure is kept on display. */
  lemma CheckDecidesReadiness(policy: Policy, s: System, id: SearchId, mode: Mode, ready: bool, failure: Option<string>)
    requires id in s.searches && s.searches[id] == AwaitStatus(mode)
    ensures var t := Step(policy, s, Advance(id, StatusSettles(ready, failure)));
            && t.searches == s.searches[id := Checked(mode, ready && failure.None?)]
            && t.gate == s.gate.(lastError := if failure.Some? then failure else s.gate.lastError)
  {}

  /** An unready search falls back to the canonical store, counted as unavailable; a ready one is served by the
      projection when enabled, and in a canary exactly below the canary share. In shadow mode the canonical store
      serves, and nothing is counted yet. */
  lemma ReadinessDecides(policy: Policy, s: System, id: SearchId, mode: Mode, ready: bool, sample: real)
    requires id in s.searches && s.searches[id] == Checked(mode, ready)
    ensures var t := Step(policy, s, Advance(id, ResumeSearch(sample)));
            && t.gate == (if mode == Shadow || ready then s.gate
                          else s.gate.(canonicalFallbacks := s.gate.canonicalFallbacks + 1,
                                       lastFallbackReason := Some(Unavailable)))
            && t.settled == s.settled
            && (mode == Shadow ==> t.searches == s.searches[id := AwaitCanonical(ready)])
            && (mode != Shadow && !ready ==> t.searches == s.searches[id := AwaitCanonical(false)])
            && (mode == Enabled && ready ==> t.searches == s.searches[id := AwaitProjection(false)])
            && (mode == Canary && ready ==>
                  t.searches == s.searches[id := if sample < policy.canaryPercent then AwaitProjection(false)
                                                 else AwaitCanonical(false)])
  {}

  /** A reset clears the breaker and what is displayed, and a failed poll only displays its error: neither touches a
      counter, a timing or a search under way. */
  lemma ResetClears(policy: Policy, s: System, failure: Option<string>)
    ensures var t := Step(policy, s, ResetRollback);
            && t.searches == s.searches && t.settled == []
            && t.gate == s.gate.(rollbackActive := false, consecutiveErrors := 0, lastError := None,
                                 lastFallbackReason := None)
    ensures Step(policy, s, PollStatus(failure)) ==
            if failure.None? then s else s.(gate := s.gate.(lastError := failure))
  {}

  // ----- the reported reason

  ghost predicate Truthful(s: System) {
    && (s.gate.lastFallbackReason.Some? ==> s.gate.canonicalFallbacks > 0)
    && (s.gate.lastFallbackReason == Some(RolledBack) ==> s.gate.rollbackActive)
    && (s.gate.lastFallbackReason == Some(ProjectionError) ==> s.gate.projectionErrors > 0)
    && (s.gate.rollbackActive ==> s.gate.projectionErrors > 0)
    && (forall id :: id in s.searches && FailedRun(s.searches[id]) ==> s.gate.projectionErrors > 0)
  }

  predicate FailedRun(ph: Phase) {
    ph.ProjectionSettled? && !ph.found
  }

  lemma SegmentKeepsTruthful(policy: Policy, s: System, id: SearchId, move: Move)
    requires id in s.searches && Truthful(s)
    ensures Truthful(Step(policy, s, Advance(id, move)))
  {
    var (g, next) := Segment(policy, s.gate, s.searches[id], move);
    assert FailedRun(next) ==> g.projectionErrors > 0;
    assert g.projectionErrors >= s.gate.projectionErrors;
  }

  lemma StepKeepsTruthful(policy: Policy, s: System, a: Action)
    requires Truthful(s)
    ensures Truthful(Step(policy, s, a))
  {
    match a
    case BeginSearch(id) =>
    case Advance(id, move) =>
      if id in s.searches {
        SegmentKeepsTruthful(policy, s, id, move);
      }
    case PollStatus(_) =>
    case ResetRollback =>
  }

  /** The fallback reason on display is true in every interleaving: some search did fall back, a rollback reason
      stands only while the rollback is active, and an error reason or a rollback only after a projection error. */
  lemma {:induction false} ReasonsAreTruthful(policy: Policy, actions: seq<Action>)
    ensures var g := Run(policy, START, actions).gate;
            && (g.lastFallbackReason.Some? ==> g.canonicalFallbacks > 0)
            && (g.lastFallbackReason == Some(RolledBack) ==> g.rollbackActive)
            && (g.lastFallbackReason == Some(ProjectionError) || g.rollbackActive ==> g.projectionErrors > 0)
    ensures Truthful(Run(policy, START, actions))
  {
    if actions != [] {
      ReasonsAreTruthful(policy, actions[..|actions| - 1]);
      StepKeepsTruthful(policy, Run(policy, START, actions[..|actions| - 1]), actions[|actions| - 1]);
    }
  }

  // ----- serial runs

  /** A search begins only when every earlier one has finished. */
  ghost predicate Serial(policy: Policy, actions: seq<Action>) {
    actions == [] ||
    var before, last := Run(policy, START, actions[..|actions| - 1]), actions[|actions| - 1];
    Serial(policy, actions[..|actions| - 1]) && (last.BeginSearch? ==> Quiescent(before))
  }

  /** Neither awaits the projection nor ever will before the next reset. */
  predicate Harmless(ph: Phase) {
    KeepsAway(ph) || ph.ProjectionSettled?
  }

  ghost predicate AtMostOneUnfinished(searches: map<SearchId, Phase>) {
    forall i, j :: i in searches && j in searches && i != j ==> searches[i].Finished? || searches[j].Finished?
  }

  ghost predicate AllHarmless(searches: map<SearchId, Phase>) {
    forall id :: id in searches ==> Harmless(searches[id])
  }

  ghost predicate SerialState(policy: Policy, s: System) {
    && AtMostOneUnfinished(s.searches)
    && (s.gate.rollbackActive <==> s.gate.consecutiveErrors >= policy.maxConsecutiveErrors)
    && (s.gate.rollbackActive ==> AllHarmless(s.searches))
  }

  lemma FinishedIsFinal(policy: Policy, g: Gate, move: Move)
    ensures Segment(policy, g, Finished, move) == (g, Finished)
  {}

  lemma HarmlessSegment(policy: Policy, g: Gate, ph: Phase, move: Move)
    requires Harmless(ph)
    ensures var (after, next) := Segment(policy, g, ph, move);
            Harmless(next) && after.rollbackActive == g.rollbackActive && after.consecutiveErrors == g.consecutiveErrors
  {}

  lemma TrippingSegment(policy: Policy, g: Gate, ph: Phase, move: Move)
    requires policy.maxConsecutiveErrors >= 1
    requires !g.rollbackActive && g.consecutiveErrors < policy.maxConsecutiveErrors
    ensures var (after, next) := Segment(policy, g, ph, move);
            (after.rollbackActive <==> after.consecutiveErrors >= policy.maxConsecutiveErrors) &&
            (after.rollbackActive ==> Harmless(next))
  {}

  lemma SegmentKeepsSerialState(policy: Policy, s: System, id: SearchId, move: Move)
    requires policy.maxConsecutiveErrors >= 1 && id in s.searches && SerialState(policy, s)
    ensures SerialState(policy, Step(policy, s, Advance(id, move)))
  {
    var ph := s.searches[id];
    var (g, next) := Segment(policy, s.gate, ph, move);
    if ph.Finished? {
      FinishedIsFinal(policy, s.gate, move);
      assert s.searches[id := next] == s.searches;
    } else {
      assert forall other :: other in s.searches && other != id ==> s.searches[other].Finished?;
      if s.gate.rollbackActive {
        HarmlessSegment(policy, s.gate, ph, move);
      } else {
        TrippingSegment(policy, s.gate, ph, move);
      }
    }
  }

  lemma StepKeepsSerialState(policy: Policy, s: System, a: Action)
    requires policy.maxConsecutiveErrors >= 1 && SerialState(policy, s)
    requires a.BeginSearch? ==> Quiescent(s)
    ensures SerialState(policy, Step(policy, s, a))
  {
    match a
    case BeginSearch(id) =>
    case Advance(id, move) =>
      if id in s.searches {
        SegmentKeepsSerialState(policy, s, id, move);
      }
    case PollStatus(_) =>
    case ResetRollback =>
  }

  lemma {:induction false} SerialRunState(policy: Policy, actions: seq<Action>)
    requires policy.maxConsecutiveErrors >= 1 && Serial(policy, actions)
    ensures SerialState(policy, Run(policy, START, actions))
  {
    if actions != [] {
      var front, last := actions[..|actions| - 1], actions[|actions| - 1];
      SerialRunState(policy, front);
      StepKeepsSerialState(policy, Run(policy, START, front), last);
    }
  }

  /** When searches do not overlap, the rollback is active exactly while the error streak is at the limit. */
  lemma SerialRollback(policy: Policy, actions: seq<Action>)
    requires policy.maxConsecutiveErrors >= 1 && Serial(policy, actions)
    ensures var g := Run(policy, START, actions).gate;
            g.rollbackActive <==> g.consecutiveErrors >= policy.maxConsecutiveErrors
  {
    SerialRunState(policy, actions);
  }

  lemma RunAppend(policy: Policy, s: System, actions: seq<Action>, a: Action)
    ensures Run(policy, s, actions + [a]) == Step(policy, Run(policy, s, actions), a)
  {
    assert (actions + [a])[..|actions|] == actions;
  }

  // ----- overlapping runs

  /** The trailing failures, and what precedes them. */
  lemma {:induction false} StreakMeaning(settled: seq<bool>)
    ensures var n := |settled| - Streak(settled);
            && 0 <= n && (forall k :: n <= k < |settled| ==> !settled[k]) && (n > 0 ==> settled[n - 1])
  {
    if settled != [] && !settled[|settled| - 1] {
      var front := settled[..|settled| - 1];
      StreakMeaning(front);
      assert forall k :: 0 <= k < |front| ==> front[k] == settled[k];
    }
  }

  lemma StreakOfPrefix(settled: seq<bool>, i: nat, j: int)
    requires -1 <= j < i <= |settled| && forall k :: j < k < i ==> !settled[k]
    requires j >= 0 ==> settled[j]
    ensures Streak(settled[..i]) == i - j - 1
  {
    var n := i - Streak(settled[..i]);
    StreakMeaning(settled[..i]);
    assert forall k :: 0 <= k < i ==> settled[..i][k] == settled[k];
    if n > 0 {
      assert settled[n - 1];
    }
    if j >= 0 {
      assert settled[j];
    }
  }

  /** A success settled after a trip, and fewer than `limit` runs have failed since the last success. */
  ghost predicate StreakHidden(settled: seq<bool>, limit: int) {
    exists i, j :: 0 < i <= j < |settled| && TripsAt(settled, i, limit) && LastSuccess(settled, j) &&
                   |settled| - j - 1 < limit
  }

  ghost predicate LastSuccess(settled: seq<bool>, j: nat)
    requires j < |settled|
  {
    settled[j] && forall k :: j < k < |settled| ==> !settled[k]
  }

  lemma HiddenHasTrip(settled: seq<bool>, limit: int)
    requires limit >= 1 && Tripped(settled, limit) && Streak(settled) < limit
    ensures StreakHidden(settled, limit)
  {
    var i :| 0 < i <= |settled| && TripsAt(settled, i, limit);
    var j := |settled| - Streak(settled) - 1;
    StreakMeaning(settled);
    if j < i {
      StreakOfPrefix(settled, i, j);
    }
    assert LastSuccess(settled, j);
  }

  lemma HiddenIff(settled: seq<bool>, limit: int)
    requires limit >= 1
    ensures StreakHidden(settled, limit) <==> Tripped(settled, limit) && Streak(settled) < limit
    ensures Streak(settled) >= limit ==> Tripped(settled, limit)
  {
    assert settled[..|settled|] == settled;
    if Streak(settled) >= limit {
      assert TripsAt(settled, |settled|, limit);
    } else if Tripped(settled, limit) {
      HiddenHasTrip(settled, limit);
    }
    if StreakHidden(settled, limit) {
      var i, j :| 0 < i <= j < |settled| && TripsAt(settled, i, limit) && LastSuccess(settled, j) &&
                  |settled| - j - 1 < limit;
      StreakOfPrefix(settled, |settled|, j);
    }
  }

  /** In any interleaving, rollback and a streak at the limit differ exactly when a search already under way succeeded
      after the trip and fewer than `maxConsecutiveErrors` runs have failed since the last success. */
  lemma RollbackAndStreakDifferIff(policy: Policy, actions: seq<Action>)
    requires policy.maxConsecutiveErrors >= 1
    ensures var s := Run(policy, START, actions);
            (s.gate.rollbackActive <==> s.gate.consecutiveErrors < policy.maxConsecutiveErrors) <==>
            StreakHidden(s.settled, policy.maxConsecutiveErrors)
  {
    RollbackIffTripped(policy, actions);
    HiddenIff(Run(policy, START, actions).settled, policy.maxConsecutiveErrors);
  }

  /** The first `n` search ids, those from `k` on still awaiting the projection. */
  ghost predicate Awaiting(searches: map<SearchId, Phase>, k: nat, n: nat) {
    && (forall i: SearchId :: i in searches <==> i < n)
    && (forall i :: k <= i < n ==> searches[i] == AwaitProjection(false))
  }

  lemma {:induction false} SearchesUnderWay(policy: Policy, n: nat) returns (actions: seq<Action>)
    requires policy.mode == Enabled
    ensures var s := Run(policy, START, actions);
            s.gate == FRESH_GATE && s.settled == [] && Awaiting(s.searches, 0, n)
  {
    if n == 0 {
      actions := [];
    } else {
      var front := SearchesUnderWay(policy, n - 1);
      var ready, resume := StatusSettles(true, None), ResumeSearch(0.0);
      RunAppend(policy, START, front, BeginSearch(n - 1));
      RunAppend(policy, START, front + [BeginSearch(n - 1)], Advance(n - 1, ready));
      RunAppend(policy, START, front + [BeginSearch(n - 1)] + [Advance(n - 1, ready)], Advance(n - 1, resume));
      actions := front + [BeginSearch(n - 1)] + [Advance(n - 1, ready)] + [Advance(n - 1, resume)];
      var before := Run(policy, START, front).searches;
      assert n - 1 !in before;
      var after := Run(policy, START, actions).searches;
      assert after == before[n - 1 := AwaitProjection(false)];
    }
  }

  lemma {:induction false} SearchesFail(policy: Policy, k: nat, n: nat) returns (actions: seq<Action>)
    requires policy.mode == Enabled && policy.maxConsecutiveErrors >= 1 && k <= n
    ensures var s := Run(policy, START, actions);
            && Awaiting(s.searches, k, n) && s.gate.consecutiveErrors == k
            && (s.gate.rollbackActive <==> k >= policy.maxConsecutiveErrors)
  {
    if k == 0 {
      actions := SearchesUnderWay(policy, n);
    } else {
      var front := SearchesFail(policy, k - 1, n);
      var failed := Advance(k - 1, ProjectionSettles(Some("timeout"), 1.0));
      RunAppend(policy, START, front, failed);
      actions := front + [failed];
    }
  }

  /** For every limit there is such a run: that many searches fail while one more, already under way, succeeds. */
  lemma OverlapHidesStreak(policy: Policy) returns (actions: seq<Action>)
    requires policy.mode == Enabled && policy.maxConsecutiveErrors >= 1
    ensures var g := Run(policy, START, actions).gate;
            g.rollbackActive && g.consecutiveErrors < policy.maxConsecutiveErrors
  {
    var limit := policy.maxConsecutiveErrors;
    var failed := SearchesFail(policy, limit, limit + 1);
    var succeeded := Advance(limit, ProjectionSettles(None, 1.0));
    RunAppend(policy, START, failed, succeeded);
    actions := failed + [succeeded];
  }

  // ----- one search through the mutable gate

  /** Everything a search awaits, as it will turn out. */
  datatype Environment = Environment(
    ready: bool,
    statusFailure: Option<string>,
    sample: real,
    canonicalFound: bool,
    canonicalElapsed: real,
    projectionError: Option<string>,
    projectionElapsed: real,
    sameOrder: bool)

  function NextMove(env: Environment, phase: Phase): Move {
    match phase
    case AwaitStatus(_) => StatusSettles(env.ready, env.statusFailure)
    case Checked(_, _) => ResumeSearch(env.sample)
    case AwaitCanonical(_) => CanonicalSettles(env.canonicalFound, env.canonicalElapsed)
    case CanonicalSettled(_, _) => CanonicalReturns
    case AwaitProjection(_) => ProjectionSettles(env.projectionError, env.projectionElapsed)
    case ProjectionSettled(_, _) => ProjectionReturns(env.sameOrder)
    case Finished => CanonicalReturns
  }

  /** How far a phase is from the end of its search. */
  function Remaining(phase: Phase): nat {
    match phase
    case AwaitStatus(_) => 8
    case Checked(_, _) => 7
    case AwaitProjection(shadow) => if shadow then 2 else 6
    case ProjectionSettled(shadow, _) => if shadow then 1 else 5
    case AwaitCanonical(_) => 4
    case CanonicalSettled(_, _) => 3
    case Finished => 0
  }

  /** The gate when a search at `phase` has ended, with no other in between. */
  ghost function Complete(policy: Policy, g: Gate, env: Environment, phase: Phase): Gate
    decreases Remaining(phase)
  {
    if phase.Finished? then g
    else
      SegmentAdvances(policy, g, env, phase);
      var (after, next) := Segment(policy, g, phase, NextMove(env, phase));
      Complete(policy, after, env, next)
  }

  lemma SegmentAdvances(policy: Policy, g: Gate, env: Environment, phase: Phase)
    requires !phase.Finished?
    ensures Remaining(Segment(policy, g, phase, NextMove(env, phase)).1) < Remaining(phase)
  {}

  function Add(n: nat, counted: bool): nat {
    if counted then n + 1 else n
  }

  predicate Ready(env: Environment) {
    env.ready && env.statusFailure.None?
  }

  /** The projection is called for a search that begins while no rollback is active, finds it ready, and in a canary
      falls below the canary share; in shadow mode only after the canonical store has answered. */
  predicate CallsProjection(policy: Policy, g: Gate, env: Environment) {
    && !g.rollbackActive && policy.mode != Disabled && Ready(env)
    && (policy.mode == Canary ==> env.sample < policy.canaryPercent)
    && (policy.mode == Shadow ==> env.canonicalFound)
  }

  lemma CompleteCanonical(policy: Policy, g: Gate, env: Environment)
    ensures Complete(policy, g, env, AwaitCanonical(false)) ==
            g.(canonicalSearches := g.canonicalSearches + 1,
               canonicalLatency := g.canonicalLatency + [NonNegative(env.canonicalElapsed)])
  {
    var settled := SettleCanonical(g, env.canonicalElapsed);
    assert Complete(policy, settled, env, Finished) == settled;
    assert Complete(policy, settled, env, CanonicalSettled(false, env.canonicalFound)) == settled;
  }

  lemma CompleteProjection(policy: Policy, g: Gate, env: Environment)
    ensures var run := SettleProjection(policy, g, env.projectionError, env.projectionElapsed);
            Complete(policy, g, env, AwaitProjection(false)) ==
            if env.projectionError.None? then run.(projectionServed := g.projectionServed + 1)
            else run.(canonicalFallbacks := g.canonicalFallbacks + 1, lastFallbackReason := Some(ProjectionError),
                      canonicalSearches := g.canonicalSearches + 1,
                      canonicalLatency := g.canonicalLatency + [NonNegative(env.canonicalElapsed)])
  {
    var found := env.projectionError.None?;
    var run := SettleProjection(policy, g, env.projectionError, env.projectionElapsed);
    var (after, next) := AfterProjection(run, false, found, env.sameOrder);
    assert Complete(policy, run, env, ProjectionSettled(false, found)) == Complete(policy, after, env, next);
    CompleteCanonical(policy, after, env);
  }

  lemma CompleteShadow(policy: Policy, g: Gate, env: Environment)
    ensures var run := SettleProjection(policy, g, env.projectionError, env.projectionElapsed);
            Complete(policy, g, env, AwaitProjection(true)) ==
            if env.projectionError.Some? then run
            else run.(shadowComparisons := g.shadowComparisons + 1,
                      shadowMismatches := Add(g.shadowMismatches, !env.sameOrder))
  {
    var found := env.projectionError.None?;
    var run := SettleProjection(policy, g, env.projectionError, env.projectionElapsed);
    var (after, next) := AfterProjection(run, true, found, env.sameOrder);
    assert Complete(policy, run, env, ProjectionSettled(true, found)) == Complete(policy, after, env, next);
  }

  lemma CompleteCompared(policy: Policy, g: Gate, env: Environment)
    ensures var answered := SettleCanonical(g, env.canonicalElapsed);
            Complete(policy, g, env, AwaitCanonical(true)) ==
            if env.canonicalFound then Complete(policy, answered, env, AwaitProjection(true)) else answered
  {
    var answered := SettleCanonical(g, env.canonicalElapsed);
    var next := AfterCanonical(true, env.canonicalFound);
    assert Complete(policy, answered, env, CanonicalSettled(true, env.canonicalFound)) ==
           Complete(policy, answered, env, next);
  }

  /** The gate after a whole search. */
  ghost function Searched(policy: Policy, g: Gate, env: Environment): Gate {
    Complete(policy, Begin(policy, g).0, env, Begin(policy, g).1)
  }

  lemma SearchedChecked(policy: Policy, g: Gate, env: Environment)
    requires !g.rollbackActive && policy.mode != Disabled
    ensures var noted := Noted(g, env.statusFailure);
            var (after, next) := Resume(policy, noted, policy.mode, Ready(env), env.sample);
            Searched(policy, g, env) == Complete(policy, after, env, next)
  {
    var noted := Noted(g, env.statusFailure);
    assert Searched(policy, g, env) == Complete(policy, noted, env, Checked(policy.mode, Ready(env)));
  }

  lemma SearchedCases(policy: Policy, g: Gate, env: Environment)
    ensures var noted := Noted(g, env.statusFailure);
            var called := CallsProjection(policy, g, env);
            Searched(policy, g, env) ==
            if g.rollbackActive then Complete(policy, FallBack(g, RolledBack), env, AwaitCanonical(false))
            else if policy.mode == Disabled then Complete(policy, g, env, AwaitCanonical(false))
            else if policy.mode == Shadow then Complete(policy, noted, env, AwaitCanonical(Ready(env)))
            else if !Ready(env) then Complete(policy, FallBack(noted, Unavailable), env, AwaitCanonical(false))
            else if called then Complete(policy, noted, env, AwaitProjection(false))
            else Complete(policy, noted, env, AwaitCanonical(false))
  {
    if !g.rollbackActive && policy.mode != Disabled {
      SearchedChecked(policy, g, env);
    }
  }

  /** What a whole search does to the gate, from what it awaited alone: which store answers, what is counted, timed and
      displayed, and when the breaker trips. */
  lemma SearchDoes(policy: Policy, g: Gate, env: Environment)
    ensures var after := Searched(policy, g, env);
            var called := CallsProjection(policy, g, env);
            var failed, shadow := called && env.projectionError.Some?, policy.mode == Shadow;
            var checked := !g.rollbackActive && policy.mode != Disabled;
            var unavailable := checked && !shadow && !Ready(env);
            && after.projectionSearches == Add(g.projectionSearches, called && !failed)
            && after.projectionErrors == Add(g.projectionErrors, failed)
            && after.projectionServed == Add(g.projectionServed, called && !failed && !shadow)
            && after.shadowComparisons == Add(g.shadowComparisons, called && !failed && shadow)
            && after.shadowMismatches == Add(g.shadowMismatches, called && !failed && shadow && !env.sameOrder)
            && after.canonicalSearches == Add(g.canonicalSearches, shadow || !called || failed)
            && after.canonicalFallbacks ==
               Add(g.canonicalFallbacks, g.rollbackActive || unavailable || (failed && !shadow))
            && after.lastFallbackReason ==
               (if g.rollbackActive then Some(RolledBack) else if unavailable then Some(Unavailable)
                else if failed && !shadow then Some(ProjectionError) else g.lastFallbackReason)
            && after.lastError ==
               (if called then env.projectionError
                else if checked && env.statusFailure.Some? then env.statusFailure else g.lastError)
            && after.consecutiveErrors ==
               (if failed then g.consecutiveErrors + 1 else if called then 0 else g.consecutiveErrors)
            && after.rollbackActive ==
               (g.rollbackActive || (failed && g.consecutiveErrors + 1 >= policy.maxConsecutiveErrors))
            && after.projectionLatency == g.projectionLatency +
               (if called then [if env.projectionElapsed > 0.0 then env.projectionElapsed else 0.0] else [])
            && after.canonicalLatency == g.canonicalLatency +
               (if shadow || !called || failed then [if env.canonicalElapsed > 0.0 then env.canonicalElapsed else 0.0]
                else [])
  {
    var noted := Noted(g, env.statusFailure);
    SearchedCases(policy, g, env);
    CompleteCanonical(policy, g, env);
    CompleteCanonical(policy, noted, env);
    CompleteCanonical(policy, FallBack(g, RolledBack), env);
    CompleteCanonical(policy, FallBack(noted, Unavailable), env);
    CompleteProjection(policy, noted, env);
    CompleteCompared(policy, noted, env);
    CompleteShadow(policy, SettleCanonical(noted, env.canonicalElapsed), env);
  }

  method AdvanceSearch(gate: ProjectionServingGate, env: Environment, phase: Phase) returns (next: Phase)
    requires gate.Valid() && !phase.Finished?
    modifies gate.repr
    ensures gate.Valid()
    ensures (gate.State(), next) == Segment(gate.policy, old(gate.State()), phase, NextMove(env, phase))
    ensures Remaining(next) < Remaining(phase)
  {
    match phase
    case AwaitStatus(mode) =>
      if env.statusFailure.Some? {
        gate.RecordStatusFailure(env.statusFailure.value);
      }
      next := Checked(mode, env.ready && env.statusFailure.None?);
    case Checked(mode, ready) =>
      next := gate.ResumeSearch(mode, ready, env.sample);
    case AwaitCanonical(compare) =>
      gate.FinishCanonical(env.canonicalElapsed);
      next := CanonicalSettled(compare, env.canonicalFound);
    case CanonicalSettled(compare, found) =>
      next := AfterCanonical(compare, found);
    case AwaitProjection(shadow) =>
      gate.FinishProjection(env.projectionError, env.projectionElapsed);
      next := ProjectionSettled(shadow, env.projectionError.None?);
    case ProjectionSettled(shadow, found) =>
      next := gate.ContinueAfterProjection(shadow, found, env.sameOrder);
  }

  /** A whole search over the gate, with no other search in between, is a run of the system that ends finished. */
  method Search(gate: ProjectionServingGate, env: Environment) returns (ghost actions: seq<Action>)
    requires gate.Valid()
    modifies gate.repr
    ensures gate.Valid()
    ensures var s := Run(gate.policy, System(old(gate.State()), map[], []), actions);
            s.gate == gate.State() && s.searches == map[0 := Finished]
    ensures gate.State() == Searched(gate.policy, old(gate.State()), env)
  {
    ghost var start := System(gate.State(), map[], []);
    var phase := gate.BeginSearch();
    actions := [BeginSearch(0)];
    assert actions[..0] == [];
    while !phase.Finished?
      invariant gate.Valid()
      invariant Run(gate.policy, start, actions).gate == gate.State()
      invariant Run(gate.policy, start, actions).searches == map[0 := phase]
      invariant Complete(gate.policy, gate.State(), env, phase) == Searched(gate.policy, start.gate, env)
      decreases Remaining(phase)
    {
      RunAppend(gate.policy, start, actions, Advance(0, NextMove(env, phase)));
      actions := actions + [Advance(0, NextMove(env, phase))];
      phase := AdvanceSearch(gate, env, phase);
    }
  }
}
