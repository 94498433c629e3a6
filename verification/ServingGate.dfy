/** The rollout gate in front of the retrieval projection: mode selection, counters, latency histograms and the
    circuit breaker.

    A search runs as a sequence of segments separated by the points at which it awaits. The segment functions
    below act on the closure variables of the gate; class `ProjectionServingGate` holds those variables. */
module ServingGate {
  import opened Kernel

  datatype Mode = Disabled | Shadow | Canary | Enabled

  datatype Policy = Policy(mode: Mode, canaryPercent: real, maxConsecutiveErrors: int)

  datatype FallbackReason = Unavailable | ProjectionError | RolledBack

  /** The closure variables. Each histogram is represented by the durations it has observed. */
  datatype Gate = Gate(
    projectionSearches: nat,
    projectionServed: nat,
    canonicalSearches: nat,
    canonicalFallbacks: nat,
    projectionErrors: nat,
    shadowComparisons: nat,
    shadowMismatches: nat,
    consecutiveErrors: nat,
    rollbackActive: bool,
    lastError: Option<string>,
    lastFallbackReason: Option<FallbackReason>,
    projectionLatency: seq<real>,
    canonicalLatency: seq<real>)

  const FRESH_GATE := Gate(0, 0, 0, 0, 0, 0, 0, 0, false, None, None, [], [])

  /** Where a search waits. `compare` marks a shadow search that still has to run the projection;
      `shadow` marks a projection run whose result is only compared. */
  datatype Phase =
    | AwaitStatus(mode: Mode)
    | Checked(mode: Mode, ready: bool)
    | AwaitCanonical(compare: bool)
    | CanonicalSettled(compare: bool, found: bool)
    | AwaitProjection(shadow: bool)
    | ProjectionSettled(shadow: bool, found: bool)
    | Finished

  // ----- the segments

  function EffectiveMode(policy: Policy, g: Gate): Mode {
    if g.rollbackActive then Disabled else policy.mode
  }

  function Begin(policy: Policy, g: Gate): (Gate, Phase) {
    if EffectiveMode(policy, g) == Disabled then
      (if g.rollbackActive then FallBack(g, RolledBack) else g, AwaitCanonical(false))
    else (g, AwaitStatus(policy.mode))
  }

  function FallBack(g: Gate, reason: FallbackReason): Gate {
    g.(canonicalFallbacks := g.canonicalFallbacks + 1, lastFallbackReason := Some(reason))
  }

  function StatusFailed(g: Gate, message: string): Gate {
    g.(lastError := Some(message))
  }

  /** The segment after the status check. */
  function Resume(policy: Policy, g: Gate, mode: Mode, ready: bool, sample: real): (Gate, Phase) {
    if mode == Shadow then (g, AwaitCanonical(ready))
    else if !ready then (FallBack(g, Unavailable), AwaitCanonical(false))
    else if mode == Canary && sample >= policy.canaryPercent then (g, AwaitCanonical(false))
    else (g, AwaitProjection(false))
  }

  function NonNegative(ms: real): real {
    if ms < 0.0 then 0.0 else ms
  }

  /** `finally` of a canonical search: it counts whether the search returned or threw. */
  function SettleCanonical(g: Gate, elapsed: real): Gate {
    g.(canonicalSearches := g.canonicalSearches + 1, canonicalLatency := g.canonicalLatency + [NonNegative(elapsed)])
  }

  function CountProjection(policy: Policy, g: Gate, error: Option<string>): Gate {
    if error.None? then
      g.(projectionSearches := g.projectionSearches + 1, consecutiveErrors := 0, lastError := None)
    else
      g.(projectionErrors := g.projectionErrors + 1, consecutiveErrors := g.consecutiveErrors + 1, lastError := error,
         rollbackActive := g.rollbackActive || g.consecutiveErrors + 1 >= policy.maxConsecutiveErrors)
  }

  function SettleProjection(policy: Policy, g: Gate, error: Option<string>, elapsed: real): Gate {
    var counted := CountProjection(policy, g, error);
    counted.(projectionLatency := counted.projectionLatency + [NonNegative(elapsed)])
  }

  function AfterCanonical(compare: bool, found: bool): Phase {
    if compare && found then AwaitProjection(true) else Finished
  }

  function AfterProjection(g: Gate, shadow: bool, found: bool, sameOrder: bool): (Gate, Phase) {
    if shadow then
      (if found then g.(shadowComparisons := g.shadowComparisons + 1,
                        shadowMismatches := g.shadowMismatches + if sameOrder then 0 else 1)
       else g, Finished)
    else if found then (g.(projectionServed := g.projectionServed + 1), Finished)
    else (FallBack(g, ProjectionError), AwaitCanonical(false))
  }

  function Reset(g: Gate): Gate {
    g.(rollbackActive := false, consecutiveErrors := 0, lastError := None, lastFallbackReason := None)
  }

  // ----- latency histograms

  const BOUNDS_MS: seq<real> := [1.0, 5.0, 10.0, 25.0, 50.0, 100.0, 250.0, 500.0, 1000.0, 2500.0]

  function CountAtMost(observed: seq<real>, bound: real): nat {
    if observed == [] then 0
    else CountAtMost(observed[..|observed| - 1], bound) + if observed[|observed| - 1] <= bound then 1 else 0
  }

  function Sum(observed: seq<real>): real {
    if observed == [] then 0.0 else Sum(observed[..|observed| - 1]) + observed[|observed| - 1]
  }

  lemma ObserveNext(observed: seq<real>, ms: real)
    ensures Sum(observed + [ms]) == Sum(observed) + ms
    ensures forall bound ::
              CountAtMost(observed + [ms], bound) == CountAtMost(observed, bound) + if ms <= bound then 1 else 0
  {
    assert (observed + [ms])[..|observed|] == observed;
  }

  /** The positions of the durations that a bucket counts. */
  function PositionsWithin(observed: seq<real>, bound: real): set<nat> {
    set i | 0 <= i < |observed| && observed[i] <= bound
  }

  lemma {:induction false} CountsPositions(observed: seq<real>, bound: real)
    ensures CountAtMost(observed, bound) == |PositionsWithin(observed, bound)|
  {
    if observed == [] {
      assert PositionsWithin(observed, bound) == {};
    } else {
      var n := |observed| - 1;
      var before := PositionsWithin(observed[..n], bound);
      CountsPositions(observed[..n], bound);
      assert PositionsWithin(observed, bound) == if observed[n] <= bound then before + {n} else before;
    }
  }

  /** The sum is additive, and that of one duration is the duration. */
  lemma {:induction false} SumAdds(a: seq<real>, b: seq<real>)
    ensures Sum(a + b) == Sum(a) + Sum(b)
    ensures forall ms :: Sum([ms]) == ms
  {
    forall ms ensures Sum([ms]) == ms {
      assert [ms][..0] == [];
    }
    if b == [] {
      assert a + b == a;
    } else {
      var n := |b| - 1;
      SumAdds(a, b[..n]);
      assert (a + b)[..|a + b| - 1] == a + b[..n];
    }
  }

  /** Buckets are cumulative: a wider bucket never holds less, and none holds more than the count. */
  lemma {:induction false} BucketsCumulative(observed: seq<real>, i: nat, j: nat)
    requires i <= j < |BOUNDS_MS|
    ensures CountAtMost(observed, BOUNDS_MS[i]) <= CountAtMost(observed, BOUNDS_MS[j]) <= |observed|
  {
    if observed != [] {
      BucketsCumulative(observed[..|observed| - 1], i, j);
      assert BOUNDS_MS[i] <= BOUNDS_MS[j];
    }
  }

  class LatencyHistogram {
    var count: nat
    var sumMs: real
    const buckets: array<nat>
    ghost var observed: seq<real>

    ghost predicate Valid()
      reads this, buckets
    {
      && count == |observed| && sumMs == Sum(observed)
      && buckets.Length == |BOUNDS_MS|
      && (forall k :: 0 <= k < buckets.Length ==> buckets[k] == CountAtMost(observed, BOUNDS_MS[k]))
    }

    constructor ()
      ensures Valid() && observed == [] && fresh(buckets)
    {
      count, sumMs, observed := 0, 0.0, [];
      buckets := new nat[|BOUNDS_MS|](_ => 0);
    }

    method ObserveLatency(durationMs: real)
      requires Valid()
      modifies this, buckets
      ensures Valid() && observed == old(observed) + [durationMs]
    {
      count := count + 1;
      sumMs := sumMs + durationMs;
      ObserveNext(observed, durationMs);
      for index := 0 to buckets.Length
        invariant count == |observed| + 1 && sumMs == Sum(observed) + durationMs && observed == old(observed)
        invariant forall k :: 0 <= k < index ==> buckets[k] == CountAtMost(observed + [durationMs], BOUNDS_MS[k])
        invariant forall k :: index <= k < buckets.Length ==> buckets[k] == CountAtMost(observed, BOUNDS_MS[k])
      {
        var bound := BOUNDS_MS[index];
        if durationMs <= bound {
          buckets[index] := buckets[index] + 1;
        }
      }
      observed := observed + [durationMs];
    }
  }

  // ----- the gate

  class ProjectionServingGate {
    const policy: Policy
    var projectionSearches: nat
    var projectionServedSearches: nat
    var canonicalSearches: nat
    var canonicalFallbacks: nat
    var projectionErrors: nat
    var shadowComparisons: nat
    var shadowMismatches: nat
    var consecutiveProjectionErrors: nat
    var rollbackActive: bool
    var lastError: Option<string>
    var lastFallbackReason: Option<FallbackReason>
    const projectionLatency: LatencyHistogram
    const canonicalLatency: LatencyHistogram

    ghost const repr: set<object> :=
      {this, projectionLatency, canonicalLatency, projectionLatency.buckets, canonicalLatency.buckets}

    ghost predicate Valid()
      reads this, repr
    {
      && projectionLatency != canonicalLatency && projectionLatency.buckets != canonicalLatency.buckets
      && projectionLatency.Valid() && canonicalLatency.Valid()
    }

    ghost function State(): Gate
      reads this, repr
    {
      Gate(projectionSearches, projectionServedSearches, canonicalSearches, canonicalFallbacks, projectionErrors,
           shadowComparisons, shadowMismatches, consecutiveProjectionErrors, rollbackActive, lastError,
           lastFallbackReason, projectionLatency.observed, canonicalLatency.observed)
    }

    constructor (policy: Policy)
      ensures Valid() && fresh(repr) && this.policy == policy && State() == FRESH_GATE
    {
      this.policy := policy;
      projectionSearches, projectionServedSearches, canonicalSearches, canonicalFallbacks := 0, 0, 0, 0;
      projectionErrors, shadowComparisons, shadowMismatches, consecutiveProjectionErrors := 0, 0, 0, 0;
      rollbackActive, lastError, lastFallbackReason := false, None, None;
      projectionLatency := new LatencyHistogram();
      canonicalLatency := new LatencyHistogram();
    }

    /** The first segment of `search`, up to its first await. */
    method BeginSearch() returns (phase: Phase)
      requires Valid()
      modifies this
      ensures Valid() && (State(), phase) == Begin(policy, old(State()))
    {
      var mode := if rollbackActive then Disabled else policy.mode;
      if mode == Disabled {
        if rollbackActive {
          canonicalFallbacks := canonicalFallbacks + 1;
          lastFallbackReason := Some(RolledBack);
        }
        return AwaitCanonical(false);
      }
      phase := AwaitStatus(mode);
    }

    /** The `catch` of `status`. */
    method RecordStatusFailure(message: string)
      requires Valid()
      modifies this
      ensures Valid() && State() == StatusFailed(old(State()), message)
    {
      lastError := Some(message);
    }

    method ResumeSearch(mode: Mode, ready: bool, sample: real) returns (phase: Phase)
      requires Valid()
      modifies this
      ensures Valid() && (State(), phase) == Resume(policy, old(State()), mode, ready, sample)
    {
      if mode == Shadow {
        return AwaitCanonical(ready);
      }
      if !ready {
        canonicalFallbacks := canonicalFallbacks + 1;
        lastFallbackReason := Some(Unavailable);
        return AwaitCanonical(false);
      }
      if mode == Canary && sample >= policy.canaryPercent {
        return AwaitCanonical(false);
      }
      phase := AwaitProjection(false);
    }

    /** The `finally` of `runCanonical`. */
    method FinishCanonical(elapsed: real)
      requires Valid()
      modifies repr
      ensures Valid() && State() == SettleCanonical(old(State()), elapsed)
    {
      canonicalSearches := canonicalSearches + 1;
      canonicalLatency.ObserveLatency(NonNegative(elapsed));
    }

    /** The success path of `runProjection`, or its `catch`. */
    method CountProjectionRun(error: Option<string>)
      requires Valid()
      modifies this
      ensures Valid() && State() == CountProjection(policy, old(State()), error)
    {
      if error.None? {
        projectionSearches := projectionSearches + 1;
        consecutiveProjectionErrors := 0;
        lastError := None;
      } else {
        projectionErrors := projectionErrors + 1;
        consecutiveProjectionErrors := consecutiveProjectionErrors + 1;
        lastError := error;
        if consecutiveProjectionErrors >= policy.maxConsecutiveErrors {
          rollbackActive := true;
        }
      }
    }

    /** The end of `runProjection`, with its `finally`. */
    method FinishProjection(error: Option<string>, elapsed: real)
      requires Valid()
      modifies repr
      ensures Valid() && State() == SettleProjection(policy, old(State()), error, elapsed)
    {
      CountProjectionRun(error);
      projectionLatency.ObserveLatency(NonNegative(elapsed));
    }

    /** The segment of `search` after `runProjection` returned or threw. */
    method ContinueAfterProjection(shadow: bool, found: bool, sameOrder: bool) returns (phase: Phase)
      requires Valid()
      modifies this
      ensures Valid() && (State(), phase) == AfterProjection(old(State()), shadow, found, sameOrder)
    {
      if shadow {
        if found {
          shadowComparisons := shadowComparisons + 1;
          if !sameOrder {
            shadowMismatches := shadowMismatches + 1;
          }
        }
        return Finished;
      }
      if found {
        projectionServedSearches := projectionServedSearches + 1;
        return Finished;
      }
      canonicalFallbacks := canonicalFallbacks + 1;
      lastFallbackReason := Some(ProjectionError);
      phase := AwaitCanonical(false);
    }

    method ResetRollback()
      requires Valid()
      modifies this
      ensures Valid() && State() == Reset(old(State()))
    {
      rollbackActive := false;
      consecutiveProjectionErrors := 0;
      lastError := None;
      lastFallbackReason := None;
    }
  }
}
