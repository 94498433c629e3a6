/** Decision audit bundles reload the claims of a decision's context as they were known when it was taken. */
module DecisionAudit {
  import opened Kernel
  import opened ClaimHistory
  import ClaimStore
  import Sorting

  datatype ContextSnapshot = ContextSnapshot(temporal: Temporal, capturedAt: Timestamp, claimIds: seq<ClaimId>)

  datatype Decision = Decision(scope: Scope, snapshot: ContextSnapshot)

  /** The instant the audit is pinned to: the snapshot's own `knownAt`, or else its capture time. */
  function Pin(snapshot: ContextSnapshot): Timestamp {
    if snapshot.temporal.knownAt.Some? then snapshot.temporal.knownAt.value else snapshot.capturedAt
  }

  function PinnedFilter(decision: Decision): ReadFilter {
    ReadFilter(decision.scope.tenant, Some(decision.scope.namespace),
               Temporal(decision.snapshot.temporal.validAt, Some(Pin(decision.snapshot))))
  }

  /** The canonical listing in the snapshot's own perspective. */
  function CurrentFilter(decision: Decision): ReadFilter {
    ReadFilter(decision.scope.tenant, Some(decision.scope.namespace), decision.snapshot.temporal)
  }

  function InContext(claimIds: seq<ClaimId>): Claim -> bool {
    (c: Claim) => c.id in claimIds
  }

  /** A bundle holds what the reader returns for each claim of the context, each once. */
  ghost predicate Audits(claims: seq<Claim>, claimIds: seq<ClaimId>, read: ClaimId -> Option<Claim>) {
    && (forall c :: c in claims <==> c.id in claimIds && read(c.id) == Some(c))
    && EachClaimOnce(claims)
  }

  lemma {:induction false} OnceFiltered(listed: seq<Claim>, keep: Claim -> bool)
    requires EachClaimOnce(listed)
    ensures EachClaimOnce(Sorting.Filter(listed, keep))
  {
    if listed != [] {
      var front, last := listed[..|listed| - 1], listed[|listed| - 1];
      OnceFiltered(front, keep);
      var before := Sorting.Filter(front, keep);
      forall c | c in before ensures c.id != last.id {
        var i :| 0 <= i < |front| && front[i] == c;
        assert listed[i].id != listed[|listed| - 1].id;
      }
      assert Sorting.Filter(listed, keep) == before + if keep(last) then [last] else [];
    }
  }

  lemma FilteredAudits(listed: seq<Claim>, claimIds: seq<ClaimId>, read: ClaimId -> Option<Claim>)
    requires Lists(listed, read) && forall id :: read(id).Some? ==> read(id).value.id == id
    ensures Audits(Sorting.Filter(listed, InContext(claimIds)), claimIds, read)
  {
    OnceFiltered(listed, InContext(claimIds));
  }

  method BuildFromMemory(store: ClaimStore.MemoryStore, decision: Decision) returns (claims: seq<Claim>)
    requires store.Valid()
    ensures Audits(claims, decision.snapshot.claimIds, MemoryReader(store.writes, PinnedFilter(decision)))
    ensures decision.snapshot.temporal.knownAt.Some? ==>
              Audits(claims, decision.snapshot.claimIds, MemoryReader(store.writes,
                ReadFilter(decision.scope.tenant, Some(decision.scope.namespace),
                           Temporal(decision.snapshot.temporal.validAt, decision.snapshot.temporal.knownAt))))
    ensures decision.snapshot.temporal.knownAt.None? ==>
              Audits(claims, decision.snapshot.claimIds, MemoryReader(store.writes,
                ReadFilter(decision.scope.tenant, Some(decision.scope.namespace),
                           Temporal(decision.snapshot.temporal.validAt, Some(decision.snapshot.capturedAt)))))
  {
    var f := PinnedFilter(decision);
    var visible := store.ListClaims(f);
    claims := Sorting.Filter(visible, InContext(decision.snapshot.claimIds));
    forall id { ClaimStore.ReadsOwnVersions(store.writes, f, id); }
    FilteredAudits(visible, decision.snapshot.claimIds, MemoryReader(store.writes, f));
  }

  method BuildFromRecords(store: ClaimStore.RecordStore, decision: Decision) returns (claims: seq<Claim>)
    requires store.Valid()
    ensures Audits(claims, decision.snapshot.claimIds, RecordReader(store.writes, PinnedFilter(decision)))
    ensures decision.snapshot.temporal.knownAt.Some? ==>
              Audits(claims, decision.snapshot.claimIds, RecordReader(store.writes,
                ReadFilter(decision.scope.tenant, Some(decision.scope.namespace),
                           Temporal(decision.snapshot.temporal.validAt, decision.snapshot.temporal.knownAt))))
    ensures decision.snapshot.temporal.knownAt.None? ==>
              Audits(claims, decision.snapshot.claimIds, RecordReader(store.writes,
                ReadFilter(decision.scope.tenant, Some(decision.scope.namespace),
                           Temporal(decision.snapshot.temporal.validAt, Some(decision.snapshot.capturedAt)))))
  {
    var f := PinnedFilter(decision);
    var visible := store.ListClaims(f);
    claims := Sorting.Filter(visible, InContext(decision.snapshot.claimIds));
    forall id { ClaimStore.ReadsOwnVersions(store.writes, f, id); }
    FilteredAudits(visible, decision.snapshot.claimIds, RecordReader(store.writes, f));
  }

  // ----- bundles built at different times

  ghost predicate RecordedAfter(later: Writes, at: Timestamp) {
    forall c :: c in later ==> c.recordedAt > at
  }

  lemma {:induction false} OnceLength(a: seq<Claim>, b: seq<Claim>)
    requires EachClaimOnce(a) && EachClaimOnce(b) && forall c :: c in a ==> c in b
    ensures |a| <= |b|
  {
    if a != [] {
      var last := a[|a| - 1];
      assert last in a;
      var k :| 0 <= k < |b| && b[k] == last;
      var rest := b[..k] + b[k + 1..];
      forall c | c in a[..|a| - 1] ensures c in rest {
        var i :| 0 <= i < |a| - 1 && a[i] == c;
        assert a[i] in a;
        var j :| 0 <= j < |b| && b[j] == c;
        assert a[i].id != a[|a| - 1].id;
        assert rest[if j < k then j else j - 1] == c;
      }
      OnceLength(a[..|a| - 1], rest);
    }
  }

  lemma SameReadSameBundle(first: seq<Claim>, second: seq<Claim>, claimIds: seq<ClaimId>,
                           read: ClaimId -> Option<Claim>, again: ClaimId -> Option<Claim>)
    requires Audits(first, claimIds, read) && Audits(second, claimIds, again)
    requires forall id :: read(id) == again(id)
    ensures |first| == |second| && forall c :: c in first <==> c in second
  {
    OnceLength(first, second);
    OnceLength(second, first);
  }

  /** Over the record layouts, a bundle holds the same claim versions whenever it is built: no later sequence
      of writes recorded after the pin, retractions and scope changes included, can change it. The pin is the snapshot's
      own `knownAt`, whenever the context was captured, and the capture time where it has none. */
  lemma BundleIsStable(decision: Decision, at: Timestamp, writes: Writes, later: Writes, first: seq<Claim>,
                       second: seq<Claim>)
    requires decision.snapshot.temporal.knownAt == Some(at) ||
             (decision.snapshot.temporal.knownAt.None? && decision.snapshot.capturedAt == at)
    requires forall c :: c in later ==> c.recordedAt > at
    requires Audits(first, decision.snapshot.claimIds, RecordReader(writes, PinnedFilter(decision)))
    requires Audits(second, decision.snapshot.claimIds, RecordReader(writes + later, PinnedFilter(decision)))
    ensures |first| == |second| && forall c :: c in first <==> c in second
  {
    var f := PinnedFilter(decision);
    forall id ensures RecordRead(writes + later, f, id) == RecordRead(writes, f, id) {
      LaterWritesInvisible(writes, later, f, id, at);
    }
    SameReadSameBundle(first, second, decision.snapshot.claimIds, RecordReader(writes, f),
                       RecordReader(writes + later, f));
  }

  /** Over the in-memory layout the same holds as long as claims stay in their scope. */
  lemma BundleIsStableInMemory(decision: Decision, at: Timestamp, writes: Writes, later: Writes, first: seq<Claim>,
                               second: seq<Claim>)
    requires decision.snapshot.temporal.knownAt == Some(at) ||
             (decision.snapshot.temporal.knownAt.None? && decision.snapshot.capturedAt == at)
    requires (forall c :: c in later ==> c.recordedAt > at) && ScopeFixed(writes + later)
    requires Audits(first, decision.snapshot.claimIds, MemoryReader(writes, PinnedFilter(decision)))
    requires Audits(second, decision.snapshot.claimIds, MemoryReader(writes + later, PinnedFilter(decision)))
    ensures |first| == |second| && forall c :: c in first <==> c in second
  {
    var f := PinnedFilter(decision);
    forall id ensures MemoryRead(writes + later, f, id) == MemoryRead(writes, f, id) {
      LaterWritesInvisibleInMemory(writes, later, f, id, at);
    }
    SameReadSameBundle(first, second, decision.snapshot.claimIds, MemoryReader(writes, f),
                       MemoryReader(writes + later, f));
  }

  /** What such an audit holds of a claim, over the record layouts and in the claim's own fields: the last of the latest
      versions of the decision's scope recorded by the pin, if it is not retracted and valid at the snapshot's
      `validAt`. */
  lemma AuditHoldsLatest(decision: Decision, at: Timestamp, writes: Writes, bundle: seq<Claim>, c: Claim)
    requires decision.snapshot.temporal.knownAt == Some(at) ||
             (decision.snapshot.temporal.knownAt.None? && decision.snapshot.capturedAt == at)
    requires Audits(bundle, decision.snapshot.claimIds, RecordReader(writes, PinnedFilter(decision)))
    ensures c in bundle <==>
            && c.id in decision.snapshot.claimIds
            && LatestWritten(writes, OfScope(decision.scope.tenant, Some(decision.scope.namespace)), at, c)
            && !c.status.Retracted?
            && (decision.snapshot.temporal.validAt.Some? ==>
                  && c.validFrom <= decision.snapshot.temporal.validAt.value
                  && (c.validTo.Some? ==> decision.snapshot.temporal.validAt.value < c.validTo.value))
  {
    RecordReadIff(writes, PinnedFilter(decision), at, c);
  }

  // ----- when a later write shows

  /** The write is of a claim of the context, in its scope, recorded by the pin and not before the version the audit
      considers, and the audit does not read the same without it. */
  ghost predicate Shows(decision: Decision, writes: Writes, w: Claim) {
    var f := PinnedFilter(decision);
    && w.id in decision.snapshot.claimIds
    && InScope(w, f) && w.recordedAt <= Pin(decision.snapshot) && NotLater(KnownScoped(writes, f, w.id), w)
    && if ClaimVisibleAt(w, f.temporal) then RecordRead(writes, f, w.id) != Some(w)
       else RecordRead(writes, f, w.id).Some?
  }

  lemma ReadChangesIff(decision: Decision, writes: Writes, w: Claim, id: ClaimId)
    requires id in decision.snapshot.claimIds
    ensures RecordRead(writes + [w], PinnedFilter(decision), id) != RecordRead(writes, PinnedFilter(decision), id) <==>
            id == w.id && Shows(decision, writes, w)
  {
    OneMoreWrite(writes, w, PinnedFilter(decision), id);
  }

  /** One later write changes the bundle exactly when it shows. */
  lemma BundleChangesIff(decision: Decision, writes: Writes, w: Claim, first: seq<Claim>, second: seq<Claim>)
    requires Audits(first, decision.snapshot.claimIds, RecordReader(writes, PinnedFilter(decision)))
    requires Audits(second, decision.snapshot.claimIds, RecordReader(writes + [w], PinnedFilter(decision)))
    ensures (forall c :: c in first <==> c in second) <==> !Shows(decision, writes, w)
  {
    var f, ids := PinnedFilter(decision), decision.snapshot.claimIds;
    if Shows(decision, writes, w) {
      ReadChangesIff(decision, writes, w, w.id);
      var before, after := RecordRead(writes, f, w.id), RecordRead(writes + [w], f, w.id);
      ClaimStore.ReadsOwnVersions(writes, f, w.id);
      ClaimStore.ReadsOwnVersions(writes + [w], f, w.id);
      assert before.Some? ==> before.value in first && before.value !in second;
      assert after.Some? ==> after.value in second && after.value !in first;
    } else {
      forall c ensures c in first <==> c in second {
        if c.id in ids {
          ReadChangesIff(decision, writes, w, c.id);
        }
      }
    }
  }

  /** So the pin is inclusive: whatever was written before, a retraction recorded in the very instant of the pin
      drops its claim from bundles built after it. */
  lemma SameInstantRetractionShows(decision: Decision, writes: Writes, claim: Claim, retraction: Claim)
    requires claim.id in decision.snapshot.claimIds
    requires RecordRead(writes, PinnedFilter(decision), claim.id) == Some(claim)
    requires retraction.id == claim.id && retraction.scope == claim.scope && retraction.status == Retracted
    requires retraction.recordedAt == Pin(decision.snapshot)
    ensures Shows(decision, writes, retraction)
    ensures RecordRead(writes + [retraction], PinnedFilter(decision), claim.id) == None
  {
    var f := PinnedFilter(decision);
    RecordsStayInScope(writes, f, claim.id);
    LatestKnownIsLatest(Sorting.Filter(Versions(writes, claim.id), ScopedTo(f)), Pin(decision.snapshot));
    OneMoreWrite(writes, retraction, f, claim.id);
  }

  // ----- the claims the context was captured from

  /** The claims an indexed capture works with: the current version of each candidate, whatever its status. */
  function Hydrated(writes: Writes, candidates: seq<ClaimId>): seq<Claim> {
    if candidates == [] then []
    else
      var n := |candidates| - 1;
      Hydrated(writes, candidates[..n]) + ClaimStore.AsVersions(Last(Versions(writes, candidates[n])))
  }

  method HydrateFromMemory(store: ClaimStore.MemoryStore, candidates: seq<ClaimId>) returns (claims: seq<Claim>)
    requires store.Valid()
    ensures claims == Hydrated(store.writes, candidates)
  {
    claims := [];
    for i := 0 to |candidates|
      invariant claims == Hydrated(store.writes, candidates[..i])
    {
      assert candidates[..i + 1][..i] == candidates[..i];
      var claim := store.GetClaim(candidates[i]);
      if claim.Some? {
        claims := claims + [claim.value];
      } else {
        assert claims + [] == claims;
      }
    }
    assert candidates[..|candidates|] == candidates;
  }

  method HydrateFromRecords(store: ClaimStore.RecordStore, candidates: seq<ClaimId>) returns (claims: seq<Claim>)
    requires store.Valid()
    ensures claims == Hydrated(store.writes, candidates)
  {
    claims := [];
    for i := 0 to |candidates|
      invariant claims == Hydrated(store.writes, candidates[..i])
    {
      assert candidates[..i + 1][..i] == candidates[..i];
      var claim := store.GetRecord(candidates[i]);
      if claim.Some? {
        claims := claims + [claim.value];
      } else {
        assert claims + [] == claims;
      }
    }
    assert candidates[..|candidates|] == candidates;
  }

  /** A hydrated claim is the last version written when it was read. */
  lemma {:induction false} HydratedIsCurrent(writes: Writes, candidates: seq<ClaimId>, claim: Claim)
    ensures claim in Hydrated(writes, candidates) <==>
            claim.id in candidates && Last(Versions(writes, claim.id)) == Some(claim)
  {
    if candidates != [] {
      var n := |candidates| - 1;
      assert candidates == candidates[..n] + [candidates[n]];
      HydratedIsCurrent(writes, candidates[..n], claim);
      LastIn(Versions(writes, candidates[n]));
    }
  }

  lemma HydratedNext(writes: Writes, candidates: seq<ClaimId>, id: ClaimId)
    ensures Hydrated(writes, candidates + [id]) ==
            Hydrated(writes, candidates) + ClaimStore.AsVersions(Last(Versions(writes, id)))
  {
    assert (candidates + [id])[..|candidates|] == candidates;
  }

  lemma {:induction false} HydratedAppend(writes: Writes, some: seq<ClaimId>, more: seq<ClaimId>)
    ensures Hydrated(writes, some + more) == Hydrated(writes, some) + Hydrated(writes, more)
  {
    if more == [] {
      assert some + more == some;
    } else {
      var front, last := more[..|more| - 1], more[|more| - 1];
      assert more == front + [last] && some + more == some + front + [last];
      HydratedAppend(writes, some, front);
      HydratedNext(writes, some + front, last);
      HydratedNext(writes, front, last);
    }
  }

  /** Candidates are hydrated in order, one that was never written as nothing. */
  lemma HydratedInOrder(writes: Writes, some: seq<ClaimId>, id: ClaimId, more: seq<ClaimId>)
    ensures var last := Last(Versions(writes, id));
            Hydrated(writes, some + [id] + more) ==
            Hydrated(writes, some) + (if last.Some? then [last.value] else []) + Hydrated(writes, more)
  {
    HydratedAppend(writes, some + [id], more);
    HydratedNext(writes, some, id);
  }

  /** No version of the scope recorded by the pin is later than `claim`. */
  ghost predicate NoneLater(writes: Writes, f: ReadFilter, claim: Claim, at: Timestamp) {
    forall c :: c in Versions(writes, claim.id) && InScope(c, f) && c.recordedAt <= at ==>
      c.recordedAt <= claim.recordedAt
  }

  /** `gap` is what a stretch of writes would have the audit consider; it does not displace `claim`. */
  predicate Undisturbed(gap: Option<Claim>, claim: Claim) {
    gap.None? || gap.value.recordedAt < claim.recordedAt || gap == Some(claim)
  }

  lemma CurrentConsidered(writes: Writes, f: ReadFilter, claim: Claim, at: Timestamp)
    requires f.temporal.knownAt == Some(at) && Last(Versions(writes, claim.id)) == Some(claim)
    requires InScope(claim, f) && claim.recordedAt <= at && NoneLater(writes, f, claim, at)
    ensures KnownScoped(writes, f, claim.id) == Some(claim)
  {
    var versions := Versions(writes, claim.id);
    var front := versions[..|versions| - 1];
    var scoped := Sorting.Filter(front, ScopedTo(f));
    assert versions == front + [claim];
    FilterLast(front, claim, ScopedTo(f));
    LatestKnownNext(scoped, claim, at);
    LatestKnownIsLatest(scoped, at);
    assert forall c :: c in scoped ==> c in versions;
  }

  lemma CurrentConsideredIff(writes: Writes, f: ReadFilter, claim: Claim, at: Timestamp)
    requires f.temporal.knownAt == Some(at) && Last(Versions(writes, claim.id)) == Some(claim)
    ensures KnownScoped(writes, f, claim.id) == Some(claim) <==>
            InScope(claim, f) && claim.recordedAt <= at && NoneLater(writes, f, claim, at)
  {
    if InScope(claim, f) && claim.recordedAt <= at && NoneLater(writes, f, claim, at) {
      CurrentConsidered(writes, f, claim, at);
    } else if KnownScoped(writes, f, claim.id) == Some(claim) {
      ConsideredFacts(writes, f, claim.id, at);
    }
  }

  /** The audit reads the very version the capture worked with exactly when that version is visible at the pin,
      nothing of its scope recorded by the pin is later, and nothing written between the read and the stamping
      of `capturedAt` displaces it. Writes recorded after the pin do not matter. */
  lemma AuditReproducesCaptureIff(decision: Decision, writes: Writes, between: Writes, later: Writes, claim: Claim)
    requires Last(Versions(writes, claim.id)) == Some(claim)
    requires RecordedAfter(later, Pin(decision.snapshot))
    ensures var f := PinnedFilter(decision);
            RecordRead(writes + between + later, f, claim.id) == Some(claim) <==>
            && InScope(claim, f) && ClaimVisibleAt(claim, f.temporal)
            && NoneLater(writes, f, claim, Pin(decision.snapshot))
            && Undisturbed(KnownScoped(between, f, claim.id), claim)
  {
    var f, at := PinnedFilter(decision), Pin(decision.snapshot);
    LaterWritesInvisible(writes + between, later, f, claim.id, at);
    KnownScopedConcat(writes, between, f, claim.id);
    CurrentConsideredIff(writes, f, claim, at);
    ConsideredFacts(writes, f, claim.id, at);
    ConsideredFacts(between, f, claim.id, at);
  }

  lemma ConsideredFacts(writes: Writes, f: ReadFilter, id: ClaimId, at: Timestamp)
    requires f.temporal.knownAt == Some(at)
    ensures var considered := KnownScoped(writes, f, id);
            && (considered.Some? ==> considered.value in Versions(writes, id) && InScope(considered.value, f) &&
                                     considered.value.recordedAt <= at)
            && (forall c :: c in Versions(writes, id) && InScope(c, f) && c.recordedAt <= at ==>
                  considered.Some? && c.recordedAt <= considered.value.recordedAt)
  {
    var scoped := Sorting.Filter(Versions(writes, id), ScopedTo(f));
    LatestKnownIsLatest(scoped, at);
    forall c | c in Versions(writes, id) && InScope(c, f) && c.recordedAt <= at
      ensures c in Sorting.Filter(scoped, RecordedBy(at)) {}
  }

  /** For a capture listed at an explicit `knownAt`, which is then the pin, only the writes in between decide. */
  lemma ListedCaptureIff(decision: Decision, writes: Writes, between: Writes, later: Writes, claim: Claim)
    requires RecordRead(writes, PinnedFilter(decision), claim.id) == Some(claim)
    requires RecordedAfter(later, Pin(decision.snapshot))
    ensures RecordRead(writes + between + later, PinnedFilter(decision), claim.id) == Some(claim) <==>
            Undisturbed(KnownScoped(between, PinnedFilter(decision), claim.id), claim)
  {
    var f, at := PinnedFilter(decision), Pin(decision.snapshot);
    LaterWritesInvisible(writes + between, later, f, claim.id, at);
    KnownScopedConcat(writes, between, f, claim.id);
  }

  /** When the clock does not run back and claims keep their scope, the pinned read of a claim is what the current
      canonical listing gave for it at the instant of the capture. */
  lemma PinnedReadIsCurrentListing(decision: Decision, writes: Writes, later: Writes, id: ClaimId)
    requires decision.snapshot.temporal.knownAt.None?
    requires Chronological(writes) && ScopeFixed(writes)
    requires forall c :: c in writes ==> c.recordedAt <= decision.snapshot.capturedAt
    requires RecordedAfter(later, decision.snapshot.capturedAt)
    ensures RecordRead(writes + later, PinnedFilter(decision), id) == RecordRead(writes, CurrentFilter(decision), id)
  {
    var at := decision.snapshot.capturedAt;
    LaterWritesInvisible(writes, later, PinnedFilter(decision), id, at);
    LayoutsAgree(writes, PinnedFilter(decision), id);
    LayoutsAgree(writes, CurrentFilter(decision), id);
    KnownAtReproducesPast(writes, PinnedFilter(decision), id, at);
    FilterAll(writes, RecordedBy(at));
  }
}
