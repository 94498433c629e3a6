/** The bitemporal claim store, seen as one log of writes.

    What was known at T about a claim is the version with the latest `recordedAt` not after T. The two
    physical layouts read it differently: the in-memory store checks a claim's scope on its current version,
    the record layouts on every version. */
module ClaimHistory {
  import opened Kernel
  import Sorting

  type Writes = seq<Claim>

  datatype ReadFilter = ReadFilter(tenant: nat, namespace: Option<nat>, temporal: Temporal)

  predicate InScope(claim: Claim, f: ReadFilter) {
    claim.scope.tenant == f.tenant && (f.namespace.None? || claim.scope.namespace == f.namespace.value)
  }

  function ScopedTo(f: ReadFilter): Claim -> bool {
    (c: Claim) => InScope(c, f)
  }

  function VersionOf(id: ClaimId): Claim -> bool {
    (c: Claim) => c.id == id
  }

  function RecordedBy(at: Timestamp): Claim -> bool {
    (c: Claim) => c.recordedAt <= at
  }

  predicate RecordedOrder(left: Claim, right: Claim) {
    left.recordedAt <= right.recordedAt
  }

  function Versions(writes: Writes, id: ClaimId): seq<Claim> {
    Sorting.Filter(writes, VersionOf(id))
  }

  function Last(versions: seq<Claim>): Option<Claim> {
    if versions == [] then None else Some(versions[|versions| - 1])
  }

  /** `latestClaimKnownAt`: the stable sort by `recordedAt` decides. */
  function LatestKnownAt(versions: seq<Claim>, knownAt: Option<Timestamp>): Option<Claim> {
    if knownAt.None? then Last(versions)
    else Last(Sorting.SortBy(Sorting.Filter(versions, RecordedBy(knownAt.value)), RecordedOrder))
  }

  function Visible(claim: Option<Claim>, temporal: Temporal): Option<Claim> {
    if claim.Some? && ClaimVisibleAt(claim.value, temporal) then claim else None
  }

  // ----- the two layouts as functions of the write log

  function MemoryRead(writes: Writes, f: ReadFilter, id: ClaimId): Option<Claim> {
    var current := Last(Versions(writes, id));
    if current.None? || !InScope(current.value, f) then None
    else Visible(LatestKnownAt(Versions(writes, id), f.temporal.knownAt), f.temporal)
  }

  function RecordRead(writes: Writes, f: ReadFilter, id: ClaimId): Option<Claim> {
    if f.temporal.knownAt.None? then
      var current := Last(Versions(writes, id));
      if current.None? || !InScope(current.value, f) then None else Visible(current, f.temporal)
    else
      Visible(LatestKnownAt(Sorting.Filter(Versions(writes, id), ScopedTo(f)), f.temporal.knownAt), f.temporal)
  }

  ghost predicate EachClaimOnce(listed: seq<Claim>) {
    forall i, j :: 0 <= i < j < |listed| ==> listed[i].id != listed[j].id
  }

  /** Listing keeps, for every claim id, at most one version. */
  ghost predicate Lists(listed: seq<Claim>, read: ClaimId -> Option<Claim>) {
    && (forall c :: c in listed ==> read(c.id) == Some(c))
    && (forall id :: read(id).Some? ==> read(id).value in listed)
    && EachClaimOnce(listed)
  }

  function MemoryReader(writes: Writes, f: ReadFilter): ClaimId -> Option<Claim> {
    (id: ClaimId) => MemoryRead(writes, f, id)
  }

  function RecordReader(writes: Writes, f: ReadFilter): ClaimId -> Option<Claim> {
    (id: ClaimId) => RecordRead(writes, f, id)
  }

  // ----- the latest known version

  lemma LastIn(versions: seq<Claim>)
    ensures Last(versions).Some? ==> Last(versions).value in versions
  {}

  /** The latest known version is known, and no known version was recorded later. */
  lemma {:induction false} LatestKnownIsLatest(versions: seq<Claim>, at: Timestamp)
    ensures var known := Sorting.Filter(versions, RecordedBy(at));
            var r := LatestKnownAt(versions, Some(at));
            (r.Some? <==> known != []) &&
            (r.Some? ==> r.value in known && forall c :: c in known ==> c.recordedAt <= r.value.recordedAt)
  {
    var known := Sorting.Filter(versions, RecordedBy(at));
    var sorted := Sorting.SortBy(known, RecordedOrder);
    Sorting.SortMembers(known, RecordedOrder);
    Sorting.SortOrders(known, RecordedOrder);
    if known != [] {
      var last := sorted[|sorted| - 1];
      assert last in sorted;
      forall c | c in known ensures c.recordedAt <= last.recordedAt {
        var i :| 0 <= i < |sorted| && sorted[i] == c;
        assert i < |sorted| - 1 ==> RecordedOrder(sorted[i], sorted[|sorted| - 1]);
      }
    }
  }

  /** The known-at read returns the last write it knows of exactly when no earlier one has a later
      `recordedAt`. */
  lemma KnownIsLastIff(versions: seq<Claim>, at: Timestamp)
    ensures var known := Sorting.Filter(versions, RecordedBy(at));
            LatestKnownAt(versions, Some(at)) == Last(known) <==>
            forall c :: c in known ==> c.recordedAt <= Last(known).value.recordedAt
  {
    var known := Sorting.Filter(versions, RecordedBy(at));
    LatestKnownIsLatest(versions, at);
    if known != [] {
      var front, last := known[..|known| - 1], known[|known| - 1];
      assert known == front + [last];
      Sorting.SortLast(front, last, RecordedOrder);
      Sorting.SortMembers(front, RecordedOrder);
      if forall c :: c in known ==> c.recordedAt <= last.recordedAt {
        var sorted := Sorting.SortBy(front, RecordedOrder);
        if front != [] {
          assert sorted[|sorted| - 1] in sorted;
          assert sorted[|sorted| - 1] in known;
        }
      }
    }
  }

  // ----- the write log, restricted and extended

  ghost predicate Chronological(writes: Writes) {
    forall i, j :: 0 <= i < j < |writes| ==> writes[i].recordedAt <= writes[j].recordedAt
  }

  /** All versions of a claim have the scope of its first. */
  ghost predicate ScopeFixed(writes: Writes) {
    forall c, d :: c in writes && d in writes && c.id == d.id ==> c.scope == d.scope
  }

  /** All versions of one claim have one scope. */
  ghost predicate OneScope(writes: Writes, id: ClaimId) {
    forall c, d :: c in Versions(writes, id) && d in Versions(writes, id) ==> c.scope == d.scope
  }

  lemma FilterChronological(writes: Writes, keep: Claim -> bool)
    requires Chronological(writes)
    ensures Chronological(Sorting.Filter(writes, keep))
  {
    assert Sorting.Ordered(writes, RecordedOrder);
    Sorting.FilterOrdered(writes, keep, RecordedOrder);
    var kept := Sorting.Filter(writes, keep);
    forall i, j | 0 <= i < j < |kept| ensures kept[i].recordedAt <= kept[j].recordedAt {
      assert RecordedOrder(kept[i], kept[j]);
    }
  }

  function VersionRecordedBy(id: ClaimId, at: Timestamp): Claim -> bool {
    (c: Claim) => c.id == id && c.recordedAt <= at
  }

  lemma VersionsRecordedBy(writes: Writes, id: ClaimId, at: Timestamp)
    ensures Versions(Sorting.Filter(writes, RecordedBy(at)), id) == Sorting.Filter(Versions(writes, id), RecordedBy(at))
  {
    Sorting.FilterNested(writes, RecordedBy(at), VersionOf(id), VersionRecordedBy(id, at));
    Sorting.FilterNested(writes, VersionOf(id), RecordedBy(at), VersionRecordedBy(id, at));
  }

  lemma KnownVersionsSame(writes: Writes, later: Writes, id: ClaimId, at: Timestamp)
    requires forall c :: c in later ==> c.recordedAt > at
    ensures Sorting.Filter(Versions(writes + later, id), RecordedBy(at)) ==
            Sorting.Filter(Versions(writes, id), RecordedBy(at))
  {
    Sorting.FilterAppend(writes, later, VersionOf(id));
    Sorting.FilterAppend(Versions(writes, id), Versions(later, id), RecordedBy(at));
    Sorting.FilterNone(Versions(later, id), RecordedBy(at));
  }

  function ScopedRecordedBy(f: ReadFilter, at: Timestamp): Claim -> bool {
    (c: Claim) => InScope(c, f) && c.recordedAt <= at
  }

  lemma ScopedThenKnown(versions: seq<Claim>, f: ReadFilter, at: Timestamp)
    ensures Sorting.Filter(Sorting.Filter(versions, ScopedTo(f)), RecordedBy(at)) ==
            Sorting.Filter(Sorting.Filter(versions, RecordedBy(at)), ScopedTo(f))
  {
    Sorting.FilterNested(versions, ScopedTo(f), RecordedBy(at), ScopedRecordedBy(f, at));
    Sorting.FilterNested(versions, RecordedBy(at), ScopedTo(f), ScopedRecordedBy(f, at));
  }

  lemma {:induction false} FilterAll(s: seq<Claim>, keep: Claim -> bool)
    requires forall c :: c in s ==> keep(c)
    ensures Sorting.Filter(s, keep) == s
  {
    if s != [] {
      assert s[|s| - 1] in s && forall c :: c in s[..|s| - 1] ==> c in s;
      FilterAll(s[..|s| - 1], keep);
    }
  }

  /** With one scope, either all versions of a claim are in scope or none is. */
  lemma ScopeOfVersions(writes: Writes, f: ReadFilter, id: ClaimId)
    requires OneScope(writes, id) && Versions(writes, id) != []
    ensures var versions := Versions(writes, id);
            Sorting.Filter(versions, ScopedTo(f)) == if InScope(Last(versions).value, f) then versions else []
  {
    var versions := Versions(writes, id);
    LastIn(versions);
    if InScope(Last(versions).value, f) {
      FilterAll(versions, ScopedTo(f));
    } else {
      Sorting.FilterNone(versions, ScopedTo(f));
    }
  }

  // ----- the guarantees

  /** Both layouts read a claim alike, at every filter, when it never changes scope. */
  lemma LayoutsAgree(writes: Writes, f: ReadFilter, id: ClaimId)
    requires OneScope(writes, id)
    ensures MemoryRead(writes, f, id) == RecordRead(writes, f, id)
  {
    if Versions(writes, id) != [] {
      ScopeOfVersions(writes, f, id);
    } else {
      assert Sorting.Filter(Versions(writes, id), ScopedTo(f)) == [];
    }
    if f.temporal.knownAt.Some? {
      assert Sorting.Filter([], RecordedBy(f.temporal.knownAt.value)) == [];
    }
  }

  // ----- one more version

  predicate NotLater(before: Option<Claim>, claim: Claim) {
    before.None? || before.value.recordedAt <= claim.recordedAt
  }

  lemma FilterLast(front: seq<Claim>, last: Claim, keep: Claim -> bool)
    ensures Sorting.Filter(front + [last], keep) == Sorting.Filter(front, keep) + if keep(last) then [last] else []
  {
    assert (front + [last])[..|front|] == front;
  }

  /** A new version becomes the latest known one exactly when it is known and none known was recorded later. */
  lemma LatestKnownNext(versions: seq<Claim>, next: Claim, at: Timestamp)
    ensures var before := LatestKnownAt(versions, Some(at));
            LatestKnownAt(versions + [next], Some(at)) ==
            if next.recordedAt <= at && NotLater(before, next) then Some(next) else before
  {
    var known := Sorting.Filter(versions, RecordedBy(at));
    FilterLast(versions, next, RecordedBy(at));
    if next.recordedAt <= at {
      Sorting.SortLast(known, next, RecordedOrder);
    } else {
      assert known + [] == known;
    }
  }

  /** The version latest known at some instant was so ever since it was recorded. */
  lemma {:induction false} LatestSinceRecorded(versions: seq<Claim>, at: Timestamp, mid: Timestamp)
    requires var latest := LatestKnownAt(versions, Some(at)); latest.Some? ==> latest.value.recordedAt <= mid <= at
    ensures LatestKnownAt(versions, Some(at)).Some? ==>
              LatestKnownAt(versions, Some(mid)) == LatestKnownAt(versions, Some(at))
  {
    if versions != [] {
      var front, last := versions[..|versions| - 1], versions[|versions| - 1];
      assert versions == front + [last];
      LatestKnownIsLatest(front, at);
      LatestKnownIsLatest(front, mid);
      LatestKnownNext(front, last, at);
      LatestKnownNext(front, last, mid);
      if last.recordedAt > at || !NotLater(LatestKnownAt(front, Some(at)), last) {
        LatestSinceRecorded(front, at, mid);
      }
    } else {
      assert Sorting.Filter(versions, RecordedBy(at)) == [];
    }
  }

  /** In particular at its own instant. */
  lemma LatestAtItsInstant(versions: seq<Claim>, at: Timestamp)
    ensures var latest := LatestKnownAt(versions, Some(at));
            latest.Some? ==> LatestKnownAt(versions, Some(latest.value.recordedAt)) == latest
  {
    LatestKnownIsLatest(versions, at);
    var latest := LatestKnownAt(versions, Some(at));
    if latest.Some? {
      LatestSinceRecorded(versions, at, latest.value.recordedAt);
    }
  }

  /** If the latest known version is in scope, it is the latest known among those in scope. */
  lemma {:induction false} LatestInScope(versions: seq<Claim>, f: ReadFilter, at: Timestamp)
    ensures var latest, scoped := LatestKnownAt(versions, Some(at)),
                                  LatestKnownAt(Sorting.Filter(versions, ScopedTo(f)), Some(at));
            && (Within(latest, f) ==> scoped == latest)
            && (scoped.Some? ==>
                  latest.Some? && InScope(scoped.value, f) && scoped.value.recordedAt <= latest.value.recordedAt)
  {
    if versions != [] {
      var front, last := versions[..|versions| - 1], versions[|versions| - 1];
      assert versions == front + [last];
      LatestInScope(front, f, at);
      FilterLast(front, last, ScopedTo(f));
      LatestKnownNext(front, last, at);
      LatestKnownNext(Sorting.Filter(front, ScopedTo(f)), last, at);
      assert Sorting.Filter(front, ScopedTo(f)) + [] == Sorting.Filter(front, ScopedTo(f));
    }
  }

  /** The latest version of two stretches of the history is that of the later stretch, unless recorded earlier. */
  lemma {:induction false} LatestKnownConcat(versions: seq<Claim>, more: seq<Claim>, at: Timestamp)
    ensures var before, after := LatestKnownAt(versions, Some(at)), LatestKnownAt(more, Some(at));
            LatestKnownAt(versions + more, Some(at)) ==
            if after.Some? && NotLater(before, after.value) then after else before
  {
    if more == [] {
      assert versions + more == versions;
      assert Sorting.Filter(more, RecordedBy(at)) == [];
    } else {
      var front, last := more[..|more| - 1], more[|more| - 1];
      assert more == front + [last] && versions + more == versions + front + [last];
      LatestKnownConcat(versions, front, at);
      LatestKnownNext(versions + front, last, at);
      LatestKnownNext(front, last, at);
    }
  }

  /** The version of a claim that the record layouts consider at a filter, visible or not. */
  function KnownScoped(writes: Writes, f: ReadFilter, id: ClaimId): Option<Claim> {
    LatestKnownAt(Sorting.Filter(Versions(writes, id), ScopedTo(f)), f.temporal.knownAt)
  }

  /** What one more stretch of writes does to the version considered. */
  lemma KnownScopedConcat(writes: Writes, more: Writes, f: ReadFilter, id: ClaimId)
    requires f.temporal.knownAt.Some?
    ensures var before, after := KnownScoped(writes, f, id), KnownScoped(more, f, id);
            KnownScoped(writes + more, f, id) == if after.Some? && NotLater(before, after.value) then after else before
  {
    Sorting.FilterAppend(writes, more, VersionOf(id));
    Sorting.FilterAppend(Versions(writes, id), Versions(more, id), ScopedTo(f));
    LatestKnownConcat(Sorting.Filter(Versions(writes, id), ScopedTo(f)),
                      Sorting.Filter(Versions(more, id), ScopedTo(f)), f.temporal.knownAt.value);
  }

  lemma KnownScopedAlone(w: Claim, f: ReadFilter, id: ClaimId)
    requires f.temporal.knownAt.Some?
    ensures KnownScoped([w], f, id) ==
            if w.id == id && InScope(w, f) && w.recordedAt <= f.temporal.knownAt.value then Some(w) else None
  {
    var at := f.temporal.knownAt.value;
    FilterLast([], w, VersionOf(id));
    FilterLast([], w, ScopedTo(f));
    LatestKnownNext([], w, at);
    assert [] + [w] == [w] && Sorting.Filter([], RecordedBy(at)) == [];
  }

  /** Exactly what one more write does to what the record layouts know at T: it is read if it is in scope, recorded
      by T, and no earlier than the version considered before; otherwise nothing changes. */
  lemma OneMoreWrite(writes: Writes, w: Claim, f: ReadFilter, id: ClaimId)
    requires f.temporal.knownAt.Some?
    ensures RecordRead(writes + [w], f, id) ==
            if w.id == id && InScope(w, f) && w.recordedAt <= f.temporal.knownAt.value &&
               NotLater(KnownScoped(writes, f, id), w)
            then Visible(Some(w), f.temporal) else RecordRead(writes, f, id)
  {
    KnownScopedConcat(writes, [w], f, id);
    KnownScopedAlone(w, f, id);
  }

  // ----- reads in the fields of the writes

  /** `c` is the last written of the latest recorded versions of its claim that are kept and recorded by `at`. */
  ghost predicate LatestWritten(writes: Writes, keep: Claim -> bool, at: Timestamp, c: Claim) {
    exists i :: 0 <= i < |writes| && writes[i] == c && keep(c) && c.recordedAt <= at && NonePast(writes, keep, at, i)
  }

  ghost predicate NonePast(writes: Writes, keep: Claim -> bool, at: Timestamp, i: nat)
    requires i < |writes|
  {
    forall j :: 0 <= j < |writes| && writes[j].id == writes[i].id && keep(writes[j]) && writes[j].recordedAt <= at ==>
      writes[j].recordedAt < writes[i].recordedAt || (writes[j].recordedAt == writes[i].recordedAt && j <= i)
  }

  /** `c` is the last version written of its claim. */
  ghost predicate LastWritten(writes: Writes, c: Claim) {
    exists i :: 0 <= i < |writes| && writes[i] == c && forall j :: i < j < |writes| ==> writes[j].id != c.id
  }

  lemma LatestWrittenOnce(writes: Writes, keep: Claim -> bool, at: Timestamp, c: Claim, d: Claim)
    requires LatestWritten(writes, keep, at, c) && LatestWritten(writes, keep, at, d) && c.id == d.id
    ensures c == d
  {
    var i :| 0 <= i < |writes| && writes[i] == c && keep(c) && c.recordedAt <= at && NonePast(writes, keep, at, i);
    var j :| 0 <= j < |writes| && writes[j] == d && keep(d) && d.recordedAt <= at && NonePast(writes, keep, at, j);
  }

  /** The version known at an instant among those kept, after one more write. */
  lemma KnownAfterWrite(front: Writes, last: Claim, keep: Claim -> bool, at: Timestamp, id: ClaimId)
    ensures var before := LatestKnownAt(Sorting.Filter(Versions(front, id), keep), Some(at));
            LatestKnownAt(Sorting.Filter(Versions(front + [last], id), keep), Some(at)) ==
            if last.id == id && keep(last) && last.recordedAt <= at && NotLater(before, last) then Some(last)
            else before
  {
    FilterLast(front, last, VersionOf(id));
    if last.id == id {
      FilterLast(Versions(front, id), last, keep);
      LatestKnownNext(Sorting.Filter(Versions(front, id), keep), last, at);
      assert Sorting.Filter(Versions(front, id), keep) + [] == Sorting.Filter(Versions(front, id), keep);
    } else {
      assert Versions(front, id) + [] == Versions(front, id);
    }
  }

  /** `known` is the version known at an instant among those kept, if there is one. */
  ghost predicate Known(writes: Writes, keep: Claim -> bool, at: Timestamp, id: ClaimId, known: Option<Claim>) {
    && (known.Some? ==> known.value.id == id && LatestWritten(writes, keep, at, known.value))
    && (known.None? ==> forall v :: v in writes && v.id == id && keep(v) ==> v.recordedAt > at)
  }

  lemma KnownNext(front: Writes, last: Claim, keep: Claim -> bool, at: Timestamp, id: ClaimId, before: Option<Claim>)
    requires Known(front, keep, at, id, before)
    ensures Known(front + [last], keep, at, id,
                  if last.id == id && keep(last) && last.recordedAt <= at && NotLater(before, last) then Some(last)
                  else before)
  {
    var writes := front + [last];
    if before.Some? {
      var i :| 0 <= i < |front| && front[i] == before.value && NonePast(front, keep, at, i);
      var newer := last.id == id && keep(last) && last.recordedAt <= at && NotLater(before, last);
      KeepsLatest(front, last, keep, at, i, if newer then |front| else i);
      assert writes[if newer then |front| else i] == if newer then last else before.value;
    } else if last.id == id && keep(last) && last.recordedAt <= at {
      assert writes[|front|] == last && NonePast(writes, keep, at, |front|);
    }
  }

  lemma {:induction false} KnownIsLatestWritten(writes: Writes, keep: Claim -> bool, at: Timestamp, id: ClaimId)
    ensures Known(writes, keep, at, id, LatestKnownAt(Sorting.Filter(Versions(writes, id), keep), Some(at)))
  {
    if writes == [] {
      assert Sorting.Filter(Versions(writes, id), keep) == [];
      LatestKnownIsLatest([], at);
    } else {
      var front, last := writes[..|writes| - 1], writes[|writes| - 1];
      assert writes == front + [last];
      KnownIsLatestWritten(front, keep, at, id);
      KnownAfterWrite(front, last, keep, at, id);
      KnownNext(front, last, keep, at, id, LatestKnownAt(Sorting.Filter(Versions(front, id), keep), Some(at)));
    }
  }

  lemma KeepsLatest(front: Writes, last: Claim, keep: Claim -> bool, at: Timestamp, i: nat, k: nat)
    requires i < |front| && NonePast(front, keep, at, i) && k <= |front|
    requires (front + [last])[k].id == front[i].id
    requires k == i ==> last.id != front[i].id || !keep(last) || last.recordedAt > at ||
                        last.recordedAt < front[i].recordedAt
    requires k != i ==> k == |front| && front[i].recordedAt <= last.recordedAt
    ensures NonePast(front + [last], keep, at, k)
  {
    var writes := front + [last];
    forall j | 0 <= j < |writes| && writes[j].id == writes[k].id && keep(writes[j]) && writes[j].recordedAt <= at
      ensures writes[j].recordedAt < writes[k].recordedAt || (writes[j].recordedAt == writes[k].recordedAt && j <= k)
    {
      assert j < |front| ==> writes[j] == front[j];
    }
  }

  lemma KnownIff(writes: Writes, keep: Claim -> bool, at: Timestamp, c: Claim)
    ensures LatestKnownAt(Sorting.Filter(Versions(writes, c.id), keep), Some(at)) == Some(c) <==>
            LatestWritten(writes, keep, at, c)
  {
    KnownIsLatestWritten(writes, keep, at, c.id);
    if LatestWritten(writes, keep, at, c) {
      assert c in writes;
      LatestWrittenOnce(writes, keep, at, c,
                        LatestKnownAt(Sorting.Filter(Versions(writes, c.id), keep), Some(at)).value);
    }
  }

  lemma {:induction false} LastIff(writes: Writes, c: Claim)
    ensures Last(Versions(writes, c.id)) == Some(c) <==> LastWritten(writes, c)
  {
    if writes != [] {
      var front, last := writes[..|writes| - 1], writes[|writes| - 1];
      assert writes == front + [last];
      FilterLast(front, last, VersionOf(c.id));
      if last.id == c.id {
        assert LastWritten(writes, c) ==> c == last;
        assert writes[|front|] == last;
      } else {
        LastIff(front, c);
        LastWrittenBefore(front, last, c);
      }
    }
  }

  lemma LastWrittenBefore(front: Writes, last: Claim, c: Claim)
    requires last.id != c.id
    ensures LastWritten(front + [last], c) <==> LastWritten(front, c)
  {
    var writes := front + [last];
    if LastWritten(front, c) {
      var i :| 0 <= i < |front| && front[i] == c && forall j :: i < j < |front| ==> front[j].id != c.id;
      assert writes[i] == c;
      assert forall j :: i < j < |front| ==> writes[j] == front[j];
    }
    if LastWritten(writes, c) {
      var i :| 0 <= i < |writes| && writes[i] == c && forall j :: i < j < |writes| ==> writes[j].id != c.id;
      assert front[i] == c;
      assert forall j :: i < j < |front| ==> writes[j] == front[j];
    }
  }

  function OfScope(tenant: nat, namespace: Option<nat>): Claim -> bool {
    (c: Claim) => c.scope.tenant == tenant && (namespace.Some? ==> c.scope.namespace == namespace.value)
  }

  /** The record layouts read `c` at a known-at exactly when it is the last of the latest versions of that scope
      recorded by then, is not retracted, and is valid at the instant asked for: from its beginning up to but not at
      its end. */
  lemma RecordReadIff(writes: Writes, f: ReadFilter, at: Timestamp, c: Claim)
    requires f.temporal.knownAt == Some(at)
    ensures RecordRead(writes, f, c.id) == Some(c) <==>
            && LatestWritten(writes, OfScope(f.tenant, f.namespace), at, c)
            && !c.status.Retracted?
            && (f.temporal.validAt.Some? ==>
                  && c.validFrom <= f.temporal.validAt.value
                  && (c.validTo.Some? ==> f.temporal.validAt.value < c.validTo.value))
  {
    Sorting.FilterAgree(Versions(writes, c.id), ScopedTo(f), OfScope(f.tenant, f.namespace));
    KnownIff(writes, OfScope(f.tenant, f.namespace), at, c);
    LatestKnownIsLatest(Sorting.Filter(Versions(writes, c.id), ScopedTo(f)), at);
  }

  function Any(): Claim -> bool {
    (c: Claim) => true
  }

  lemma LastInScopeIff(writes: Writes, f: ReadFilter, id: ClaimId)
    ensures Within(Last(Versions(writes, id)), f) <==>
            exists d: Claim :: d.id == id && LastWritten(writes, d) && d.scope.tenant == f.tenant &&
                               (f.namespace.Some? ==> d.scope.namespace == f.namespace.value)
  {
    var last := Last(Versions(writes, id));
    LastIn(Versions(writes, id));
    if last.Some? {
      LastIff(writes, last.value);
    }
    forall d: Claim | d.id == id && LastWritten(writes, d) ensures last == Some(d) {
      LastIff(writes, d);
    }
  }

  lemma AnyKnownIff(writes: Writes, at: Timestamp, c: Claim)
    ensures LatestKnownAt(Versions(writes, c.id), Some(at)) == Some(c) <==> LatestWritten(writes, Any(), at, c)
    ensures LatestWritten(writes, Any(), at, c) ==> c.recordedAt <= at
  {
    FilterAll(Versions(writes, c.id), Any());
    KnownIff(writes, Any(), at, c);
  }

  /** The in-memory layout reads `c` exactly when it is the last of the latest versions of any scope, likewise visible,
      and the last version written of the claim is of the scope asked for. */
  lemma MemoryReadIff(writes: Writes, f: ReadFilter, at: Timestamp, c: Claim)
    requires f.temporal.knownAt == Some(at)
    ensures MemoryRead(writes, f, c.id) == Some(c) <==>
            && LatestWritten(writes, Any(), at, c)
            && (exists d: Claim :: d.id == c.id && LastWritten(writes, d) && d.scope.tenant == f.tenant &&
                                   (f.namespace.Some? ==> d.scope.namespace == f.namespace.value))
            && !c.status.Retracted?
            && (f.temporal.validAt.Some? ==>
                  && c.validFrom <= f.temporal.validAt.value
                  && (c.validTo.Some? ==> f.temporal.validAt.value < c.validTo.value))
  {
    LastInScopeIff(writes, f, c.id);
    AnyKnownIff(writes, at, c);
  }

  /** Without a known-at both read the last version written, if it is of the scope asked for and visible. */
  lemma CurrentReadIff(writes: Writes, f: ReadFilter, c: Claim)
    requires f.temporal.knownAt.None?
    ensures MemoryRead(writes, f, c.id) == RecordRead(writes, f, c.id)
    ensures RecordRead(writes, f, c.id) == Some(c) <==>
            && LastWritten(writes, c) && c.scope.tenant == f.tenant
            && (f.namespace.Some? ==> c.scope.namespace == f.namespace.value)
            && !c.status.Retracted?
            && (f.temporal.validAt.Some? ==>
                  && c.validFrom <= f.temporal.validAt.value
                  && (c.validTo.Some? ==> f.temporal.validAt.value < c.validTo.value))
  {
    LastIff(writes, c);
  }

  // ----- where the layouts part

  predicate Within(claim: Option<Claim>, f: ReadFilter) {
    claim.Some? && InScope(claim.value, f)
  }

  /** The record layouts only ever return versions of the scope asked for. */
  lemma RecordsStayInScope(writes: Writes, f: ReadFilter, id: ClaimId)
    ensures RecordRead(writes, f, id).Some? ==> InScope(RecordRead(writes, f, id).value, f)
  {
    if f.temporal.knownAt.Some? {
      LatestInScope(Versions(writes, id), f, f.temporal.knownAt.value);
    }
  }

  /** At any one filter the layouts agree exactly when neither reads anything, or both the current version and the
      latest known one are in scope. */
  lemma LayoutsAgreeIff(writes: Writes, f: ReadFilter, id: ClaimId)
    ensures var current, known := Last(Versions(writes, id)), LatestKnownAt(Versions(writes, id), f.temporal.knownAt);
            MemoryRead(writes, f, id) == RecordRead(writes, f, id) <==>
            (Within(current, f) && Within(known, f)) ||
            (MemoryRead(writes, f, id).None? && RecordRead(writes, f, id).None?)
  {
    RecordsStayInScope(writes, f, id);
    if f.temporal.knownAt.Some? {
      LatestInScope(Versions(writes, id), f, f.temporal.knownAt.value);
    }
  }

  /** The filter for one scope as known at one instant. */
  function KnownInScope(scope: Scope, at: Timestamp): ReadFilter {
    ReadFilter(scope.tenant, Some(scope.namespace), Temporal(None, Some(at)))
  }

  /** A version left behind in another scope is still known there to the record layouts, and not to the in-memory
      one, unless a retraction of that scope covers it. */
  lemma MovedClaimSplitsLayouts(writes: Writes, id: ClaimId, left: Claim)
    requires left in Versions(writes, id) && left.scope != Last(Versions(writes, id)).value.scope
    requires var f := KnownInScope(left.scope, left.recordedAt);
             forall v :: v in Versions(writes, id) && InScope(v, f) ==> v.status != Retracted
    ensures var f := KnownInScope(left.scope, left.recordedAt);
            MemoryRead(writes, f, id) == None && RecordRead(writes, f, id).Some?
  {
    var f := KnownInScope(left.scope, left.recordedAt);
    var scoped := Sorting.Filter(Versions(writes, id), ScopedTo(f));
    LatestKnownIsLatest(scoped, left.recordedAt);
    assert left in Sorting.Filter(scoped, RecordedBy(left.recordedAt));
  }

  /** `f` asks for no more than `g` does. */
  ghost predicate Narrower(f: ReadFilter, g: ReadFilter) {
    forall c :: InScope(c, f) ==> InScope(c, g)
  }

  /** A version latest in a wide scope is latest in any narrower one that holds it. */
  lemma LatestInNarrower(versions: seq<Claim>, f: ReadFilter, g: ReadFilter, at: Timestamp)
    requires Narrower(f, g)
    ensures var wide := LatestKnownAt(Sorting.Filter(versions, ScopedTo(g)), Some(at));
            Within(wide, f) ==> LatestKnownAt(Sorting.Filter(versions, ScopedTo(f)), Some(at)) == wide
  {
    Sorting.FilterNested(versions, ScopedTo(g), ScopedTo(f), ScopedTo(f));
    LatestInScope(Sorting.Filter(versions, ScopedTo(g)), f, at);
  }

  /** The version the record layouts consider in one scope at one instant. */
  function KnownOfScope(versions: seq<Claim>, scope: Scope, at: Timestamp): Option<Claim> {
    LatestKnownAt(Sorting.Filter(versions, ScopedTo(KnownInScope(scope, at))), Some(at))
  }

  predicate Unread(claim: Option<Claim>) {
    claim.None? || claim.value.status == Retracted
  }

  /** The scopes a claim has left leave no trace: a version of another scope than the current one is retracted where
      it was the latest of its scope, and where it was the latest of all, the current scope had nothing to read. */
  ghost predicate LeavesNoTrace(versions: seq<Claim>) {
    forall v :: v in versions && v.scope != Last(versions).value.scope ==>
      && (KnownOfScope(versions, v.scope, v.recordedAt) == Some(v) ==> v.status == Retracted)
      && (LatestKnownAt(versions, Some(v.recordedAt)) == Some(v) ==>
            Unread(KnownOfScope(versions, Last(versions).value.scope, v.recordedAt)))
  }

  lemma OwnScope(c: Claim, scope: Scope, at: Timestamp)
    ensures InScope(c, KnownInScope(scope, at)) <==> c.scope == scope
  {}

  /** What a filter considers is also what the version's own scope considers at the version's own instant. */
  lemma ConsideredInOwnScope(versions: seq<Claim>, f: ReadFilter, at: Timestamp)
    ensures var considered := LatestKnownAt(Sorting.Filter(versions, ScopedTo(f)), Some(at));
            considered.Some? ==>
              && considered.value in versions && InScope(considered.value, f) && considered.value.recordedAt <= at
              && KnownOfScope(versions, considered.value.scope, at) == considered
              && KnownOfScope(versions, considered.value.scope, considered.value.recordedAt) == considered
  {
    var scoped := Sorting.Filter(versions, ScopedTo(f));
    LatestKnownIsLatest(scoped, at);
    var considered := LatestKnownAt(scoped, Some(at));
    if considered.Some? {
      var v := considered.value;
      var own := KnownInScope(v.scope, at);
      LatestInNarrower(versions, own, f, at);
      assert KnownOfScope(versions, v.scope, at) == considered;
      LatestAtItsInstant(Sorting.Filter(versions, ScopedTo(own)), at);
      SameScopeFilter(versions, v.scope, at, v.recordedAt);
    }
  }

  lemma SameScopeFilter(versions: seq<Claim>, scope: Scope, at: Timestamp, other: Timestamp)
    ensures Sorting.Filter(versions, ScopedTo(KnownInScope(scope, at))) ==
            Sorting.Filter(versions, ScopedTo(KnownInScope(scope, other)))
  {
    Sorting.FilterAgree(versions, ScopedTo(KnownInScope(scope, at)), ScopedTo(KnownInScope(scope, other)));
  }

  /** Without traces, what a filter considers outside the current scope is never read. */
  lemma NoTraceUnread(versions: seq<Claim>, f: ReadFilter, at: Timestamp)
    requires LeavesNoTrace(versions)
    ensures var considered := LatestKnownAt(Sorting.Filter(versions, ScopedTo(f)), Some(at));
            considered.Some? && considered.value.scope != Last(versions).value.scope ==> Unread(considered)
  {
    ConsideredInOwnScope(versions, f, at);
  }

  /** The latest known version lies outside the current scope: then it is retracted, and so is, if any, the version
      that any filter holding the current scope considers. */
  lemma NoTraceOutside(versions: seq<Claim>, f: ReadFilter, at: Timestamp)
    requires LeavesNoTrace(versions) && versions != [] && InScope(Last(versions).value, f)
    requires var latest := LatestKnownAt(versions, Some(at)); latest.Some? && !InScope(latest.value, f)
    ensures Unread(LatestKnownAt(versions, Some(at)))
    ensures Unread(LatestKnownAt(Sorting.Filter(versions, ScopedTo(f)), Some(at)))
  {
    var current, w := Last(versions).value, LatestKnownAt(versions, Some(at)).value;
    LatestKnownIsLatest(versions, at);
    LatestAtItsInstant(versions, at);
    LatestInScope(versions, KnownInScope(w.scope, w.recordedAt), w.recordedAt);
    var considered := LatestKnownAt(Sorting.Filter(versions, ScopedTo(f)), Some(at));
    NoTraceUnread(versions, f, at);
    if considered.Some? && considered.value.scope == current.scope {
      LatestInScope(versions, f, at);
      ConsideredInOwnScope(versions, f, at);
      var own := Sorting.Filter(versions, ScopedTo(KnownInScope(current.scope, at)));
      LatestSinceRecorded(own, at, w.recordedAt);
      SameScopeFilter(versions, current.scope, at, w.recordedAt);
    }
  }

  lemma NoTraceAgrees(writes: Writes, f: ReadFilter, id: ClaimId)
    requires LeavesNoTrace(Versions(writes, id))
    ensures MemoryRead(writes, f, id) == RecordRead(writes, f, id)
  {
    var versions := Versions(writes, id);
    LayoutsAgreeIff(writes, f, id);
    if f.temporal.knownAt.Some? {
      var at := f.temporal.knownAt.value;
      LatestInScope(versions, f, at);
      ConsideredInOwnScope(versions, f, at);
      NoTraceUnread(versions, f, at);
      if Within(Last(versions), f) && LatestKnownAt(versions, Some(at)).Some? &&
         !InScope(LatestKnownAt(versions, Some(at)).value, f) {
        NoTraceOutside(versions, f, at);
      }
    }
  }

  lemma AgreementLeavesNoTrace(writes: Writes, id: ClaimId, v: Claim)
    requires forall f :: MemoryRead(writes, f, id) == RecordRead(writes, f, id)
    requires var versions := Versions(writes, id); v in versions && v.scope != Last(versions).value.scope
    ensures var versions := Versions(writes, id);
            && (KnownOfScope(versions, v.scope, v.recordedAt) == Some(v) ==> v.status == Retracted)
            && (LatestKnownAt(versions, Some(v.recordedAt)) == Some(v) ==>
                  Unread(KnownOfScope(versions, Last(versions).value.scope, v.recordedAt)))
  {
    var versions := Versions(writes, id);
    var there, here := KnownInScope(v.scope, v.recordedAt), KnownInScope(Last(versions).value.scope, v.recordedAt);
    assert MemoryRead(writes, there, id) == RecordRead(writes, there, id);
    assert MemoryRead(writes, here, id) == RecordRead(writes, here, id);
    RecordsStayInScope(writes, here, id);
    LatestKnownIsLatest(Sorting.Filter(versions, ScopedTo(here)), v.recordedAt);
  }

  /** The layouts agree about a claim at every filter exactly when the scopes it has left leave no trace. */
  lemma AgreeEverywhereIff(writes: Writes, id: ClaimId)
    ensures (forall f :: MemoryRead(writes, f, id) == RecordRead(writes, f, id)) <==>
            LeavesNoTrace(Versions(writes, id))
  {
    var versions := Versions(writes, id);
    if LeavesNoTrace(versions) {
      forall f ensures MemoryRead(writes, f, id) == RecordRead(writes, f, id) {
        NoTraceAgrees(writes, f, id);
      }
    }
    if forall f :: MemoryRead(writes, f, id) == RecordRead(writes, f, id) {
      forall v | v in versions && v.scope != Last(versions).value.scope
        ensures KnownOfScope(versions, v.scope, v.recordedAt) == Some(v) ==> v.status == Retracted
        ensures LatestKnownAt(versions, Some(v.recordedAt)) == Some(v) ==>
                  Unread(KnownOfScope(versions, Last(versions).value.scope, v.recordedAt))
      {
        AgreementLeavesNoTrace(writes, id, v);
      }
    }
  }

  lemma UnretractedLeavesTrace(versions: seq<Claim>, left: Claim)
    requires forall v :: v in versions ==> v.status != Retracted
    requires left in versions && left.scope != Last(versions).value.scope
    ensures !LeavesNoTrace(versions)
  {
    var f := KnownInScope(left.scope, left.recordedAt);
    var scoped := Sorting.Filter(versions, ScopedTo(f));
    LatestKnownIsLatest(scoped, left.recordedAt);
    assert left in Sorting.Filter(scoped, RecordedBy(left.recordedAt));
    ConsideredInOwnScope(versions, f, left.recordedAt);
    var considered := LatestKnownAt(scoped, Some(left.recordedAt)).value;
    OwnScope(considered, left.scope, left.recordedAt);
  }

  /** A claim that was never retracted leaves no trace exactly when all its versions have one scope. */
  lemma UnretractedAgreeIff(writes: Writes, id: ClaimId)
    requires forall v :: v in Versions(writes, id) ==> v.status != Retracted
    ensures (forall f :: MemoryRead(writes, f, id) == RecordRead(writes, f, id)) <==> OneScope(writes, id)
  {
    var versions := Versions(writes, id);
    AgreeEverywhereIff(writes, id);
    LastIn(versions);
    if OneScope(writes, id) {
      assert LeavesNoTrace(versions);
    } else {
      var c, d :| c in versions && d in versions && c.scope != d.scope;
      UnretractedLeavesTrace(versions, if c.scope != Last(versions).value.scope then c else d);
    }
  }

  /** A version read at `f` lies outside the scope `f` asks for. */
  predicate LeavesScope(read: Option<Claim>, f: ReadFilter) {
    read.Some? && !InScope(read.value, f)
  }

  /** The in-memory layout can return a version outside the scope asked for: exactly when some version of another
      scope than the current one, not retracted, was the latest known at its own instant. */
  lemma MemoryLeavesScopeIff(writes: Writes, id: ClaimId)
    ensures (exists f :: LeavesScope(MemoryRead(writes, f, id), f)) <==>
            exists v :: v in Versions(writes, id) && v.status != Retracted &&
                        v.scope != Last(Versions(writes, id)).value.scope &&
                        LatestKnownAt(Versions(writes, id), Some(v.recordedAt)) == Some(v)
  {
    var versions := Versions(writes, id);
    forall f | LeavesScope(MemoryRead(writes, f, id), f)
      ensures var v := MemoryRead(writes, f, id).value;
              v in versions && v.status != Retracted && v.scope != Last(versions).value.scope &&
              LatestKnownAt(versions, Some(v.recordedAt)) == Some(v)
    {
      LatestAtItsInstant(versions, f.temporal.knownAt.value);
      LatestKnownIsLatest(versions, f.temporal.knownAt.value);
    }
    forall v | v in versions && v.status != Retracted && v.scope != Last(versions).value.scope &&
               LatestKnownAt(versions, Some(v.recordedAt)) == Some(v)
      ensures exists f :: LeavesScope(MemoryRead(writes, f, id), f)
    {
      var f := KnownInScope(Last(versions).value.scope, v.recordedAt);
      assert LeavesScope(MemoryRead(writes, f, id), f);
    }
  }

  // ----- what was known, reproduced

  lemma LastKnownIsCurrent(writes: Writes, id: ClaimId, at: Timestamp)
    requires Chronological(writes)
    ensures LatestKnownAt(Versions(writes, id), Some(at)) == Last(Versions(Sorting.Filter(writes, RecordedBy(at)), id))
  {
    VersionsRecordedBy(writes, id, at);
    var known := Sorting.Filter(Versions(writes, id), RecordedBy(at));
    FilterChronological(writes, VersionOf(id));
    FilterChronological(Versions(writes, id), RecordedBy(at));
    forall c | c in known ensures c.recordedAt <= Last(known).value.recordedAt {
      var i :| 0 <= i < |known| && known[i] == c;
    }
    KnownIsLastIff(Versions(writes, id), at);
  }

  lemma SameScopeLast(writes: Writes, f: ReadFilter, id: ClaimId, at: Timestamp)
    requires ScopeFixed(writes)
    ensures var past := Last(Versions(Sorting.Filter(writes, RecordedBy(at)), id));
            var now := Last(Versions(writes, id));
            past.Some? ==> now.Some? && (InScope(past.value, f) <==> InScope(now.value, f))
  {
    VersionsRecordedBy(writes, id, at);
    LastIn(Versions(Sorting.Filter(writes, RecordedBy(at)), id));
    LastIn(Versions(writes, id));
  }

  /** Listing what was known at T is listing what is current in the store that holds only the writes
      recorded by T. */
  lemma KnownAtReproducesPast(writes: Writes, f: ReadFilter, id: ClaimId, at: Timestamp)
    requires Chronological(writes) && ScopeFixed(writes) && f.temporal.knownAt == Some(at)
    ensures MemoryRead(writes, f, id) ==
            MemoryRead(Sorting.Filter(writes, RecordedBy(at)), f.(temporal := Temporal(f.temporal.validAt, None)), id)
  {
    LastKnownIsCurrent(writes, id, at);
    SameScopeLast(writes, f, id, at);
    LatestKnownIsLatest(Versions(writes, id), at);
    VersionsRecordedBy(writes, id, at);
  }

  /** The same for the record layouts. */
  lemma RecordsReproducePast(writes: Writes, f: ReadFilter, id: ClaimId, at: Timestamp)
    requires Chronological(writes) && ScopeFixed(writes) && f.temporal.knownAt == Some(at)
    ensures RecordRead(writes, f, id) ==
            RecordRead(Sorting.Filter(writes, RecordedBy(at)), f.(temporal := Temporal(f.temporal.validAt, None)), id)
  {
    KnownAtReproducesPast(writes, f, id, at);
    LayoutsAgree(writes, f, id);
    LayoutsAgree(Sorting.Filter(writes, RecordedBy(at)), f.(temporal := Temporal(f.temporal.validAt, None)), id);
  }

  /** In the record layouts, writes recorded after T never change what was known at T, whatever they are. */
  lemma LaterWritesInvisible(writes: Writes, later: Writes, f: ReadFilter, id: ClaimId, at: Timestamp)
    requires f.temporal.knownAt == Some(at) && forall c :: c in later ==> c.recordedAt > at
    ensures RecordRead(writes + later, f, id) == RecordRead(writes, f, id)
  {
    KnownVersionsSame(writes, later, id, at);
    ScopedThenKnown(Versions(writes, id), f, at);
    ScopedThenKnown(Versions(writes + later, id), f, at);
  }

  /** In the in-memory layout they never do so as long as they leave claims in their scope. */
  lemma LaterWritesInvisibleInMemory(writes: Writes, later: Writes, f: ReadFilter, id: ClaimId, at: Timestamp)
    requires f.temporal.knownAt == Some(at) && forall c :: c in later ==> c.recordedAt > at
    requires ScopeFixed(writes + later)
    ensures MemoryRead(writes + later, f, id) == MemoryRead(writes, f, id)
  {
    LaterWritesInvisible(writes, later, f, id, at);
    LayoutsAgree(writes + later, f, id);
    assert ScopeFixed(writes) by {
      assert forall c :: c in writes ==> c in writes + later;
    }
    LayoutsAgree(writes, f, id);
  }
}
