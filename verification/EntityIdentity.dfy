/** Canonical entity ids read off the event log.

    Two readers exist: the knowledge capability's `canonicalEntityIdFromEvents`, which reports a cycle
    as an error, and the retrieval projection's `canonicalEntityResolver`, which never fails. Both chase
    the redirects of the merges that no later event reverted. */
module EntityIdentity {
  import opened Kernel
  import opened Redirects
  import Sorting

  predicate EventOrder(left: DomainEvent, right: DomainEvent) {
    left.occurredAt < right.occurredAt || (left.occurredAt == right.occurredAt && left.eventId <= right.eventId)
  }

  function RevertedIds(log: Log): set<EventId> {
    set e | e in log && e.MergeReverted? :: e.mergeEventId
  }

  function ActiveMerge(reverted: set<EventId>): DomainEvent -> bool {
    (e: DomainEvent) => e.EntityMerged? && e.eventId !in reverted
  }

  function ActiveMerges(log: Log): seq<DomainEvent> {
    Sorting.SortBy(Sorting.Filter(log, ActiveMerge(RevertedIds(log))), EventOrder)
  }

  function AbsorbAll(m: RedirectMap, absorbed: seq<EntityId>, surviving: EntityId): RedirectMap {
    if absorbed == [] then m
    else AbsorbAll(m, absorbed[..|absorbed| - 1], surviving)[absorbed[|absorbed| - 1] := surviving]
  }

  /** The redirects of a list of merges; a later merge overrides an earlier one. */
  function RedirectsOf(merges: seq<DomainEvent>): RedirectMap
    requires forall e :: e in merges ==> e.EntityMerged?
  {
    if merges == [] then map[]
    else
      var last := merges[|merges| - 1];
      AbsorbAll(RedirectsOf(merges[..|merges| - 1]), last.absorbed, last.surviving)
  }

  lemma ActiveMergesMembers(log: Log)
    ensures forall e :: e in ActiveMerges(log) <==> e in log && e.EntityMerged? && e.eventId !in RevertedIds(log)
  {
    Sorting.SortMembers(Sorting.Filter(log, ActiveMerge(RevertedIds(log))), EventOrder);
  }

  function CanonicalRedirects(log: Log): RedirectMap {
    ActiveMergesMembers(log);
    RedirectsOf(ActiveMerges(log))
  }

  datatype IdentityError = MergeCycle(at: EntityId)

  function CanonicalId(log: Log, id: EntityId): Result<EntityId, IdentityError> {
    var m := CanonicalRedirects(log);
    var end := Chase(m, id);
    if end in m then Err(MergeCycle(end)) else Ok(end)
  }

  // ----- the throwing reader

  method BuildRedirects(merges: seq<DomainEvent>) returns (redirects: RedirectMap)
    requires forall e :: e in merges ==> e.EntityMerged?
    ensures redirects == RedirectsOf(merges)
  {
    redirects := map[];
    for i := 0 to |merges|
      invariant redirects == RedirectsOf(merges[..i])
    {
      var event := merges[i];
      ghost var before := redirects;
      for j := 0 to |event.absorbed|
        invariant redirects == AbsorbAll(before, event.absorbed[..j], event.surviving)
      {
        redirects := redirects[event.absorbed[j] := event.surviving];
        assert event.absorbed[..j + 1][..j] == event.absorbed[..j];
      }
      assert event.absorbed[..|event.absorbed|] == event.absorbed;
      assert merges[..i + 1][..i] == merges[..i];
    }
    assert merges[..|merges|] == merges;
  }

  /** `followed` counts the redirects taken. */
  method CanonicalEntityIdFromEvents(log: Log, entityId: EntityId)
    returns (r: Result<EntityId, IdentityError>, followed: nat)
    ensures r == CanonicalId(log, entityId)
    ensures followed == Hops(CanonicalRedirects(log), entityId)
  {
    ActiveMergesMembers(log);
    var redirects := BuildRedirects(ActiveMerges(log));
    var current := entityId;
    var seen: set<EntityId> := {};
    followed := 0;
    assert redirects - {} == redirects;
    while current in redirects
      invariant seen <= redirects.Keys
      invariant Chase(redirects - seen, current) == Chase(redirects, entityId)
      invariant followed + Hops(redirects - seen, current) == Hops(redirects, entityId)
      decreases redirects.Keys - seen
    {
      if current in seen {
        return Err(MergeCycle(current)), followed;
      }
      assert redirects - seen - {current} == redirects - (seen + {current});
      seen := seen + {current};
      current := redirects[current];
      followed := followed + 1;
    }
    r := Ok(current);
  }

  // ----- the projection's reader

  predicate IsClaimEvent(event: DomainEvent) {
    event.ClaimAsserted? || event.ClaimRetracted?
  }

  predicate IsIdentityEvent(event: DomainEvent) {
    event.EntityMerged? || event.MergeReverted?
  }

  predicate IsRelevant(event: DomainEvent) {
    IsClaimEvent(event) || IsIdentityEvent(event)
  }

  function RelevantEvents(log: Log): Log {
    Sorting.SortBy(Sorting.Filter(log, IsRelevant), EventOrder)
  }

  /** The redirect table the projection builds, event by event, skipping reverted merges. */
  function ResolverRedirects(events: Log): RedirectMap {
    RedirectsOf(Sorting.Filter(events, ActiveMerge(RevertedIds(events))))
  }

  /** The projection's resolver as a function. */
  function Resolve(events: Log, id: EntityId): EntityId {
    Chase(ResolverRedirects(events), id)
  }

  method BuildResolver(events: Log) returns (redirects: RedirectMap)
    ensures redirects == ResolverRedirects(events)
  {
    var reverted: set<EventId> := {};
    for i := 0 to |events|
      invariant reverted == RevertedIds(events[..i])
    {
      if events[i].MergeReverted? {
        reverted := reverted + {events[i].mergeEventId};
      }
      RevertedAppend(events[..i], events[i]);
      assert events[..i + 1] == events[..i] + [events[i]];
    }
    assert events[..|events|] == events;
    ghost var keep := ActiveMerge(reverted);
    redirects := map[];
    for i := 0 to |events|
      invariant redirects == RedirectsOf(Sorting.Filter(events[..i], keep))
    {
      var event := events[i];
      assert events[..i + 1][..i] == events[..i];
      if event.EntityMerged? && event.eventId !in reverted {
        ghost var before := redirects;
        for j := 0 to |event.absorbed|
          invariant redirects == AbsorbAll(before, event.absorbed[..j], event.surviving)
        {
          redirects := redirects[event.absorbed[j] := event.surviving];
          assert event.absorbed[..j + 1][..j] == event.absorbed[..j];
        }
        assert event.absorbed[..|event.absorbed|] == event.absorbed;
        ghost var kept := Sorting.Filter(events[..i], keep);
        assert Sorting.Filter(events[..i + 1], keep) == kept + [event];
        assert (kept + [event])[..|kept|] == kept;
      }
    }
  }

  lemma RevertedAppend(log: Log, e: DomainEvent)
    ensures RevertedIds(log + [e]) == RevertedIds(log) + if e.MergeReverted? then {e.mergeEventId} else {}
  {
    forall x | x in RevertedIds(log) + (if e.MergeReverted? then {e.mergeEventId} else {})
      ensures x in RevertedIds(log + [e])
    {
      if x in RevertedIds(log) {
        var f :| f in log && f.MergeReverted? && f.mergeEventId == x;
        assert f in log + [e];
      } else {
        assert e in log + [e];
      }
    }
  }

  /** Chases one id and stops, without failing, at the first id it meets twice. */
  method ResolveEntity(redirects: RedirectMap, id: EntityId) returns (r: EntityId)
    ensures r == Chase(redirects, id)
  {
    r := id;
    var seen: set<EntityId> := {};
    assert redirects - {} == redirects;
    while r !in seen
      invariant seen <= redirects.Keys
      invariant Chase(redirects - seen, r) == Chase(redirects, id)
      decreases redirects.Keys - seen
    {
      if r !in redirects {
        return;
      }
      assert redirects - seen - {r} == redirects - (seen + {r});
      seen := seen + {r};
      r := redirects[r];
    }
  }

  // ----- both readers read the same redirects

  lemma EventOrderIsTotal()
    ensures Sorting.TotalPreorder(EventOrder)
  {}

  lemma DistinctIdsAntisymmetric(log: Log)
    requires DistinctIds(log)
    ensures Sorting.Antisymmetric(log, EventOrder)
  {
    forall a, b | a in log && b in log && EventOrder(a, b) && EventOrder(b, a) ensures a == b {
      var i :| 0 <= i < |log| && log[i] == a;
      var j :| 0 <= j < |log| && log[j] == b;
      assert a.eventId == b.eventId;
    }
  }

  lemma RevertedIdsSameMembers(a: Log, b: Log)
    requires forall e: DomainEvent :: e.MergeReverted? ==> (e in a <==> e in b)
    ensures RevertedIds(a) == RevertedIds(b)
  {
    forall x ensures x in RevertedIds(a) <==> x in RevertedIds(b) {
      if x in RevertedIds(a) {
        var e :| e in a && e.MergeReverted? && e.mergeEventId == x;
        assert e in b;
      }
      if x in RevertedIds(b) {
        var e :| e in b && e.MergeReverted? && e.mergeEventId == x;
        assert e in a;
      }
    }
  }

  lemma RelevantMembers(log: Log)
    ensures forall e :: e in RelevantEvents(log) <==> e in log && IsRelevant(e)
  {
    Sorting.SortMembers(Sorting.Filter(log, IsRelevant), EventOrder);
  }

  /** On every log, cyclic or not, the projection and the knowledge capability read one redirect table. */
  lemma ReadersShareRedirects(log: Log)
    requires DistinctIds(log)
    ensures ResolverRedirects(RelevantEvents(log)) == CanonicalRedirects(log)
  {
    var events := RelevantEvents(log);
    RelevantMembers(log);
    RevertedIdsSameMembers(events, log);
    var active := ActiveMerge(RevertedIds(log));
    EventOrderIsTotal();
    DistinctIdsAntisymmetric(log);
    var relevant := Sorting.Filter(log, IsRelevant);
    assert Sorting.Antisymmetric(relevant, EventOrder);
    Sorting.FilterSortCommute(relevant, active, EventOrder);
    Sorting.FilterNested(log, IsRelevant, active, active);
    assert Sorting.Filter(events, active) == ActiveMerges(log);
    ActiveMergesMembers(log);
  }

  /** The projection's resolver agrees with the throwing reader whenever that one answers, and otherwise
      returns the very entity the error names. */
  lemma ReadersAgree(log: Log, id: EntityId)
    requires DistinctIds(log)
    ensures CanonicalId(log, id) ==
            var r := Resolve(RelevantEvents(log), id);
            if r in CanonicalRedirects(log) then Err(MergeCycle(r)) else Ok(r)
  {
    ReadersShareRedirects(log);
  }

  /** The throwing reader fails exactly when the entity's redirects run into a cycle. */
  lemma FailsIffCycle(log: Log, id: EntityId)
    ensures CanonicalId(log, id).Err? <==>
            exists y :: Reaches(CanonicalRedirects(log), id, y) && OnCycle(CanonicalRedirects(log), y)
    ensures CanonicalId(log, id).Err? ==> OnCycle(CanonicalRedirects(log), CanonicalId(log, id).error.at)
  {
    ChaseStuckIffCycle(CanonicalRedirects(log), id);
  }

  /** The order in which a store happens to list its events is irrelevant. */
  lemma PermutationInvariant(log: Log, other: Log)
    requires DistinctIds(log) && multiset(log) == multiset(other)
    ensures CanonicalRedirects(log) == CanonicalRedirects(other)
    ensures forall id :: CanonicalId(log, id) == CanonicalId(other, id)
  {
    SameMembers(log, other);
    RevertedIdsSameMembers(log, other);
    var active := ActiveMerge(RevertedIds(log));
    var a, b := Sorting.Filter(log, active), Sorting.Filter(other, active);
    forall e ensures multiset(a)[e] == multiset(b)[e] {
      Sorting.FilterCounts(log, active, e);
      Sorting.FilterCounts(other, active, e);
    }
    EventOrderIsTotal();
    DistinctIdsAntisymmetric(log);
    assert Sorting.Antisymmetric(a, EventOrder);
    Sorting.SortForgetsOrder(a, b, EventOrder);
    assert ActiveMerges(log) == ActiveMerges(other);
    ActiveMergesMembers(log);
  }

  lemma SameMembers<T>(a: seq<T>, b: seq<T>)
    requires multiset(a) == multiset(b)
    ensures forall x :: x in a <==> x in b
  {
    forall x ensures x in a <==> x in b {
      assert x in a <==> x in multiset(a);
      assert x in b <==> x in multiset(b);
    }
  }

  // ----- redirects, order forgotten

  /** Some unreverted merge sends `x` to `s`. */
  ghost predicate Redirected(log: Log, x: EntityId, s: EntityId) {
    exists e :: ActiveAbsorbs(log, e, x) && e.surviving == s
  }

  ghost predicate ActiveAbsorbs(log: Log, m: DomainEvent, x: EntityId) {
    m in log && m.EntityMerged? && m.eventId !in RevertedIds(log) && x in m.absorbed
  }

  /** Each entity is absorbed by at most one active merge. */
  ghost predicate OneActiveAbsorber(log: Log) {
    forall m, n, x :: ActiveAbsorbs(log, m, x) && ActiveAbsorbs(log, n, x) ==> m == n
  }

  lemma {:induction false} AbsorbAllAt(m: RedirectMap, absorbed: seq<EntityId>, surviving: EntityId, x: EntityId)
    ensures var r := AbsorbAll(m, absorbed, surviving);
            (x in r <==> x in absorbed || x in m) &&
            (x in r ==> r[x] == if x in absorbed then surviving else m[x])
  {
    if absorbed != [] {
      AbsorbAllAt(m, absorbed[..|absorbed| - 1], surviving, x);
      assert absorbed == absorbed[..|absorbed| - 1] + [absorbed[|absorbed| - 1]];
    }
  }

  lemma {:induction false} RedirectsOfAt(merges: seq<DomainEvent>, x: EntityId)
    requires forall e :: e in merges ==> e.EntityMerged?
    ensures x in RedirectsOf(merges) <==> exists e :: e in merges && x in e.absorbed
    ensures x in RedirectsOf(merges) ==>
              exists e :: e in merges && x in e.absorbed && e.surviving == RedirectsOf(merges)[x]
  {
    if merges != [] {
      var front, last := merges[..|merges| - 1], merges[|merges| - 1];
      RedirectsOfAt(front, x);
      AbsorbAllAt(RedirectsOf(front), last.absorbed, last.surviving, x);
      assert merges == front + [last];
      assert last in merges;
      if x in RedirectsOf(front) {
        var e :| e in front && x in e.absorbed && e.surviving == RedirectsOf(front)[x];
        assert e in merges;
      }
    }
  }

  lemma CanonicalRedirectsAt(log: Log, x: EntityId)
    ensures x in CanonicalRedirects(log) <==> exists s :: Redirected(log, x, s)
    ensures x in CanonicalRedirects(log) ==> Redirected(log, x, CanonicalRedirects(log)[x])
  {
    ActiveMergesMembers(log);
    var merges := ActiveMerges(log);
    RedirectsOfAt(merges, x);
    if x in RedirectsOf(merges) {
      var e :| e in merges && x in e.absorbed && e.surviving == RedirectsOf(merges)[x];
      assert ActiveAbsorbs(log, e, x);
      assert Redirected(log, x, e.surviving);
    }
    if s :| Redirected(log, x, s) {
      var e :| ActiveAbsorbs(log, e, x) && e.surviving == s;
      assert e in merges;
    }
  }

  lemma {:induction false} LastMergeDecides(merges: seq<DomainEvent>, x: EntityId)
    requires forall e :: e in merges ==> e.EntityMerged?
    requires x in RedirectsOf(merges)
    ensures exists i :: 0 <= i < |merges| && x in merges[i].absorbed && merges[i].surviving == RedirectsOf(merges)[x] &&
                        forall j :: i < j < |merges| ==> x !in merges[j].absorbed
  {
    var front, last := merges[..|merges| - 1], merges[|merges| - 1];
    AbsorbAllAt(RedirectsOf(front), last.absorbed, last.surviving, x);
    if x in last.absorbed {
      assert merges[|merges| - 1] == last;
    } else {
      LastMergeDecides(front, x);
      var i :| 0 <= i < |front| && x in front[i].absorbed && front[i].surviving == RedirectsOf(front)[x] &&
               forall j :: i < j < |front| ==> x !in front[j].absorbed;
      assert merges[i] == front[i];
      assert forall j :: i < j < |front| ==> merges[j] == front[j];
    }
  }

  /** Merge `e` absorbs `x` and no event of the log reverts it. */
  ghost predicate AbsorbsUnreverted(log: Log, e: DomainEvent, x: EntityId) {
    && e in log && e.EntityMerged? && x in e.absorbed
    && forall r :: r in log && r.MergeReverted? ==> r.mergeEventId != e.eventId
  }

  lemma ActiveIsUnreverted(log: Log, e: DomainEvent, x: EntityId)
    ensures e in ActiveMerges(log) && e.EntityMerged? && x in e.absorbed <==> AbsorbsUnreverted(log, e, x)
  {
    ActiveMergesMembers(log);
  }

  lemma MergesInOrder(log: Log, i: nat, j: nat)
    requires i < j < |ActiveMerges(log)|
    ensures EventOrder(ActiveMerges(log)[i], ActiveMerges(log)[j])
  {
    EventOrderIsTotal();
    Sorting.SortOrders(Sorting.Filter(log, ActiveMerge(RevertedIds(log))), EventOrder);
  }

  lemma LatestAbsorber(log: Log, x: EntityId) returns (e: DomainEvent)
    requires x in CanonicalRedirects(log)
    ensures AbsorbsUnreverted(log, e, x) && e.surviving == CanonicalRedirects(log)[x]
    ensures forall f :: AbsorbsUnreverted(log, f, x) ==> f == e || EventOrder(f, e)
  {
    var merges := ActiveMerges(log);
    ActiveMergesMembers(log);
    LastMergeDecides(merges, x);
    var i :| 0 <= i < |merges| && x in merges[i].absorbed && merges[i].surviving == RedirectsOf(merges)[x] &&
             forall j :: i < j < |merges| ==> x !in merges[j].absorbed;
    e := merges[i];
    ActiveIsUnreverted(log, e, x);
    forall f | AbsorbsUnreverted(log, f, x) ensures f == e || EventOrder(f, e) {
      ActiveIsUnreverted(log, f, x);
      var j :| 0 <= j < |merges| && merges[j] == f;
      if j < i { MergesInOrder(log, j, i); }
    }
  }

  /** Of all the unreverted merges that absorb an entity, the latest decides where it goes; of merges of one instant,
      the one of the greatest event id. */
  lemma LatestMergeDecides(log: Log, x: EntityId)
    ensures x in CanonicalRedirects(log) <==> exists e :: AbsorbsUnreverted(log, e, x)
    ensures x in CanonicalRedirects(log) ==>
              exists e :: AbsorbsUnreverted(log, e, x) && e.surviving == CanonicalRedirects(log)[x] &&
                          forall f :: AbsorbsUnreverted(log, f, x) ==>
                            f.occurredAt < e.occurredAt || (f.occurredAt == e.occurredAt && f.eventId <= e.eventId)
  {
    if x in CanonicalRedirects(log) {
      var e := LatestAbsorber(log, x);
    } else if e :| AbsorbsUnreverted(log, e, x) {
      ActiveIsUnreverted(log, e, x);
      ActiveMergesMembers(log);
      RedirectsOfAt(ActiveMerges(log), x);
    }
  }

  /** With one absorber per entity the redirect table is just the relation `Redirected`. */
  lemma RedirectedIff(log: Log, x: EntityId, s: EntityId)
    requires OneActiveAbsorber(log)
    ensures Redirected(log, x, s) <==> x in CanonicalRedirects(log) && CanonicalRedirects(log)[x] == s
  {
    CanonicalRedirectsAt(log, x);
  }

  lemma RedirectsAre(log: Log, m: RedirectMap)
    requires forall x, s :: Redirected(log, x, s) <==> x in m && m[x] == s
    ensures CanonicalRedirects(log) == m
  {
    var r := CanonicalRedirects(log);
    forall x ensures x in r <==> x in m
             ensures x in r ==> r[x] == m[x] {
      CanonicalRedirectsAt(log, x);
      if x in m {
        assert Redirected(log, x, m[x]);
      }
    }
  }

  /** Only merges and reverts matter to the redirect table. */
  lemma IdentityEventsDecide(log: Log)
    ensures CanonicalRedirects(log) == CanonicalRedirects(Sorting.Filter(log, IsIdentityEvent))
  {
    var identity := Sorting.Filter(log, IsIdentityEvent);
    RevertedIdsSameMembers(log, identity);
    var active := ActiveMerge(RevertedIds(log));
    Sorting.FilterNested(log, IsIdentityEvent, active, active);
    assert ActiveMerges(log) == ActiveMerges(identity);
  }
}
