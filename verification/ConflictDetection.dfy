/** The conflict detector's passes over claims: indexing rules by term, grouping claims by canonical
    subject and rule, and collecting each group's maximal violating sets. */
module ConflictDetection {
  import opened Kernel
  import opened Redirects
  import opened Conflicts
  import Sorting

  function AsSet(s: seq<Claim>): set<Claim> {
    set c | c in s
  }

  function ClaimIdsOf(s: seq<Claim>): seq<ClaimId> {
    seq(|s|, i requires 0 <= i < |s| => s[i].id)
  }

  ghost predicate ById(s: seq<Claim>) {
    forall i, j :: 0 <= i < j < |s| ==> s[i].id < s[j].id
  }

  predicate IdOrder(left: Claim, right: Claim) {
    left.id <= right.id
  }

  function IsActiveAt(at: Timestamp): Claim -> bool {
    (c: Claim) => ActiveAt(c, at)
  }

  ghost predicate DistinctClaims(s: seq<Claim>) {
    forall i, j :: 0 <= i < j < |s| ==> s[i].id != s[j].id
  }

  // ----- lists in id order

  lemma {:induction false} ByIdLength(s: seq<Claim>)
    requires DistinctClaims(s)
    ensures |AsSet(s)| == |s|
  {
    if s != [] {
      var front, last := s[..|s| - 1], s[|s| - 1];
      ByIdLength(front);
      assert s == front + [last];
      assert AsSet(s) == AsSet(front) + {last};
      assert last !in AsSet(front);
    }
  }

  lemma SameLast(a: seq<Claim>, b: seq<Claim>)
    requires ById(a) && ById(b) && AsSet(a) == AsSet(b) && a != [] && b != []
    ensures a[|a| - 1] == b[|b| - 1]
  {
    assert a[|a| - 1] in AsSet(b) && b[|b| - 1] in AsSet(a);
    var i :| 0 <= i < |b| && b[i] == a[|a| - 1];
    var j :| 0 <= j < |a| && a[j] == b[|b| - 1];
  }

  lemma SameFronts(a: seq<Claim>, b: seq<Claim>)
    requires ById(a) && ById(b) && AsSet(a) == AsSet(b) && a != [] && b != [] && a[|a| - 1] == b[|b| - 1]
    ensures AsSet(a[..|a| - 1]) == AsSet(b[..|b| - 1])
  {
    var s, t := a[..|a| - 1], b[..|b| - 1];
    forall c ensures c in AsSet(s) <==> c in AsSet(t) {
      ByIdFront(a, c);
      ByIdFront(b, c);
    }
  }

  lemma {:induction false} ByIdUnique(a: seq<Claim>, b: seq<Claim>)
    requires ById(a) && ById(b) && AsSet(a) == AsSet(b)
    ensures a == b
    decreases |a|
  {
    ByIdLength(a);
    ByIdLength(b);
    if a != [] {
      SameLast(a, b);
      SameFronts(a, b);
      ByIdUnique(a[..|a| - 1], b[..|b| - 1]);
      assert a == a[..|a| - 1] + [a[|a| - 1]] && b == b[..|b| - 1] + [b[|b| - 1]];
    }
  }

  lemma ByIdFront(s: seq<Claim>, c: Claim)
    requires ById(s) && s != []
    ensures c in AsSet(s[..|s| - 1]) <==> c in AsSet(s) && c != s[|s| - 1]
  {
    assert s == s[..|s| - 1] + [s[|s| - 1]];
  }

  lemma {:induction false} FilterDistinct(s: seq<Claim>, keep: Claim -> bool)
    requires DistinctClaims(s)
    ensures DistinctClaims(Sorting.Filter(s, keep))
  {
    if s != [] {
      var front, last := s[..|s| - 1], s[|s| - 1];
      FilterDistinct(front, keep);
      forall c | c in Sorting.Filter(front, keep) ensures c.id != last.id {
        var i :| 0 <= i < |front| && front[i] == c;
        assert s[i] == c;
      }
    }
  }

  lemma DistinctIsUnique(s: seq<Claim>)
    requires DistinctClaims(s)
    ensures UniqueIds(AsSet(s))
  {
    forall c, d | c in AsSet(s) && d in AsSet(s) && c.id == d.id ensures c == d {
      var i :| 0 <= i < |s| && s[i] == c;
      var j :| 0 <= j < |s| && s[j] == d;
    }
  }

  /** Sorting a list of distinct claims by id. */
  lemma SortedById(s: seq<Claim>)
    requires DistinctClaims(s)
    ensures ById(Sorting.SortBy(s, IdOrder)) && AsSet(Sorting.SortBy(s, IdOrder)) == AsSet(s)
  {
    var r := Sorting.SortBy(s, IdOrder);
    Sorting.SortMembers(s, IdOrder);
    Sorting.SortOrders(s, IdOrder);
    ByIdLength(s);
    assert AsSet(r) == AsSet(s);
    DistinctIsUnique(s);
    forall i, j | 0 <= i < j < |r| ensures r[i].id < r[j].id {
      if r[i].id == r[j].id {
        assert r[i] in AsSet(s) && r[j] in AsSet(s);
        SortedRepeat(r, i, j);
      }
    }
  }

  lemma SortedRepeat(r: seq<Claim>, i: nat, j: nat)
    requires i < j < |r| && r[i] == r[j]
    ensures |AsSet(r)| < |r|
  {
    var shorter := r[..i] + r[i + 1..];
    assert AsSet(r) == AsSet(shorter) by {
      forall c | c in r ensures c in shorter {
        var k :| 0 <= k < |r| && r[k] == c;
        if k < i {
          assert shorter[k] == c;
        } else if k > i {
          assert shorter[k - 1] == c;
        } else {
          assert shorter[j - 1] == c;
        }
      }
    }
    SetNotLonger(shorter);
  }

  lemma {:induction false} SetNotLonger(s: seq<Claim>)
    ensures |AsSet(s)| <= |s|
  {
    if s != [] {
      var front, last := s[..|s| - 1], s[|s| - 1];
      SetNotLonger(front);
      assert s == front + [last];
      assert AsSet(s) == AsSet(front) + {last};
    }
  }

  // ----- representatives

  /** Scanning in id order, the first claim of each key so far. */
  ghost predicate FirstsSoFar(m: RedirectMap, prefix: seq<Claim>, representatives: map<ObjectKey, Claim>,
                              values: seq<Claim>) {
    && (forall c :: c in prefix ==> CanonicalObjectKey(m, c) in representatives)
    && (forall k :: k in representatives ==>
          representatives[k] in values && CanonicalObjectKey(m, representatives[k]) == k)
    && (forall c :: c in values ==>
          c in prefix && CanonicalObjectKey(m, c) in representatives && representatives[CanonicalObjectKey(m, c)] == c)
    && (forall c :: c in prefix ==> representatives[CanonicalObjectKey(m, c)].id <= c.id)
    && ById(values)
  }

  lemma FirstsAppend(m: RedirectMap, prefix: seq<Claim>, representatives: map<ObjectKey, Claim>, values: seq<Claim>,
                     claim: Claim)
    requires FirstsSoFar(m, prefix, representatives, values) && CanonicalObjectKey(m, claim) !in representatives
    requires forall c :: c in prefix ==> c.id < claim.id
    ensures FirstsSoFar(m, prefix + [claim], representatives[CanonicalObjectKey(m, claim) := claim], values + [claim])
  {
    assert ById(values + [claim]) by {
      forall k | 0 <= k < |values| ensures values[k].id < claim.id {
        assert values[k] in values;
      }
    }
  }

  lemma FirstsSkip(m: RedirectMap, prefix: seq<Claim>, representatives: map<ObjectKey, Claim>, values: seq<Claim>,
                   claim: Claim)
    requires FirstsSoFar(m, prefix, representatives, values) && CanonicalObjectKey(m, claim) in representatives
    requires forall c :: c in prefix ==> c.id < claim.id
    ensures FirstsSoFar(m, prefix + [claim], representatives, values)
  {}

  /** The active claims in id order, and the first of each key among them. */
  method ScanActive(m: RedirectMap, claims: seq<Claim>, at: Timestamp)
    returns (ghost sorted: seq<Claim>, representatives: map<ObjectKey, Claim>, values: seq<Claim>)
    requires DistinctClaims(claims)
    ensures AsSet(sorted) == AsSet(Sorting.Filter(claims, IsActiveAt(at)))
    ensures FirstsSoFar(m, sorted, representatives, values)
  {
    var active := Sorting.Filter(claims, IsActiveAt(at));
    FilterDistinct(claims, IsActiveAt(at));
    SortedById(active);
    var order := Sorting.SortBy(active, IdOrder);
    sorted, representatives, values := order, map[], [];
    for i := 0 to |order|
      invariant FirstsSoFar(m, order[..i], representatives, values)
    {
      var claim := order[i];
      var key := CanonicalObjectKey(m, claim);
      assert order[..i + 1] == order[..i] + [claim];
      if key in representatives {
        FirstsSkip(m, order[..i], representatives, values, claim);
      } else {
        FirstsAppend(m, order[..i], representatives, values, claim);
        representatives := representatives[key := claim];
        values := values + [claim];
      }
    }
    assert order[..|order|] == order;
  }

  method RepresentativesAt(m: RedirectMap, claims: seq<Claim>, at: Timestamp) returns (conflicting: seq<Claim>)
    requires DistinctClaims(claims)
    ensures ById(conflicting) && AsSet(conflicting) == Representatives(m, AsSet(claims), at)
    ensures |conflicting| == |AsSet(conflicting)|
  {
    ghost var sorted;
    var representatives, values;
    sorted, representatives, values := ScanActive(m, claims, at);
    FirstsAreRepresentatives(m, claims, at, sorted, representatives, values);
    SortedById(values);
    conflicting := Sorting.SortBy(values, IdOrder);
    ByIdLength(conflicting);
  }

  lemma FirstsAreRepresentatives(m: RedirectMap, claims: seq<Claim>, at: Timestamp, sorted: seq<Claim>,
                                 representatives: map<ObjectKey, Claim>, values: seq<Claim>)
    requires DistinctClaims(claims) && FirstsSoFar(m, sorted, representatives, values)
    requires AsSet(sorted) == AsSet(Sorting.Filter(claims, IsActiveAt(at)))
    ensures AsSet(values) == Representatives(m, AsSet(claims), at)
  {
    assert forall c :: c in sorted <==> c in AsSet(sorted);
    assert forall c :: c in sorted <==> c in claims && ActiveAt(c, at);
    DistinctIsUnique(claims);
    forall c | c in Representatives(m, AsSet(claims), at) ensures c in values {
      var r := representatives[CanonicalObjectKey(m, c)];
      assert r in values && r in sorted;
      assert r.id == c.id;
    }
  }

  // ----- maximal violating sets

  type Candidates = map<seq<ClaimId>, seq<Claim>>

  ghost predicate Listed(candidates: Candidates, s: set<Claim>) {
    exists k :: k in candidates && AsSet(candidates[k]) == s
  }

  ghost predicate Entry(m: RedirectMap, all: set<Claim>, max: int, times: set<Timestamp>, key: seq<ClaimId>,
                        list: seq<Claim>) {
    key == ClaimIdsOf(list) && ById(list) && FromInstant(m, all, max, times, AsSet(list))
  }

  /** The candidate table after the given instants: exactly their violating sets. */
  ghost predicate Collected(m: RedirectMap, all: set<Claim>, max: int, times: set<Timestamp>, candidates: Candidates) {
    && (forall k :: k in candidates ==> Entry(m, all, max, times, k, candidates[k]))
    && (forall s :: FromInstant(m, all, max, times, s) ==> Listed(candidates, s))
  }

  lemma SameIdsSameClaims(claims: set<Claim>, a: seq<Claim>, b: seq<Claim>)
    requires UniqueIds(claims) && AsSet(a) <= claims && AsSet(b) <= claims && ClaimIdsOf(a) == ClaimIdsOf(b)
    ensures a == b
  {
    assert |a| == |ClaimIdsOf(a)| == |b|;
    forall i | 0 <= i < |a| ensures a[i] == b[i] {
      assert ClaimIdsOf(a)[i] == a[i].id && ClaimIdsOf(b)[i] == b[i].id;
      assert a[i] in AsSet(a) && b[i] in AsSet(b);
    }
  }

  lemma MoreInstants(m: RedirectMap, all: set<Claim>, max: int, times: set<Timestamp>, at: Timestamp, s: set<Claim>)
    ensures FromInstant(m, all, max, times + {at}, s) <==>
            FromInstant(m, all, max, times, s) || (|s| > max && s == Representatives(m, all, at))
  {
    assert at in times + {at};
  }

  lemma FromInstantSubset(m: RedirectMap, all: set<Claim>, max: int, times: set<Timestamp>, s: set<Claim>)
    requires FromInstant(m, all, max, times, s)
    ensures s <= all
  {}

  lemma SkipInstant(m: RedirectMap, all: set<Claim>, max: int, times: set<Timestamp>, candidates: Candidates,
                    at: Timestamp)
    requires Collected(m, all, max, times, candidates) && |Representatives(m, all, at)| <= max
    ensures Collected(m, all, max, times + {at}, candidates)
  {
    forall s { MoreInstants(m, all, max, times, at, s); }
  }

  lemma AddInstant(m: RedirectMap, all: set<Claim>, max: int, times: set<Timestamp>, candidates: Candidates,
                   at: Timestamp, list: seq<Claim>)
    requires UniqueIds(all) && Collected(m, all, max, times, candidates)
    requires ById(list) && AsSet(list) == Representatives(m, all, at) && |AsSet(list)| > max
    ensures Collected(m, all, max, times + {at}, candidates[ClaimIdsOf(list) := list])
  {
    var key := ClaimIdsOf(list);
    var candidates' := candidates[key := list];
    forall s { MoreInstants(m, all, max, times, at, s); }
    forall s | FromInstant(m, all, max, times + {at}, s) ensures Listed(candidates', s) {
      if FromInstant(m, all, max, times, s) {
        var k :| k in candidates && AsSet(candidates[k]) == s;
        if k == key {
          FromInstantSubset(m, all, max, times, s);
          SameIdsSameClaims(all, candidates[k], list);
        }
        assert AsSet(candidates'[k]) == s;
      } else {
        assert key in candidates';
      }
    }
  }

  /** One candidate set per start time with too many representatives, keyed by its claim ids. */
  method CollectCandidates(m: RedirectMap, claims: seq<Claim>, max: int) returns (candidates: Candidates)
    requires DistinctClaims(claims)
    ensures Collected(m, AsSet(claims), max, StartTimes(AsSet(claims)), candidates)
  {
    candidates := map[];
    var todo := StartTimes(AsSet(claims));
    ghost var all, done: set<Timestamp> := AsSet(claims), {};
    DistinctIsUnique(claims);
    while todo != {}
      invariant done !! todo && done + todo == StartTimes(all)
      invariant Collected(m, all, max, done, candidates)
    {
      var at :| at in todo;
      var conflicting := RepresentativesAt(m, claims, at);
      if |conflicting| <= max {
        SkipInstant(m, all, max, done, candidates, at);
      } else {
        AddInstant(m, all, max, done, candidates, at, conflicting);
        candidates := candidates[ClaimIdsOf(conflicting) := conflicting];
      }
      todo, done := todo - {at}, done + {at};
    }
  }

  /** A longer set that holds every claim of this one, compared by id as the source does. */
  predicate CoveredBy(candidate: seq<Claim>, other: seq<Claim>) {
    |other| > |candidate| && forall c :: c in candidate ==> HasId(other, c.id)
  }

  predicate HasId(list: seq<Claim>, id: ClaimId) {
    exists d :: d in list && d.id == id
  }

  lemma CoveredMeansSubset(all: set<Claim>, candidate: seq<Claim>, other: seq<Claim>)
    requires UniqueIds(all) && AsSet(candidate) <= all && AsSet(other) <= all
    requires ById(candidate) && ById(other)
    ensures CoveredBy(candidate, other) <==> |AsSet(other)| > |AsSet(candidate)| && AsSet(candidate) <= AsSet(other)
  {
    ByIdLength(candidate);
    ByIdLength(other);
    forall c | c in candidate ensures HasId(other, c.id) <==> c in AsSet(other) {
      assert c in AsSet(candidate);
      if HasId(other, c.id) {
        var d :| d in other && d.id == c.id;
        assert d in AsSet(other);
      }
    }
  }

  predicate CoveredAmong(candidates: Candidates, candidate: seq<Claim>) {
    exists o :: o in candidates.Keys && CoveredBy(candidate, candidates[o])
  }

  lemma CoveredAmongIffDominated(m: RedirectMap, all: set<Claim>, max: int, candidates: Candidates, k: seq<ClaimId>)
    requires UniqueIds(all) && Collected(m, all, max, StartTimes(all), candidates) && k in candidates
    ensures CoveredAmong(candidates, candidates[k]) <==> Dominated(m, all, max, AsSet(candidates[k]))
  {
    var s := AsSet(candidates[k]);
    FromInstantSubset(m, all, max, StartTimes(all), s);
    if CoveredAmong(candidates, candidates[k]) {
      var o :| o in candidates.Keys && CoveredBy(candidates[k], candidates[o]);
      FromInstantSubset(m, all, max, StartTimes(all), AsSet(candidates[o]));
      CoveredMeansSubset(all, candidates[k], candidates[o]);
      assert IsCandidate(m, all, max, AsSet(candidates[o]));
    }
    if Dominated(m, all, max, s) {
      var t :| IsCandidate(m, all, max, t) && |t| > |s| && s <= t;
      assert Listed(candidates, t);
      var o :| o in candidates && AsSet(candidates[o]) == t;
      FromInstantSubset(m, all, max, StartTimes(all), t);
      CoveredMeansSubset(all, candidates[k], candidates[o]);
    }
  }

  /** The lists kept so far: undominated candidates, each once. */
  ghost predicate Kept(m: RedirectMap, all: set<Claim>, max: int, candidates: Candidates, done: set<seq<ClaimId>>,
                       r: seq<seq<Claim>>) {
    && (forall i :: 0 <= i < |r| ==>
          ClaimIdsOf(r[i]) in done && ClaimIdsOf(r[i]) in candidates && candidates[ClaimIdsOf(r[i])] == r[i] &&
          !Dominated(m, all, max, AsSet(r[i])))
    && (forall k :: k in done && k in candidates && !Dominated(m, all, max, AsSet(candidates[k])) ==>
          candidates[k] in r)
    && (forall i, j :: 0 <= i < j < |r| ==> ClaimIdsOf(r[i]) != ClaimIdsOf(r[j]))
  }

  lemma KeptStep(m: RedirectMap, all: set<Claim>, max: int, candidates: Candidates, done: set<seq<ClaimId>>,
                 r: seq<seq<Claim>>, k: seq<ClaimId>)
    requires Kept(m, all, max, candidates, done, r) && k in candidates && k !in done
    requires ClaimIdsOf(candidates[k]) == k
    ensures if Dominated(m, all, max, AsSet(candidates[k])) then Kept(m, all, max, candidates, done + {k}, r)
            else Kept(m, all, max, candidates, done + {k}, r + [candidates[k]])
  {
    forall i | 0 <= i < |r| ensures ClaimIdsOf(r[i]) != k {}
  }

  method KeepUnlessCovered(ghost m: RedirectMap, ghost all: set<Claim>, ghost max: int, candidates: Candidates,
                           ghost done: set<seq<ClaimId>>, r: seq<seq<Claim>>, k: seq<ClaimId>)
    returns (kept: seq<seq<Claim>>)
    requires UniqueIds(all) && Collected(m, all, max, StartTimes(all), candidates)
    requires Kept(m, all, max, candidates, done, r) && k in candidates && k !in done
    ensures Kept(m, all, max, candidates, done + {k}, kept)
  {
    KeepOrDrop(m, all, max, candidates, done, r, k);
    kept := if CoveredAmong(candidates, candidates[k]) then r else r + [candidates[k]];
  }

  method KeepUndominated(ghost m: RedirectMap, ghost all: set<Claim>, ghost max: int, candidates: Candidates)
    returns (r: seq<seq<Claim>>)
    requires UniqueIds(all) && Collected(m, all, max, StartTimes(all), candidates)
    ensures Kept(m, all, max, candidates, candidates.Keys, r)
  {
    r := [];
    var todo := candidates.Keys;
    KeptNothing(m, all, max, candidates);
    while todo != {}
      invariant todo <= candidates.Keys
      invariant Kept(m, all, max, candidates, candidates.Keys - todo, r)
      decreases |todo|
    {
      var k :| k in todo;
      OneLess(candidates.Keys, todo, k);
      r := KeepUnlessCovered(m, all, max, candidates, candidates.Keys - todo, r, k);
      todo := todo - {k};
    }
    OneLess(candidates.Keys, todo, []);
  }

  lemma OneLess(all: set<seq<ClaimId>>, todo: set<seq<ClaimId>>, k: seq<ClaimId>)
    ensures k in todo && todo <= all ==> all - (todo - {k}) == all - todo + {k}
    ensures todo == {} ==> all - todo == all
  {}

  lemma KeptNothing(m: RedirectMap, all: set<Claim>, max: int, candidates: Candidates)
    ensures Kept(m, all, max, candidates, candidates.Keys - candidates.Keys, [])
  {}

  lemma KeepOrDrop(m: RedirectMap, all: set<Claim>, max: int, candidates: Candidates, done: set<seq<ClaimId>>,
                   r: seq<seq<Claim>>, k: seq<ClaimId>)
    requires UniqueIds(all) && Collected(m, all, max, StartTimes(all), candidates)
    requires Kept(m, all, max, candidates, done, r) && k in candidates && k !in done
    ensures Kept(m, all, max, candidates, done + {k},
                 if CoveredAmong(candidates, candidates[k]) then r else r + [candidates[k]])
  {
    CoveredAmongIffDominated(m, all, max, candidates, k);
    EntryKey(m, all, max, candidates, k);
    KeptStep(m, all, max, candidates, done, r, k);
  }

  lemma EntryKey(m: RedirectMap, all: set<Claim>, max: int, candidates: Candidates, k: seq<ClaimId>)
    requires Collected(m, all, max, StartTimes(all), candidates) && k in candidates
    ensures ClaimIdsOf(candidates[k]) == k
  {
    assert Entry(m, all, max, StartTimes(all), k, candidates[k]);
  }

  method MaximalViolatingSets(m: RedirectMap, claims: seq<Claim>, max: int) returns (r: seq<seq<Claim>>)
    requires DistinctClaims(claims)
    ensures forall i :: 0 <= i < |r| ==> ById(r[i]) && Violating(m, AsSet(claims), max, AsSet(r[i]))
    ensures forall s :: Violating(m, AsSet(claims), max, s) ==> exists i :: 0 <= i < |r| && AsSet(r[i]) == s
    ensures forall i, j :: 0 <= i < j < |r| ==> AsSet(r[i]) != AsSet(r[j])
  {
    var candidates := CollectCandidates(m, claims, max);
    DistinctIsUnique(claims);
    r := KeepUndominated(m, AsSet(claims), max, candidates);
    KeptIsAnswer(m, AsSet(claims), max, candidates, r);
  }

  lemma KeptIsAnswer(m: RedirectMap, all: set<Claim>, max: int, candidates: Candidates, r: seq<seq<Claim>>)
    requires Collected(m, all, max, StartTimes(all), candidates)
    requires Kept(m, all, max, candidates, candidates.Keys, r)
    ensures forall i :: 0 <= i < |r| ==> ById(r[i]) && Violating(m, all, max, AsSet(r[i]))
    ensures forall s :: Violating(m, all, max, s) ==> exists i :: 0 <= i < |r| && AsSet(r[i]) == s
    ensures forall i, j :: 0 <= i < j < |r| ==> AsSet(r[i]) != AsSet(r[j])
  {
    forall i | 0 <= i < |r| ensures ById(r[i]) && Violating(m, all, max, AsSet(r[i])) {
      assert Entry(m, all, max, StartTimes(all), ClaimIdsOf(r[i]), r[i]);
    }
    forall s | Violating(m, all, max, s) ensures exists i :: 0 <= i < |r| && AsSet(r[i]) == s {
      assert Listed(candidates, s);
      var k :| k in candidates && AsSet(candidates[k]) == s;
      assert candidates[k] in r;
    }
    forall i, j | 0 <= i < j < |r| ensures AsSet(r[i]) != AsSet(r[j]) {
      if AsSet(r[i]) == AsSet(r[j]) { ByIdUnique(r[i], r[j]); }
    }
  }
}
