/** Reciprocal rank fusion, over exact scores. */
module Fusion {
  import opened Kernel
  import Sorting

  type Strategy = nat

  datatype Candidate = Candidate(claimId: ClaimId, graphRoute: Option<seq<EntityId>>)

  datatype RankedList = RankedList(strategy: Strategy, candidates: seq<Candidate>)

  datatype Fused = Fused(claimId: ClaimId, score: real, components: map<Strategy, real>,
                         graphRoute: Option<seq<EntityId>>)

  const DEFAULT_RRF_K: nat := 60

  function Contribution(k: nat, index: nat): real {
    1.0 / ((k + index + 1) as real)
  }

  /** One more occurrence of a claim. */
  function Add(existing: Option<Fused>, strategy: Strategy, contribution: real, c: Candidate): Fused {
    if existing.None? then Fused(c.claimId, contribution, map[strategy := contribution], c.graphRoute)
    else Fused(c.claimId, existing.value.score + contribution, existing.value.components[strategy := contribution],
               if c.graphRoute.None? then existing.value.graphRoute else c.graphRoute)
  }

  /** A claim's entry after one more list. */
  function AfterList(start: Option<Fused>, k: nat, strategy: Strategy, candidates: seq<Candidate>,
                     id: ClaimId): Option<Fused> {
    if candidates == [] then start
    else
      var n := |candidates| - 1;
      var before := AfterList(start, k, strategy, candidates[..n], id);
      if candidates[n].claimId == id then Some(Add(before, strategy, Contribution(k, n), candidates[n])) else before
  }

  function AfterLists(lists: seq<RankedList>, k: nat, id: ClaimId): Option<Fused> {
    if lists == [] then None
    else
      var n := |lists| - 1;
      AfterList(AfterLists(lists[..n], k, id), k, lists[n].strategy, lists[n].candidates, id)
  }

  function Better(): (Fused, Fused) -> bool {
    (left: Fused, right: Fused) =>
      left.score > right.score || (left.score == right.score && left.claimId <= right.claimId)
  }

  function IdsOf(ranked: seq<Fused>): seq<ClaimId> {
    seq(|ranked|, i requires 0 <= i < |ranked| => ranked[i].claimId)
  }

  ghost predicate Distinct<T>(s: seq<T>) {
    forall i, j :: 0 <= i < j < |s| ==> s[i] != s[j]
  }

  /** Every fused claim once, best first. */
  ghost predicate Ranking(ranked: seq<Fused>, lists: seq<RankedList>, k: nat) {
    && (forall f :: f in ranked ==> AfterLists(lists, k, f.claimId) == Some(f))
    && (forall id :: AfterLists(lists, k, id).Some? ==> AfterLists(lists, k, id).value in ranked)
    && Distinct(IdsOf(ranked))
    && Sorting.Ordered(ranked, Better())
  }

  // ----- the algorithm

  method FuseList(fused: map<ClaimId, Fused>, list: RankedList, k: nat) returns (added: map<ClaimId, Fused>)
    ensures forall id :: Lookup(added, id) == AfterList(Lookup(fused, id), k, list.strategy, list.candidates, id)
  {
    added := fused;
    for index := 0 to |list.candidates|
      invariant forall id ::
        Lookup(added, id) == AfterList(Lookup(fused, id), k, list.strategy, list.candidates[..index], id)
    {
      var candidate := list.candidates[index];
      assert list.candidates[..index + 1][..index] == list.candidates[..index];
      var contribution := Contribution(k, index);
      var held := Lookup(added, candidate.claimId);
      added := added[candidate.claimId := Add(held, list.strategy, contribution, candidate)];
    }
    assert list.candidates[..|list.candidates|] == list.candidates;
  }

  method ReciprocalRankFuse(lists: seq<RankedList>, k: nat := DEFAULT_RRF_K) returns (ranked: seq<Fused>)
    ensures Ranking(ranked, lists, k)
    ensures forall i, j :: 0 <= i < j < |ranked| ==>
              ranked[i].score > ranked[j].score ||
              (ranked[i].score == ranked[j].score && ranked[i].claimId < ranked[j].claimId)
  {
    var fused: map<ClaimId, Fused> := map[];
    for i := 0 to |lists|
      invariant forall id :: Lookup(fused, id) == AfterLists(lists[..i], k, id)
    {
      assert lists[..i + 1][..i] == lists[..i];
      fused := FuseList(fused, lists[i], k);
    }
    assert lists[..|lists|] == lists;
    forall id ensures id in fused ==> fused[id].claimId == id {
      ScoreIsSum(lists, k, id);
    }
    var values := Values(fused);
    ranked := Sorting.SortBy(values, Better());
    SortRanks(values, fused);
    forall i, j | 0 <= i < j < |ranked| ensures ranked[i].claimId != ranked[j].claimId {
      assert IdsOf(ranked)[i] != IdsOf(ranked)[j];
    }
  }

  ghost predicate ValuesOf(values: seq<Fused>, fused: map<ClaimId, Fused>, visited: set<ClaimId>) {
    && (forall f :: f in values ==> f.claimId in visited && Lookup(fused, f.claimId) == Some(f))
    && (forall id :: id in visited && id in fused ==> fused[id] in values)
    && Distinct(IdsOf(values))
  }

  lemma ValuesNext(values: seq<Fused>, fused: map<ClaimId, Fused>, visited: set<ClaimId>, id: ClaimId)
    requires ValuesOf(values, fused, visited) && id in fused && id !in visited && fused[id].claimId == id
    ensures ValuesOf(values + [fused[id]], fused, visited + {id})
  {
    var next := values + [fused[id]];
    assert next[|values|] == fused[id];
    forall x | x in visited + {id} && x in fused ensures fused[x] in next {
      assert x != id ==> fused[x] in values;
    }
    forall i, j | 0 <= i < j < |next| ensures IdsOf(next)[i] != IdsOf(next)[j] {
      assert next[i] == values[i] && values[i] in values;
      assert IdsOf(values)[i] == values[i].claimId;
      if j < |values| {
        assert IdsOf(values)[j] == values[j].claimId;
      }
    }
  }

  method Values(fused: map<ClaimId, Fused>) returns (values: seq<Fused>)
    requires forall id :: id in fused ==> fused[id].claimId == id
    ensures ValuesOf(values, fused, fused.Keys)
  {
    values := [];
    var todo := fused.Keys;
    while todo != {}
      invariant todo <= fused.Keys
      invariant ValuesOf(values, fused, fused.Keys - todo)
      decreases |todo|
    {
      var id :| id in todo;
      ValuesNext(values, fused, fused.Keys - todo, id);
      assert fused.Keys - (todo - {id}) == fused.Keys - todo + {id};
      todo := todo - {id};
      values := values + [fused[id]];
    }
    assert fused.Keys - todo == fused.Keys;
  }

  lemma {:induction false} DistinctCounts(values: seq<Fused>, f: Fused)
    requires Distinct(IdsOf(values))
    ensures multiset(values)[f] <= 1
  {
    if values != [] {
      var front, last := values[..|values| - 1], values[|values| - 1];
      assert values == front + [last];
      forall i, j | 0 <= i < j < |front| ensures IdsOf(front)[i] != IdsOf(front)[j] {
        assert IdsOf(values)[i] != IdsOf(values)[j];
      }
      DistinctCounts(front, f);
      forall i | 0 <= i < |front| ensures front[i] != last {
        assert IdsOf(values)[i] != IdsOf(values)[|front|];
      }
    }
  }

  lemma SortRanks(values: seq<Fused>, fused: map<ClaimId, Fused>)
    requires ValuesOf(values, fused, fused.Keys)
    ensures var ranked := Sorting.SortBy(values, Better());
            && (forall f :: f in ranked ==> Lookup(fused, f.claimId) == Some(f))
            && (forall id :: id in fused ==> fused[id] in ranked)
            && Distinct(IdsOf(ranked)) && Sorting.Ordered(ranked, Better())
  {
    var ranked := Sorting.SortBy(values, Better());
    Sorting.SortMembers(values, Better());
    Sorting.SortPermutes(values, Better());
    Sorting.SortOrders(values, Better());
    forall i, j | 0 <= i < j < |ranked| ensures IdsOf(ranked)[i] != IdsOf(ranked)[j] {
      DistinctCounts(values, ranked[i]);
      Sorting.CountedOnceDiffers(ranked, i, j);
      assert ranked[i] in ranked && ranked[j] in ranked;
    }
  }

  // ----- scores

  /** What one list contributes to a claim: the contributions of all its occurrences. */
  function ListScore(candidates: seq<Candidate>, k: nat, id: ClaimId): real {
    if candidates == [] then 0.0
    else
      var n := |candidates| - 1;
      ListScore(candidates[..n], k, id) + if candidates[n].claimId == id then Contribution(k, n) else 0.0
  }

  function Score(lists: seq<RankedList>, k: nat, id: ClaimId): real {
    if lists == [] then 0.0
    else Score(lists[..|lists| - 1], k, id) + ListScore(lists[|lists| - 1].candidates, k, id)
  }

  predicate OccursIn(candidates: seq<Candidate>, id: ClaimId) {
    exists i :: 0 <= i < |candidates| && candidates[i].claimId == id
  }

  predicate Occurs(lists: seq<RankedList>, id: ClaimId) {
    exists i :: 0 <= i < |lists| && OccursIn(lists[i].candidates, id)
  }

  function ScoreSoFar(entry: Option<Fused>): real {
    if entry.None? then 0.0 else entry.value.score
  }

  lemma {:induction false} AfterListScore(start: Option<Fused>, k: nat, strategy: Strategy, candidates: seq<Candidate>,
                                          id: ClaimId)
    requires start.Some? ==> start.value.claimId == id
    ensures var r := AfterList(start, k, strategy, candidates, id);
            && ScoreSoFar(r) == ScoreSoFar(start) + ListScore(candidates, k, id)
            && (r.Some? <==> start.Some? || OccursIn(candidates, id))
            && (r.Some? ==> r.value.claimId == id)
  {
    if candidates != [] {
      var n := |candidates| - 1;
      AfterListScore(start, k, strategy, candidates[..n], id);
      if OccursIn(candidates[..n], id) {
        var i :| 0 <= i < n && candidates[..n][i].claimId == id;
        assert candidates[i].claimId == id;
      }
      if OccursIn(candidates, id) && candidates[n].claimId != id {
        var i :| 0 <= i < |candidates| && candidates[i].claimId == id;
        assert candidates[..n][i].claimId == id;
      }
    }
  }

  /** A claim is fused exactly when some list has it, and its score is the sum of its contributions. */
  lemma {:induction false} ScoreIsSum(lists: seq<RankedList>, k: nat, id: ClaimId)
    ensures var r := AfterLists(lists, k, id);
            && ScoreSoFar(r) == Score(lists, k, id)
            && (r.Some? <==> Occurs(lists, id))
            && (r.Some? ==> r.value.claimId == id)
  {
    if lists != [] {
      var n := |lists| - 1;
      ScoreIsSum(lists[..n], k, id);
      AfterListScore(AfterLists(lists[..n], k, id), k, lists[n].strategy, lists[n].candidates, id);
      if Occurs(lists[..n], id) {
        var i :| 0 <= i < n && OccursIn(lists[..n][i].candidates, id);
        assert OccursIn(lists[i].candidates, id);
      }
      if Occurs(lists, id) && !OccursIn(lists[n].candidates, id) {
        var i :| 0 <= i < |lists| && OccursIn(lists[i].candidates, id);
        assert OccursIn(lists[..n][i].candidates, id);
      }
    }
  }

  /** One more candidate at the end of a list, in terms of the fused entries: a claim's score grows by one over the
      constant plus the rank, counted from one, which is also its new component for the list's strategy; its route
      changes only to a route the candidate carries. An empty list changes nothing. */
  lemma OccurrenceAdds(lists: seq<RankedList>, strategy: Strategy, above: seq<Candidate>, c: Candidate, k: nat,
                       id: ClaimId)
    ensures AfterLists(lists + [RankedList(strategy, [])], k, id) == AfterLists(lists, k, id)
    ensures var before := AfterLists(lists + [RankedList(strategy, above)], k, id);
            var after := AfterLists(lists + [RankedList(strategy, above + [c])], k, id);
            var added := 1.0 / ((k + |above| + 1) as real);
            if c.claimId != id then after == before
            else
              && after.Some? && after.value.claimId == id
              && after.value.score == added + (if before.Some? then before.value.score else 0.0)
              && after.value.components ==
                 (if before.Some? then before.value.components else map[])[strategy := added]
              && (after.value.graphRoute.None? <==>
                    c.graphRoute.None? && (before.None? || before.value.graphRoute.None?))
              && (c.graphRoute.Some? ==> after.value.graphRoute == c.graphRoute)
              && (c.graphRoute.None? && before.Some? ==> after.value.graphRoute == before.value.graphRoute)
  {
    var list := RankedList(strategy, above + [c]);
    assert (lists + [RankedList(strategy, [])])[..|lists|] == lists;
    assert (lists + [RankedList(strategy, above)])[..|lists|] == lists;
    assert (lists + [list])[..|lists|] == lists;
    assert list.candidates[..|above|] == above;
  }

  // ----- score components

  ghost predicate DistinctClaims(candidates: seq<Candidate>) {
    forall i, j :: 0 <= i < j < |candidates| ==> candidates[i].claimId != candidates[j].claimId
  }

  ghost predicate DistinctStrategies(lists: seq<RankedList>) {
    forall i, j :: 0 <= i < j < |lists| ==> lists[i].strategy != lists[j].strategy
  }

  function Components(entry: Option<Fused>): map<Strategy, real> {
    if entry.None? then map[] else entry.value.components
  }

  /** The sum of a component map: each strategy once. */
  ghost function Total(components: map<Strategy, real>): real
    decreases |components|
  {
    if components == map[] then 0.0
    else
      var s :| s in components;
      Smaller(components, s);
      components[s] + Total(components - {s})
  }

  lemma Smaller(components: map<Strategy, real>, s: Strategy)
    requires s in components
    ensures |components - {s}| < |components|
  {
    assert components.Keys == (components - {s}).Keys + {s};
    assert |components.Keys| == |components| && |(components - {s}).Keys| == |components - {s}|;
  }

  /** Any strategy can be taken out of the sum first. */
  lemma {:induction false} TotalWithout(components: map<Strategy, real>, s: Strategy)
    requires s in components
    ensures Total(components) == components[s] + Total(components - {s})
    decreases |components|
  {
    var first :| first in components && Total(components) == components[first] + Total(components - {first});
    if first != s {
      Smaller(components, first);
      Smaller(components, s);
      TotalWithout(components - {first}, s);
      TotalWithout(components - {s}, first);
      assert components - {first} - {s} == components - {s} - {first};
    }
  }

  /** Setting a component adds its value, less the value it overwrites. */
  lemma TotalUpdate(components: map<Strategy, real>, s: Strategy, value: real)
    ensures Total(components[s := value]) ==
            Total(components) + value - if s in components then components[s] else 0.0
  {
    var updated := components[s := value];
    TotalWithout(updated, s);
    assert updated - {s} == components - {s};
    if s in components {
      TotalWithout(components, s);
    } else {
      assert components - {s} == components;
    }
  }

  lemma {:induction false} NotHeld(start: Option<Fused>, k: nat, strategy: Strategy, candidates: seq<Candidate>,
                                   id: ClaimId)
    requires forall i :: 0 <= i < |candidates| ==> candidates[i].claimId != id
    ensures AfterList(start, k, strategy, candidates, id) == start && ListScore(candidates, k, id) == 0.0
  {
    if candidates != [] {
      NotHeld(start, k, strategy, candidates[..|candidates| - 1], id);
    }
  }

  /** A list without repeats contributes by the claim's one position in it. */
  lemma {:induction false} HeldOnce(start: Option<Fused>, k: nat, strategy: Strategy, candidates: seq<Candidate>,
                                    i: nat, id: ClaimId)
    requires DistinctClaims(candidates) && i < |candidates| && candidates[i].claimId == id
    ensures ListScore(candidates, k, id) == Contribution(k, i)
    ensures Components(AfterList(start, k, strategy, candidates, id)) ==
            Components(start)[strategy := Contribution(k, i)]
  {
    var n := |candidates| - 1;
    if i == n {
      forall j | 0 <= j < n ensures candidates[..n][j].claimId != id {
        assert candidates[j].claimId != candidates[n].claimId;
      }
      NotHeld(start, k, strategy, candidates[..n], id);
    } else {
      assert candidates[i].claimId != candidates[n].claimId;
      HeldOnce(start, k, strategy, candidates[..n], i, id);
    }
  }

  // ----- scores and components, exactly

  /** What the components leave out of the score. */
  ghost function Gap(entry: Option<Fused>): real {
    ScoreSoFar(entry) - Total(Components(entry))
  }

  ghost predicate PositiveComponents(entry: Option<Fused>) {
    forall s :: s in Components(entry) ==> Components(entry)[s] > 0.0
  }

  /** The claim occurs at most once in the list. */
  ghost predicate OnceIn(candidates: seq<Candidate>, id: ClaimId) {
    forall i, j :: 0 <= i < j < |candidates| ==> !(candidates[i].claimId == id && candidates[j].claimId == id)
  }

  /** No two occurrences of the claim come under one strategy. */
  ghost predicate OncePerStrategy(lists: seq<RankedList>, id: ClaimId) {
    && (forall i :: 0 <= i < |lists| ==> OnceIn(lists[i].candidates, id))
    && (forall i, j ::
          0 <= i < j < |lists| && OccursIn(lists[i].candidates, id) && OccursIn(lists[j].candidates, id) ==>
            lists[i].strategy != lists[j].strategy)
  }

  lemma OccursNext(candidates: seq<Candidate>, id: ClaimId)
    requires candidates != []
    ensures var n := |candidates| - 1;
            && (OccursIn(candidates, id) <==> OccursIn(candidates[..n], id) || candidates[n].claimId == id)
            && (OnceIn(candidates, id) <==>
                OnceIn(candidates[..n], id) && !(candidates[n].claimId == id && OccursIn(candidates[..n], id)))
  {
    var n := |candidates| - 1;
    assert candidates == candidates[..n] + [candidates[n]];
    if OccursIn(candidates[..n], id) {
      var i :| 0 <= i < n && candidates[..n][i].claimId == id;
      assert candidates[i].claimId == id;
    }
  }

  /** One more occurrence widens the gap exactly when its strategy already has a component. */
  lemma AddWidensIff(entry: Option<Fused>, strategy: Strategy, contribution: real, c: Candidate)
    requires contribution > 0.0 && PositiveComponents(entry)
    ensures var after := Some(Add(entry, strategy, contribution, c));
            && Components(after) == Components(entry)[strategy := contribution] && PositiveComponents(after)
            && (if strategy in Components(entry) then Gap(after) > Gap(entry) else Gap(after) == Gap(entry))
  {
    TotalUpdate(Components(entry), strategy, contribution);
  }

  /** A list widens the gap exactly when the claim occurs in it twice, or in it and under its strategy before. */
  lemma {:induction false} ListWidensIff(start: Option<Fused>, k: nat, strategy: Strategy, candidates: seq<Candidate>,
                                         id: ClaimId)
    requires PositiveComponents(start)
    ensures var after := AfterList(start, k, strategy, candidates, id);
            && PositiveComponents(after) && Gap(after) >= Gap(start)
            && Components(after).Keys == Components(start).Keys + (if OccursIn(candidates, id) then {strategy} else {})
            && (Gap(after) == Gap(start) <==>
                OnceIn(candidates, id) && (OccursIn(candidates, id) ==> strategy !in Components(start)))
  {
    if candidates != [] {
      var n := |candidates| - 1;
      ListWidensIff(start, k, strategy, candidates[..n], id);
      OccursNext(candidates, id);
      Decreasing(k, n, n + 1);
      if candidates[n].claimId == id {
        AddWidensIff(AfterList(start, k, strategy, candidates[..n], id), strategy, Contribution(k, n), candidates[n]);
      }
    }
  }

  ghost predicate StrategyHolds(lists: seq<RankedList>, id: ClaimId, s: Strategy) {
    exists i :: 0 <= i < |lists| && lists[i].strategy == s && OccursIn(lists[i].candidates, id)
  }

  lemma StrategyNext(lists: seq<RankedList>, id: ClaimId)
    requires lists != []
    ensures var n := |lists| - 1;
            && (forall s :: StrategyHolds(lists, id, s) <==>
                            StrategyHolds(lists[..n], id, s) || StrategyHolds([lists[n]], id, s))
            && (forall s :: StrategyHolds([lists[n]], id, s) <==>
                            lists[n].strategy == s && OccursIn(lists[n].candidates, id))
            && (OncePerStrategy(lists, id) <==>
                OncePerStrategy(lists[..n], id) && OnceIn(lists[n].candidates, id) &&
                (OccursIn(lists[n].candidates, id) ==> !StrategyHolds(lists[..n], id, lists[n].strategy)))
  {
    var n := |lists| - 1;
    assert forall i :: 0 <= i < n ==> lists[..n][i] == lists[i];
    forall s
      ensures StrategyHolds(lists, id, s) <==> StrategyHolds(lists[..n], id, s) || StrategyHolds([lists[n]], id, s)
      ensures StrategyHolds([lists[n]], id, s) <==> lists[n].strategy == s && OccursIn(lists[n].candidates, id)
    {
      assert [lists[n]][0] == lists[n];
      if StrategyHolds(lists[..n], id, s) {
        var i :| 0 <= i < n && lists[..n][i].strategy == s && OccursIn(lists[..n][i].candidates, id);
        assert lists[i].strategy == s;
      }
    }
  }

  lemma {:induction false} GapIff(lists: seq<RankedList>, k: nat, id: ClaimId)
    ensures var entry := AfterLists(lists, k, id);
            && PositiveComponents(entry) && Gap(entry) >= 0.0
            && (forall s :: s in Components(entry) <==> StrategyHolds(lists, id, s))
            && (Gap(entry) == 0.0 <==> OncePerStrategy(lists, id))
  {
    if lists != [] {
      var n := |lists| - 1;
      GapIff(lists[..n], k, id);
      ListWidensIff(AfterLists(lists[..n], k, id), k, lists[n].strategy, lists[n].candidates, id);
      StrategyNext(lists, id);
    }
  }

  /** A fused score is the sum of its components exactly when no two occurrences of the claim come under one
      strategy; otherwise the components, each of which is positive, add up to less. */
  lemma ScoreIsComponentSumIff(lists: seq<RankedList>, k: nat, id: ClaimId)
    ensures var components := Components(AfterLists(lists, k, id));
            && (Score(lists, k, id) == Total(components) <==> OncePerStrategy(lists, id))
            && Total(components) <= Score(lists, k, id)
            && (forall s :: s in components <==> StrategyHolds(lists, id, s))
  {
    GapIff(lists, k, id);
    ScoreIsSum(lists, k, id);
  }

  /** One list per strategy and no repeats inside a list are enough. */
  lemma ScoreIsComponentSum(lists: seq<RankedList>, k: nat, id: ClaimId)
    requires DistinctStrategies(lists) && forall list :: list in lists ==> DistinctClaims(list.candidates)
    ensures Score(lists, k, id) == Total(Components(AfterLists(lists, k, id)))
  {
    forall i | 0 <= i < |lists| ensures OnceIn(lists[i].candidates, id) {
      assert lists[i] in lists;
    }
    ScoreIsComponentSumIff(lists, k, id);
  }

  /** Two lists of one strategy that share a claim break it: the second contribution overwrites the first. */
  lemma RepeatedStrategyLosesComponent(lists: seq<RankedList>, k: nat, id: ClaimId, i: nat, j: nat)
    requires i < j < |lists| && lists[i].strategy == lists[j].strategy
    requires OccursIn(lists[i].candidates, id) && OccursIn(lists[j].candidates, id)
    ensures Total(Components(AfterLists(lists, k, id))) < Score(lists, k, id)
  {
    ScoreIsComponentSumIff(lists, k, id);
  }

  // ----- graph routes

  /** Some occurrence of the claim carries the route. */
  predicate Routes(candidates: seq<Candidate>, id: ClaimId, route: Option<seq<EntityId>>) {
    exists i :: 0 <= i < |candidates| && candidates[i].claimId == id && candidates[i].graphRoute == route
  }

  function RouteOf(entry: Option<Fused>): Option<seq<EntityId>> {
    if entry.None? then None else entry.value.graphRoute
  }

  ghost predicate Routeless(candidates: seq<Candidate>, id: ClaimId) {
    forall p :: !Routes(candidates, id, Some(p))
  }

  /** A list without a route for the claim leaves its route as it was; any other sets it to one of its own. */
  lemma {:induction false} AfterListRoute(start: Option<Fused>, k: nat, strategy: Strategy, candidates: seq<Candidate>,
                                          id: ClaimId)
    ensures var route := RouteOf(AfterList(start, k, strategy, candidates, id));
            if Routeless(candidates, id) then route == RouteOf(start) else route.Some? && Routes(candidates, id, route)
  {
    if candidates != [] {
      var n := |candidates| - 1;
      AfterListRoute(start, k, strategy, candidates[..n], id);
      forall p: Option<seq<EntityId>>
        ensures Routes(candidates, id, p) <==>
                Routes(candidates[..n], id, p) || (candidates[n].claimId == id && candidates[n].graphRoute == p)
      {
        RoutesNext(candidates, id, p);
      }
      if candidates[n].claimId == id && candidates[n].graphRoute.Some? {
        assert Routes(candidates, id, Some(candidates[n].graphRoute.value));
      }
    }
  }

  lemma RoutesNext(candidates: seq<Candidate>, id: ClaimId, route: Option<seq<EntityId>>)
    requires candidates != []
    ensures var n := |candidates| - 1;
            Routes(candidates, id, route) <==>
            Routes(candidates[..n], id, route) || (candidates[n].claimId == id && candidates[n].graphRoute == route)
  {
    var n := |candidates| - 1;
    if Routes(candidates, id, route) {
      var i :| 0 <= i < |candidates| && candidates[i].claimId == id && candidates[i].graphRoute == route;
      assert i < n ==> candidates[..n][i] == candidates[i];
    }
    if Routes(candidates[..n], id, route) {
      var i :| 0 <= i < n && candidates[..n][i].claimId == id && candidates[..n][i].graphRoute == route;
      assert candidates[i] == candidates[..n][i];
    }
  }

  /** The last list with a route for the claim decides its route. */
  lemma LaterRouteWins(lists: seq<RankedList>, last: RankedList, k: nat, id: ClaimId)
    ensures var before, after := RouteOf(AfterLists(lists, k, id)), RouteOf(AfterLists(lists + [last], k, id));
            if Routeless(last.candidates, id) then after == before
            else after.Some? && Routes(last.candidates, id, after)
  {
    assert (lists + [last])[..|lists|] == lists;
    AfterListRoute(AfterLists(lists, k, id), k, last.strategy, last.candidates, id);
  }

  // ----- independence of the order of the lists

  lemma {:induction false} ScoreWithout(lists: seq<RankedList>, k: nat, id: ClaimId, j: nat)
    requires j < |lists|
    ensures Score(lists, k, id) == Score(lists[..j] + lists[j + 1..], k, id) + ListScore(lists[j].candidates, k, id)
  {
    var n := |lists| - 1;
    if j == n {
      assert lists[..j] + lists[j + 1..] == lists[..n];
    } else {
      ScoreWithout(lists[..n], k, id, j);
      var rest := lists[..j] + lists[j + 1..];
      assert rest[..|rest| - 1] == lists[..n][..j] + lists[..n][j + 1..] && rest[|rest| - 1] == lists[n];
    }
  }

  lemma RemovedCounts(lists: seq<RankedList>, others: seq<RankedList>, j: nat)
    requires lists != [] && j < |others| && multiset(lists) == multiset(others) && others[j] == lists[|lists| - 1]
    ensures multiset(lists[..|lists| - 1]) == multiset(others[..j] + others[j + 1..])
  {
    assert lists == lists[..|lists| - 1] + [lists[|lists| - 1]];
    assert others == others[..j] + [others[j]] + others[j + 1..];
    var rest := others[..j] + others[j + 1..];
    assert multiset(others) == multiset(rest) + multiset{others[j]};
    assert multiset(rest) == multiset(others) - multiset{others[j]};
    assert multiset(lists[..|lists| - 1]) == multiset(lists) - multiset{others[j]};
  }

  lemma {:induction false} ScoreForgetsOrder(lists: seq<RankedList>, others: seq<RankedList>, k: nat, id: ClaimId)
    requires multiset(lists) == multiset(others)
    ensures Score(lists, k, id) == Score(others, k, id)
  {
    Sorting.SameLength(lists, others);
    if lists != [] {
      var last := lists[|lists| - 1];
      assert last in multiset(others);
      var j :| 0 <= j < |others| && others[j] == last;
      RemovedCounts(lists, others, j);
      ScoreForgetsOrder(lists[..|lists| - 1], others[..j] + others[j + 1..], k, id);
      ScoreWithout(others, k, id, j);
    }
  }

  lemma OccursForgetsOrder(lists: seq<RankedList>, others: seq<RankedList>, id: ClaimId)
    requires multiset(lists) == multiset(others) && Occurs(lists, id)
    ensures Occurs(others, id)
  {
    var i :| 0 <= i < |lists| && OccursIn(lists[i].candidates, id);
    assert lists[i] in multiset(others);
    var j :| 0 <= j < |others| && others[j] == lists[i];
  }

  /** The ranking's order on claim ids. */
  function Ahead(lists: seq<RankedList>, k: nat): (ClaimId, ClaimId) -> bool {
    (a: ClaimId, b: ClaimId) =>
      Score(lists, k, a) > Score(lists, k, b) || (Score(lists, k, a) == Score(lists, k, b) && a <= b)
  }

  lemma RankedIds(ranked: seq<Fused>, lists: seq<RankedList>, k: nat)
    requires Ranking(ranked, lists, k)
    ensures Distinct(IdsOf(ranked)) && Sorting.Ordered(IdsOf(ranked), Ahead(lists, k))
    ensures forall id :: id in IdsOf(ranked) <==> Occurs(lists, id)
  {
    var ids := IdsOf(ranked);
    forall i | 0 <= i < |ranked| ensures ranked[i].score == Score(lists, k, ids[i]) && Occurs(lists, ids[i]) {
      assert ranked[i] in ranked;
      ScoreIsSum(lists, k, ids[i]);
    }
    forall i, j | 0 <= i < j < |ids| ensures Ahead(lists, k)(ids[i], ids[j]) {
      assert Better()(ranked[i], ranked[j]);
    }
    forall id | Occurs(lists, id) ensures id in ids {
      ScoreIsSum(lists, k, id);
      var f := AfterLists(lists, k, id).value;
      var i :| 0 <= i < |ranked| && ranked[i] == f;
      assert ids[i] == id;
    }
  }

  lemma {:induction false} DistinctMultiset(a: seq<ClaimId>, b: seq<ClaimId>)
    requires Distinct(a) && Distinct(b) && forall id :: id in a <==> id in b
    ensures multiset(a) == multiset(b)
  {
    forall id ensures multiset(a)[id] == multiset(b)[id] {
      DistinctIdCounts(a, id);
      DistinctIdCounts(b, id);
    }
  }

  lemma {:induction false} DistinctIdCounts(a: seq<ClaimId>, id: ClaimId)
    requires Distinct(a)
    ensures multiset(a)[id] == if id in a then 1 else 0
  {
    if a != [] {
      var front, last := a[..|a| - 1], a[|a| - 1];
      assert a == front + [last];
      DistinctIdCounts(front, id);
    }
  }

  /** Fusing the same lists in another order gives the same claims with the same scores in the same order. */
  lemma OrderOfListsIrrelevant(lists: seq<RankedList>, others: seq<RankedList>, k: nat, ranked: seq<Fused>,
                               again: seq<Fused>)
    requires multiset(lists) == multiset(others)
    requires Ranking(ranked, lists, k) && Ranking(again, others, k)
    ensures IdsOf(ranked) == IdsOf(again)
    ensures forall i :: 0 <= i < |ranked| ==> ranked[i].score == again[i].score
  {
    var a, b := IdsOf(ranked), IdsOf(again);
    RankedIds(ranked, lists, k);
    RankedIds(again, others, k);
    forall id ensures id in a <==> id in b {
      if id in a {
        OccursForgetsOrder(lists, others, id);
      }
      if id in b {
        OccursForgetsOrder(others, lists, id);
      }
    }
    DistinctMultiset(a, b);
    OrderTransfers(b, lists, others, k);
    Sorting.OrderedUnique(a, b, Ahead(lists, k));
    forall i | 0 <= i < |ranked| ensures ranked[i].score == again[i].score {
      assert ranked[i] in ranked && again[i] in again && a[i] == b[i];
      SameScore(ranked[i], again[i], lists, others, k);
    }
  }

  lemma SameScore(left: Fused, right: Fused, lists: seq<RankedList>, others: seq<RankedList>, k: nat)
    requires multiset(lists) == multiset(others) && left.claimId == right.claimId
    requires AfterLists(lists, k, left.claimId) == Some(left) && AfterLists(others, k, right.claimId) == Some(right)
    ensures left.score == right.score
  {
    ScoreIsSum(lists, k, left.claimId);
    ScoreIsSum(others, k, left.claimId);
    ScoreForgetsOrder(lists, others, k, left.claimId);
  }

  lemma OrderTransfers(ids: seq<ClaimId>, lists: seq<RankedList>, others: seq<RankedList>, k: nat)
    requires multiset(lists) == multiset(others) && Sorting.Ordered(ids, Ahead(others, k))
    ensures Sorting.Ordered(ids, Ahead(lists, k))
  {
    forall id ensures Score(lists, k, id) == Score(others, k, id) {
      ScoreForgetsOrder(lists, others, k, id);
    }
    forall i, j | 0 <= i < j < |ids| ensures Ahead(lists, k)(ids[i], ids[j]) {
      assert Ahead(others, k)(ids[i], ids[j]);
    }
  }

  // ----- dominance

  /** Wherever the list has `b`, it has `a` above it. */
  ghost predicate Above(list: RankedList, a: ClaimId, b: ClaimId) {
    forall j :: 0 <= j < |list.candidates| && list.candidates[j].claimId == b ==> HeldBefore(list, a, j)
  }

  predicate HeldBefore(list: RankedList, a: ClaimId, j: nat)
    requires j < |list.candidates|
  {
    exists i :: 0 <= i < j && list.candidates[i].claimId == a
  }

  lemma Decreasing(k: nat, i: nat, j: nat)
    requires i < j
    ensures Contribution(k, i) > Contribution(k, j) > 0.0
  {
    Reciprocals((k + i + 1) as real, (k + j + 1) as real);
  }

  lemma Reciprocals(x: real, y: real)
    requires 0.0 < x < y
    ensures 1.0 / x > 1.0 / y > 0.0
  {
    assert (1.0 / y) * y == 1.0 && (1.0 / x) * x == 1.0;
    assert 1.0 / y > 0.0;
    assert (1.0 / y) * x < (1.0 / y) * y;
    Cancel(1.0 / y, 1.0 / x, x);
  }

  lemma Cancel(a: real, b: real, x: real)
    requires x > 0.0 && a * x < b * x
    ensures a < b
  {
    assert (b - a) * x > 0.0;
  }

  lemma {:induction false} ListScoreNonNegative(candidates: seq<Candidate>, k: nat, id: ClaimId)
    ensures ListScore(candidates, k, id) >= 0.0
  {
    if candidates != [] {
      Decreasing(k, |candidates| - 1, |candidates|);
      ListScoreNonNegative(candidates[..|candidates| - 1], k, id);
    }
  }

  lemma AboveScoresMore(list: RankedList, k: nat, a: ClaimId, b: ClaimId)
    requires DistinctClaims(list.candidates) && Above(list, a, b)
    ensures ListScore(list.candidates, k, a) >= ListScore(list.candidates, k, b)
    ensures OccursIn(list.candidates, b) ==> ListScore(list.candidates, k, a) > ListScore(list.candidates, k, b)
  {
    if OccursIn(list.candidates, b) {
      var j :| 0 <= j < |list.candidates| && list.candidates[j].claimId == b;
      assert HeldBefore(list, a, j);
      var i :| 0 <= i < j && list.candidates[i].claimId == a;
      HeldOnce(None, k, list.strategy, list.candidates, i, a);
      HeldOnce(None, k, list.strategy, list.candidates, j, b);
      Decreasing(k, i, j);
    } else {
      NotHeld(None, k, list.strategy, list.candidates, b);
      ListScoreNonNegative(list.candidates, k, a);
    }
  }

  lemma {:induction false} DominatingScoresMore(lists: seq<RankedList>, k: nat, a: ClaimId, b: ClaimId)
    requires forall list :: list in lists ==> DistinctClaims(list.candidates) && Above(list, a, b)
    ensures Score(lists, k, a) >= Score(lists, k, b)
    ensures Occurs(lists, b) ==> Score(lists, k, a) > Score(lists, k, b)
  {
    if lists != [] {
      var front, list := lists[..|lists| - 1], lists[|lists| - 1];
      assert list in lists && forall l :: l in front ==> l in lists;
      DominatingScoresMore(front, k, a, b);
      AboveScoresMore(list, k, a, b);
      if Occurs(lists, b) && !OccursIn(list.candidates, b) {
        var i :| 0 <= i < |lists| && OccursIn(lists[i].candidates, b);
        assert OccursIn(front[i].candidates, b);
      }
    }
  }

  /** A claim ranked above another in every list that has the other comes before it in the fusion. */
  lemma DominatingComesFirst(lists: seq<RankedList>, k: nat, ranked: seq<Fused>, i: nat, j: nat)
    requires Ranking(ranked, lists, k) && i < |ranked| && j < |ranked|
    requires forall list :: list in lists ==>
               DistinctClaims(list.candidates) && Above(list, ranked[i].claimId, ranked[j].claimId)
    ensures i < j
  {
    var a, b := ranked[i].claimId, ranked[j].claimId;
    assert ranked[i] in ranked && ranked[j] in ranked;
    DominatingScoresMore(lists, k, a, b);
    ScoreIsSum(lists, k, a);
    ScoreIsSum(lists, k, b);
    assert !Better()(ranked[j], ranked[i]);
  }
}
