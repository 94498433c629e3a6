/** Semantic contracts: uniqueness of terms, inheritance cycles and term resolution. */
module SemanticContract {
  import opened Kernel
  import opened Inheritance
  import Sorting

  datatype EntityType = EntityType(id: Term, iri: Option<Term>, aliases: seq<Term>, extending: seq<Term>)

  // ----- duplicates

  ghost predicate Held(values: seq<Option<Term>>, v: Term) {
    exists i :: 0 <= i < |values| && values[i] == Some(v)
  }

  ghost predicate Repeated(values: seq<Option<Term>>, v: Term) {
    exists i, j :: 0 <= i < j < |values| && values[i] == values[j] == Some(v)
  }

  lemma RepeatedNext(values: seq<Option<Term>>, n: nat, v: Term)
    requires n < |values|
    ensures Held(values[..n + 1], v) <==> Held(values[..n], v) || values[n] == Some(v)
    ensures Repeated(values[..n + 1], v) <==> Repeated(values[..n], v) || (values[n] == Some(v) && Held(values[..n], v))
  {
    var front, all := values[..n], values[..n + 1];
    assert all == front + [values[n]];
    if Held(front, v) {
      var i :| 0 <= i < |front| && front[i] == Some(v);
      assert all[i] == Some(v);
      assert values[n] == Some(v) ==> all[i] == all[n] == Some(v);
    }
    assert values[n] == Some(v) ==> all[n] == Some(v);
    if Repeated(front, v) {
      var i, j :| 0 <= i < j < |front| && front[i] == front[j] == Some(v);
      assert all[i] == all[j] == Some(v);
    }
  }

  function TermOrder(): (Term, Term) -> bool {
    (left: Term, right: Term) => left <= right
  }

  ghost predicate Ascending(values: seq<Term>) {
    forall i, j :: 0 <= i < j < |values| ==> values[i] < values[j]
  }

  method SortedTerms(values: set<Term>) returns (sorted: seq<Term>)
    ensures Ascending(sorted) && forall v :: v in sorted <==> v in values
  {
    var listed: seq<Term> := [];
    var todo := values;
    while todo != {}
      invariant todo <= values
      invariant forall v :: v in listed <==> v in values - todo
      invariant forall i, j :: 0 <= i < j < |listed| ==> listed[i] != listed[j]
      decreases |todo|
    {
      var v :| v in todo;
      listed := listed + [v];
      todo := todo - {v};
    }
    sorted := Sorting.SortBy(listed, TermOrder());
    AscendingSort(listed);
  }

  lemma {:induction false} OneOfEach(values: seq<Term>, v: Term)
    requires forall i, j :: 0 <= i < j < |values| ==> values[i] != values[j]
    ensures multiset(values)[v] <= 1
  {
    if values != [] {
      var front, last := values[..|values| - 1], values[|values| - 1];
      OneOfEach(front, v);
      assert values == front + [last];
      assert v == last ==> v !in front;
    }
  }

  lemma AscendingSort(listed: seq<Term>)
    requires forall i, j :: 0 <= i < j < |listed| ==> listed[i] != listed[j]
    ensures var sorted := Sorting.SortBy(listed, TermOrder());
            Ascending(sorted) && forall v :: v in sorted <==> v in listed
  {
    var sorted := Sorting.SortBy(listed, TermOrder());
    Sorting.SortOrders(listed, TermOrder());
    Sorting.SortPermutes(listed, TermOrder());
    Sorting.SortMembers(listed, TermOrder());
    forall i, j | 0 <= i < j < |sorted| ensures sorted[i] < sorted[j] {
      assert TermOrder()(sorted[i], sorted[j]);
      OneOfEach(listed, sorted[i]);
      Sorting.CountedOnceDiffers(sorted, i, j);
    }
  }

  /** The repeated values, each once, in order. */
  method Duplicates(values: seq<Option<Term>>) returns (repeated: seq<Term>)
    ensures Ascending(repeated)
    ensures forall v :: v in repeated <==> exists i, j :: 0 <= i < j < |values| && values[i] == values[j] == Some(v)
  {
    var seen: set<Term>, twice: set<Term> := {}, {};
    for i := 0 to |values|
      invariant forall v :: v in seen <==> Held(values[..i], v)
      invariant forall v :: v in twice <==> Repeated(values[..i], v)
    {
      var value := values[i];
      forall v { RepeatedNext(values, i, v); }
      if value.None? {
        continue;
      }
      if value.value in seen {
        twice := twice + {value.value};
      }
      seen := seen + {value.value};
    }
    assert values[..|values|] == values;
    repeated := SortedTerms(twice);
    assert forall v :: v in repeated <==> Repeated(values, v);
  }

  // ----- inheritance cycles

  /** `new Map` of the entries: the last definition of an id wins. */
  function ParentsMap(types: seq<EntityType>): Parents {
    if types == [] then map[]
    else ParentsMap(types[..|types| - 1])[types[|types| - 1].id := types[|types| - 1].extending]
  }

  ghost predicate UniqueIds(types: seq<EntityType>) {
    forall i, j :: 0 <= i < j < |types| ==> types[i].id != types[j].id
  }

  /** Some definition of `id` extends `parent`. */
  ghost predicate Extends(types: seq<EntityType>, id: Term, parent: Term) {
    exists t :: t in types && t.id == id && parent in t.extending
  }

  lemma {:induction false} ParentsMapDomain(types: seq<EntityType>, id: Term)
    ensures id in ParentsMap(types) <==> exists t :: t in types && t.id == id
  {
    if types != [] {
      var front, last := types[..|types| - 1], types[|types| - 1];
      assert types == front + [last];
      ParentsMapDomain(front, id);
      if id in ParentsMap(types) && id != last.id {
        var t :| t in front && t.id == id;
        assert t in types;
      }
    }
  }

  lemma {:induction false} ParentsMapAt(types: seq<EntityType>, t: EntityType)
    requires UniqueIds(types) && t in types
    ensures t.id in ParentsMap(types) && ParentsMap(types)[t.id] == t.extending
  {
    var front, last := types[..|types| - 1], types[|types| - 1];
    assert types == front + [last];
    if t != last {
      ParentsMapAt(front, t);
      var i :| 0 <= i < |front| && front[i] == t;
      assert types[i].id != types[|types| - 1].id;
    }
  }

  /** With unique ids the map is the relation. */
  lemma ParentsAreExtended(types: seq<EntityType>, id: Term, parent: Term)
    requires UniqueIds(types)
    ensures parent in ParentsOf(ParentsMap(types), id) <==> Extends(types, id, parent)
  {
    ParentsMapDomain(types, id);
    if id in ParentsMap(types) {
      var t :| t in types && t.id == id;
      ParentsMapAt(types, t);
    }
    if Extends(types, id, parent) {
      var t :| t in types && t.id == id && parent in t.extending;
      ParentsMapAt(types, t);
    }
  }

  /** The cycle search with its shared set of ids under visit. */
  class CycleSearch {
    const parents: Parents
    var visiting: set<Term>

    constructor (parents: Parents)
      ensures this.parents == parents && visiting == {}
    {
      this.parents, visiting := parents, {};
    }

    method HasEntityTypeCycle(id: Term) returns (found: bool)
      modifies this
      ensures found == HasCycle(parents, id, old(visiting))
      ensures visiting == old(visiting)
      decreases parents.Keys - visiting
    {
      if id in visiting {
        return true;
      }
      ghost var before := visiting;
      visiting := visiting + {id};
      found := false;
      var extended := if id in parents then parents[id] else [];
      var k := 0;
      while k < |extended| && !found
        invariant 0 <= k <= |extended|
        invariant visiting == before + {id}
        invariant !found ==> forall j :: 0 <= j < k ==> !HasCycle(parents, extended[j], before + {id})
        invariant found ==> k > 0 && HasCycle(parents, extended[k - 1], before + {id})
      {
        found := HasEntityTypeCycle(extended[k]);
        k := k + 1;
      }
      visiting := visiting - {id};
      assert visiting == before;
    }
  }

  method BuildParents(types: seq<EntityType>) returns (parents: Parents)
    ensures parents == ParentsMap(types)
  {
    parents := map[];
    for i := 0 to |types|
      invariant parents == ParentsMap(types[..i])
    {
      assert types[..i + 1][..i] == types[..i];
      parents := parents[types[i].id := types[i].extending];
    }
    assert types[..|types|] == types;
  }

  function OnCycle(parents: Parents): EntityType -> bool {
    (t: EntityType) => HasCycle(parents, t.id, {})
  }

  /** The entity types that `ENTITY_TYPE_CYCLE` reports, in contract order. */
  method EntityTypeCycleIssues(types: seq<EntityType>) returns (reported: seq<EntityType>)
    ensures reported == Sorting.Filter(types, OnCycle(ParentsMap(types)))
  {
    var parents := BuildParents(types);
    reported := [];
    for i := 0 to |types|
      invariant reported == Sorting.Filter(types[..i], OnCycle(parents))
    {
      assert types[..i + 1][..i] == types[..i];
      var search := new CycleSearch(parents);
      var found := search.HasEntityTypeCycle(types[i].id);
      if found {
        reported := reported + [types[i]];
      }
    }
    assert types[..|types|] == types;
  }

  /** A type is reported exactly when a cycle of `extends` can be reached from it, and none is reported
      exactly when the relation is acyclic. */
  lemma CycleIssuesExact(types: seq<EntityType>)
    ensures var reported := Sorting.Filter(types, OnCycle(ParentsMap(types)));
            && (forall t :: t in reported <==> t in types && CycleReachable(ParentsMap(types), t.id))
            && (reported == [] <==> Acyclic(ParentsMap(types)))
  {
    var parents := ParentsMap(types);
    var reported := Sorting.Filter(types, OnCycle(parents));
    forall t ensures t in reported <==> t in types && CycleReachable(parents, t.id) {
      CycleFoundIffReachable(parents, t.id);
    }
    NoneFoundIffAcyclic(parents);
    if reported == [] {
      forall id | id in parents ensures !HasCycle(parents, id, {}) {
        ParentsMapDomain(types, id);
        var t :| t in types && t.id == id;
        assert t !in reported;
      }
    } else {
      assert reported[0] in reported;
      ParentsMapDomain(types, reported[0].id);
    }
  }

  /** The `extends` relation, over every definition, returns to where it started. */
  ghost predicate ExtendsLoop(types: seq<EntityType>, path: seq<Term>) {
    |path| > 1 && path[0] == path[|path| - 1] &&
    forall i {:trigger path[i]} :: 0 < i < |path| ==> Extends(types, path[i - 1], path[i])
  }

  lemma LoopsAreExtendsLoops(types: seq<EntityType>, path: seq<Term>)
    requires UniqueIds(types)
    ensures Loop(ParentsMap(types), path) <==> ExtendsLoop(types, path)
  {
    if |path| > 1 {
      forall i | 0 < i < |path|
        ensures Follows(ParentsMap(types), path, i) <==> Extends(types, path[i - 1], path[i])
      {
        ParentsAreExtended(types, path[i - 1], path[i]);
      }
      assert path[0] == path[|path| - 1] && Walk(ParentsMap(types), path) ==> ExtendsLoop(types, path);
    }
  }

  /** With unique ids, a contract without cycle issues is one whose inheritance is acyclic. */
  lemma NoCycleIssueIffAcyclic(types: seq<EntityType>)
    requires UniqueIds(types)
    ensures Sorting.Filter(types, OnCycle(ParentsMap(types))) == [] <==> forall path :: !ExtendsLoop(types, path)
  {
    CycleIssuesExact(types);
    forall path ensures Loop(ParentsMap(types), path) <==> ExtendsLoop(types, path) {
      LoopsAreExtendsLoops(types, path);
    }
  }

  /** Without them a cycle can go unreported: the later definition of an id hides the earlier one. */
  lemma DuplicateHidesCycle(id: Term, iri: Option<Term>)
    ensures var types := [EntityType(id, iri, [], [id]), EntityType(id, iri, [], [])];
            Sorting.Filter(types, OnCycle(ParentsMap(types))) == [] && ExtendsLoop(types, [id, id])
  {
    var types := [EntityType(id, iri, [], [id]), EntityType(id, iri, [], [])];
    assert types[0] in types;
    assert types[..1] == [types[0]] && [types[0]][..0] == [];
    assert ParentsMap([types[0]]) == map[id := [id]];
    assert ParentsMap(types) == map[id := []];
    forall t | t in types ensures !HasCycle(ParentsMap(types), t.id, {}) {}
    Sorting.FilterNone(types, OnCycle(ParentsMap(types)));
  }

  /** The same ids in the same places; what extends what may differ. */
  ghost predicate SameIds(types: seq<EntityType>, other: seq<EntityType>) {
    |types| == |other| && forall i :: 0 <= i < |types| ==> types[i].id == other[i].id
  }

  /** The cycle check finds nothing exactly when `extends` has no loop. */
  ghost predicate CycleCheckExact(types: seq<EntityType>) {
    Sorting.Filter(types, OnCycle(ParentsMap(types))) == [] <==> forall path :: !ExtendsLoop(types, path)
  }

  /** The types `types`, of which only the `j`-th extends anything, namely `parents`. */
  function OnlyExtends(types: seq<EntityType>, j: nat, parents: seq<Term>): (other: seq<EntityType>)
    ensures |other| == |types|
    ensures forall k :: 0 <= k < |types| ==>
              other[k] == types[k].(extending := if k == j then parents else [])
  {
    seq(|types|, k requires 0 <= k < |types| => types[k].(extending := if k == j then parents else []))
  }

  /** The map holds the last definition of an id. */
  lemma {:induction false} ParentsMapLast(types: seq<EntityType>, id: Term) returns (k: nat)
    requires id in ParentsMap(types)
    ensures k < |types| && types[k].id == id && ParentsMap(types)[id] == types[k].extending
    ensures forall l :: k < l < |types| ==> types[l].id != id
  {
    var n := |types| - 1;
    if types[n].id == id {
      k := n;
    } else {
      k := ParentsMapLast(types[..n], id);
      assert forall l :: 0 <= l < n ==> types[..n][l] == types[l];
    }
  }

  /** A repeated id whose earlier definition extends itself is a loop that the check does not see. */
  lemma RepeatedIdHidesLoop(types: seq<EntityType>, i: nat, j: nat)
    requires i < j < |types| && types[i].id == types[j].id
    ensures var other := OnlyExtends(types, i, [types[i].id]);
            Sorting.Filter(other, OnCycle(ParentsMap(other))) == [] && ExtendsLoop(other, [types[i].id, types[i].id])
  {
    var other := OnlyExtends(types, i, [types[i].id]);
    assert other[i] in other && other[i].id in other[i].extending;
    forall t | t in other ensures !HasCycle(ParentsMap(other), t.id, {}) {
      if t.id in ParentsMap(other) {
        var k := ParentsMapLast(other, t.id);
        assert k != i by { assert other[j].id == other[i].id; }
      }
    }
    Sorting.FilterNone(other, OnCycle(ParentsMap(other)));
  }

  /** Ids alone decide whether the cycle check can be trusted: it is exact for every `extends` over them if and only
      if they are unique. */
  lemma CycleCheckExactIff(types: seq<EntityType>)
    ensures UniqueIds(types) <==> forall other :: SameIds(types, other) ==> CycleCheckExact(other)
  {
    if UniqueIds(types) {
      forall other | SameIds(types, other) ensures CycleCheckExact(other) {
        NoCycleIssueIffAcyclic(other);
      }
    } else {
      var i, j :| 0 <= i < j < |types| && types[i].id == types[j].id;
      RepeatedIdHidesLoop(types, i, j);
      assert SameIds(types, OnlyExtends(types, i, [types[i].id]));
    }
  }

  // ----- term resolution

  function TermsOf(t: EntityType): (terms: seq<Term>)
    ensures forall term :: term in terms <==> term == t.id || t.iri == Some(term) || term in t.aliases
  {
    [t.id] + (if t.iri.Some? then [t.iri.value] else []) + t.aliases
  }

  /** The first type in contract order that has the term. */
  function FirstWith(types: seq<EntityType>, term: Term): Option<EntityType> {
    if types == [] then None
    else
      var earlier := FirstWith(types[..|types| - 1], term);
      if earlier.Some? then earlier
      else if term in TermsOf(types[|types| - 1]) then Some(types[|types| - 1])
      else None
  }

  method AddTerms(terms: map<Term, EntityType>, t: EntityType) returns (added: map<Term, EntityType>)
    ensures forall term :: Lookup(added, term) ==
              if term in terms then Some(terms[term]) else if term in TermsOf(t) then Some(t) else None
  {
    added := terms;
    var all := TermsOf(t);
    for k := 0 to |all|
      invariant forall term :: Lookup(added, term) ==
                  if term in terms then Some(terms[term]) else if term in all[..k] then Some(t) else None
    {
      assert all[..k + 1] == all[..k] + [all[k]];
      if all[k] !in added {
        added := added[all[k] := t];
      }
    }
    assert all[..|all|] == all;
  }

  method SemanticTerms(types: seq<EntityType>) returns (terms: map<Term, EntityType>)
    ensures forall term :: Lookup(terms, term) == FirstWith(types, term)
  {
    terms := map[];
    for i := 0 to |types|
      invariant forall term :: Lookup(terms, term) == FirstWith(types[..i], term)
    {
      assert types[..i + 1][..i] == types[..i];
      ghost var before := terms;
      terms := AddTerms(terms, types[i]);
      forall term ensures Lookup(terms, term) == FirstWith(types[..i + 1], term) {
        assert Lookup(before, term) == FirstWith(types[..i], term);
      }
    }
    assert types[..|types|] == types;
  }

  /** The resolved type has the term and every type that has it comes no earlier. */
  lemma {:induction false} FirstWithIsFirst(types: seq<EntityType>, term: Term)
    ensures match FirstWith(types, term)
            case Some(t) =>
              exists i :: 0 <= i < |types| && types[i] == t && term in TermsOf(t) &&
                          forall j :: 0 <= j < i ==> term !in TermsOf(types[j])
            case None => forall t :: t in types ==> term !in TermsOf(t)
  {
    if types != [] {
      var front, last := types[..|types| - 1], types[|types| - 1];
      assert types == front + [last];
      FirstWithIsFirst(front, term);
      var earlier := FirstWith(front, term);
      if earlier.Some? {
        var i :| 0 <= i < |front| && front[i] == earlier.value && term in TermsOf(earlier.value) &&
                 forall j :: 0 <= j < i ==> term !in TermsOf(front[j]);
        assert types[i] == earlier.value;
      } else if term in TermsOf(last) {
        assert types[|types| - 1] == last;
      }
    }
  }

  method ResolveEntityType(types: seq<EntityType>, term: Term) returns (t: Option<EntityType>)
    ensures t == FirstWith(types, term)
  {
    var terms := SemanticTerms(types);
    t := Lookup(terms, term);
  }
}
