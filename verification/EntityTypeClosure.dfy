/** The inheritance closure behind generated JSON schemas, and the predicates it selects. */
module EntityTypeClosure {
  import opened Kernel
  import opened Inheritance
  import opened SemanticContract
  import Sorting

  type PredicateId = nat

  datatype Predicate = Predicate(id: PredicateId, domain: seq<Term>, minimum: Option<int>)

  datatype Contract = Contract(entityTypes: seq<EntityType>, predicates: seq<Predicate>)

  datatype Schema = Schema(entityType: EntityType, properties: seq<PredicateId>, required: seq<PredicateId>)

  datatype SchemaError = UnknownEntityType(term: Term)

  /** What `visit` extends an id by: the parents of the type that the id resolves to. */
  function ResolvedParents(types: seq<EntityType>, id: Term): seq<Term> {
    var t := FirstWith(types, id);
    if t.Some? then t.value.extending else []
  }

  /** Every term of the contract with its resolved parents. */
  function Resolved(types: seq<EntityType>): Parents {
    map term | term in AllTerms(types) :: ResolvedParents(types, term)
  }

  function AllTerms(types: seq<EntityType>): set<Term> {
    set t, term | t in types && term in TermsOf(t) :: term
  }

  function AllParents(types: seq<EntityType>): set<Term> {
    set t, parent | t in types && parent in t.extending :: parent
  }

  lemma ResolvedAt(types: seq<EntityType>, id: Term)
    ensures ParentsOf(Resolved(types), id) == ResolvedParents(types, id)
    ensures forall parent :: parent in ResolvedParents(types, id) ==> parent in AllParents(types)
  {
    FirstWithIsFirst(types, id);
  }

  // ----- the closure

  /** The closure as it grows: a set shared by the recursive visits. */
  class Closure {
    const types: seq<EntityType>
    var values: set<Term>

    constructor (types: seq<EntityType>, root: Term)
      ensures this.types == types && values == {root}
    {
      this.types, values := types, {root};
    }

    /** Every id added by a visit is reachable from its argument and has all its parents added too. */
    method Visit(id: Term)
      requires id in values
      modifies this
      ensures old(values) <= values
      ensures forall v :: v in values - old(values) ==> Reaches(Resolved(types), id, v)
      ensures Expanded(types, values, values - old(values) + {id})
      decreases AllParents(types) - values
    {
      var current := ResolveEntityType(types, id);
      var extended := if current.Some? then current.value.extending else [];
      ResolvedAt(types, id);
      ghost var before := values;
      for k := 0 to |extended|
        invariant before <= values
        invariant forall j :: 0 <= j < k ==> extended[j] in values
        invariant forall v :: v in values - before ==> Reaches(Resolved(types), id, v)
        invariant Expanded(types, values, values - before)
      {
        var parent := extended[k];
        if parent !in values {
          ghost var held := values;
          values := values + {parent};
          ParentReached(Resolved(types), id, parent);
          Visit(parent);
          forall v | v in values - before ensures Reaches(Resolved(types), id, v) {
            if v !in held && v != parent {
              ReachesTransitive(Resolved(types), id, parent, v);
            }
          }
          ExpandedJoin(types, held, values, before, parent);
        }
      }
    }
  }

  /** All parents of the ids in `done` are among `values`. */
  ghost predicate Expanded(types: seq<EntityType>, values: set<Term>, done: set<Term>) {
    forall v, parent :: v in done && parent in ResolvedParents(types, v) ==> parent in values
  }

  lemma ExpandedJoin(types: seq<EntityType>, held: set<Term>, values: set<Term>, before: set<Term>, parent: Term)
    requires before <= held && held + {parent} <= values
    requires Expanded(types, held, held - before)
    requires Expanded(types, values, values - (held + {parent}) + {parent})
    ensures Expanded(types, values, values - before)
  {}

  method EntityTypeClosure(types: seq<EntityType>, entityType: EntityType) returns (values: set<Term>)
    ensures forall id :: id in values <==> Reaches(Resolved(types), entityType.id, id)
  {
    var closure := new Closure(types, entityType.id);
    closure.Visit(entityType.id);
    values := closure.values;
    ClosureIsReach(types, entityType.id, values);
  }

  lemma ClosureIsReach(types: seq<EntityType>, root: Term, values: set<Term>)
    requires root in values && Expanded(types, values, values)
    requires forall v :: v in values - {root} ==> Reaches(Resolved(types), root, v)
    ensures forall id :: id in values <==> Reaches(Resolved(types), root, id)
  {
    ReachesSelf(Resolved(types), root);
    forall id, parent | id in values && parent in ParentsOf(Resolved(types), id) ensures parent in values {
      ResolvedAt(types, id);
    }
    forall id | Reaches(Resolved(types), root, id) ensures id in values {
      var path :| WalkFromTo(Resolved(types), path, root, id);
      ClosedHoldsReached(Resolved(types), values, path);
    }
  }

  // ----- against the declared relation

  /** No type's terms contain the id of a later type; in particular, ids are unique. */
  ghost predicate Unshadowed(types: seq<EntityType>) {
    forall i, j :: 0 <= i < j < |types| ==> types[j].id !in TermsOf(types[i])
  }

  /** No type listed before `t` has the id of `t` among its terms. */
  ghost predicate FirstWithItsId(types: seq<EntityType>, t: EntityType) {
    exists j :: 0 <= j < |types| && types[j] == t && forall i :: 0 <= i < j ==> t.id !in TermsOf(types[i])
  }

  /** Then the id resolves to that type. */
  lemma IdResolves(types: seq<EntityType>, t: EntityType)
    requires FirstWithItsId(types, t)
    ensures t in types && FirstWith(types, t.id) == Some(t)
  {
    var j :| 0 <= j < |types| && types[j] == t && forall i :: 0 <= i < j ==> t.id !in TermsOf(types[i]);
    FirstWithIsFirst(types, t.id);
    assert t.id in TermsOf(t);
    var i :| 0 <= i < |types| && types[i] == FirstWith(types, t.id).value && t.id in TermsOf(types[i]) &&
             forall k :: 0 <= k < i ==> t.id !in TermsOf(types[k]);
    assert i == j;
  }

  lemma UnshadowedIsFirst(types: seq<EntityType>, t: EntityType)
    requires Unshadowed(types) && t in types
    ensures FirstWithItsId(types, t)
  {
    var j :| 0 <= j < |types| && types[j] == t;
  }

  lemma UnshadowedIsUnique(types: seq<EntityType>)
    requires Unshadowed(types)
    ensures UniqueIds(types)
  {
    forall i, j | 0 <= i < j < |types| ensures types[i].id != types[j].id {
      assert types[i].id in TermsOf(types[i]);
    }
  }

  ghost predicate ParentsKnown(types: seq<EntityType>) {
    forall t, parent :: t in types && parent in t.extending ==> parent in TypeIds(types)
  }

  function TypeIds(types: seq<EntityType>): set<Term> {
    set t | t in types :: t.id
  }

  /** The closure of a type is the reflexive-transitive closure of `extends` when parents are known and no term of
      an earlier type shadows an id. */
  lemma ClosureIsExtends(types: seq<EntityType>, t: EntityType, id: Term)
    requires ParentsKnown(types) && Unshadowed(types) && t in types
    ensures Reaches(Resolved(types), t.id, id) <==> Reaches(ParentsMap(types), t.id, id)
  {
    var resolved, declared, ids := Resolved(types), ParentsMap(types), TypeIds(types);
    UnshadowedIsUnique(types);
    forall x | x in ids
      ensures ParentsOf(resolved, x) == ParentsOf(declared, x)
      ensures forall parent :: parent in ParentsOf(resolved, x) ==> parent in ids
    {
      var u :| u in types && u.id == x;
      ResolvedAt(types, x);
      UnshadowedIsFirst(types, u);
      IdResolves(types, u);
      ParentsMapAt(types, u);
    }
    assert t.id in ids;
    if Reaches(resolved, t.id, id) {
      var path :| WalkFromTo(resolved, path, t.id, id);
      WalkTransfers(resolved, declared, ids, path);
      assert WalkFromTo(declared, path, t.id, id);
    }
    if Reaches(declared, t.id, id) {
      var path :| WalkFromTo(declared, path, t.id, id);
      WalkTransfers(resolved, declared, ids, path);
      assert WalkFromTo(resolved, path, t.id, id);
    }
  }

  /** Nothing that contract validation checks excludes shadowing: here ids are unique, parents known and aliases
      distinct, yet the closure of the last type misses its own parent. */
  lemma ShadowedIdLosesParent(base: Term, other: Term, derived: Term)
    requires base != other && base != derived && other != derived
    ensures var types := [EntityType(base, None, [], []), EntityType(other, None, [derived], []),
                          EntityType(derived, None, [], [base])];
            && UniqueIds(types) && ParentsKnown(types) && Acyclic(ParentsMap(types))
            && Extends(types, derived, base) && !Reaches(Resolved(types), derived, base)
  {
    var a, b, c := EntityType(base, None, [], []), EntityType(other, None, [derived], []),
                   EntityType(derived, None, [], [base]);
    var types := [a, b, c];
    assert types[0] == a && types[1] == b && types[2] == c;
    assert c in types && a in types;
    ShadowResolves(a, b, c);
    forall path | WalkFromTo(Resolved(types), path, derived, base) ensures false {
      WalkTail(Resolved(types), path);
      ResolvedAt(types, derived);
    }
    ShadowAcyclic(a, b, c);
  }

  lemma ShadowResolves(a: EntityType, b: EntityType, c: EntityType)
    requires c.id !in TermsOf(a) && c.id in TermsOf(b)
    ensures FirstWith([a, b, c], c.id) == Some(b)
  {
    FirstWithIsFirst([a, b, c], c.id);
    assert [a, b, c][0] == a && [a, b, c][1] == b && [a, b, c][2] == c;
    assert b in [a, b, c];
  }

  lemma ShadowAcyclic(a: EntityType, b: EntityType, c: EntityType)
    requires a.id != b.id && a.id != c.id && b.id != c.id
    requires a.extending == [] && b.extending == [] && c.extending == [a.id]
    ensures Acyclic(ParentsMap([a, b, c]))
  {
    var parents := ParentsMap([a, b, c]);
    assert [a, b, c][..2] == [a, b] && [a, b][..1] == [a] && [a][..0] == [];
    assert ParentsMap([a]) == map[a.id := []];
    assert ParentsMap([a, b]) == map[a.id := [], b.id := []];
    forall path | Loop(parents, path) ensures false {
      WalkTail(parents, path);
      if |path| > 2 {
        WalkTail(parents, path[1..]);
      }
    }
  }

  // ----- predicate selection

  predicate AppliesToEntityType(predicateType: Predicate, ids: set<Term>) {
    predicateType.domain == [] || exists k :: 0 <= k < |predicateType.domain| && predicateType.domain[k] in ids
  }

  function Applicable(ids: set<Term>): Predicate -> bool {
    (p: Predicate) => AppliesToEntityType(p, ids)
  }

  function Mandatory(): Predicate -> bool {
    (p: Predicate) => p.minimum.Some? && p.minimum.value > 0
  }

  function PredicateIds(predicates: seq<Predicate>): seq<PredicateId> {
    seq(|predicates|, i requires 0 <= i < |predicates| => predicates[i].id)
  }

  function SchemaFor(contract: Contract, t: EntityType, closure: set<Term>): Schema {
    var applicable := Sorting.Filter(contract.predicates, Applicable(closure));
    Schema(t, PredicateIds(applicable), PredicateIds(Sorting.Filter(applicable, Mandatory())))
  }

  ghost predicate IsClosure(types: seq<EntityType>, root: Term, values: set<Term>) {
    forall id :: id in values <==> Reaches(Resolved(types), root, id)
  }

  method JsonSchema(contract: Contract, term: Term) returns (schema: Result<Schema, SchemaError>)
    ensures match FirstWith(contract.entityTypes, term)
            case None => schema == Err(UnknownEntityType(term))
            case Some(t) => forall closure :: IsClosure(contract.entityTypes, t.id, closure) ==>
                              schema == Ok(SchemaFor(contract, t, closure))
    ensures schema.Ok? ==>
              && FirstWith(contract.entityTypes, term) == Some(schema.value.entityType)
              && (forall id :: id in schema.value.properties <==>
                    exists p :: p in contract.predicates && p.id == id &&
                                Concerns(contract, schema.value.entityType, p))
              && (forall id :: id in schema.value.required <==>
                    exists p :: p in contract.predicates && p.id == id && p.minimum.Some? && p.minimum.value >= 1 &&
                                Concerns(contract, schema.value.entityType, p))
  {
    var t := ResolveEntityType(contract.entityTypes, term);
    if t.None? {
      return Err(UnknownEntityType(term));
    }
    var values := EntityTypeClosure(contract.entityTypes, t.value);
    forall closure | IsClosure(contract.entityTypes, t.value.id, closure) ensures closure == values {}
    schema := Ok(SchemaFor(contract, t.value, values));
    forall id { SchemaSelects(contract, t.value, values, id); }
  }

  /** The predicate has no domain, or the type reaches an entity type of its domain through resolved parents. */
  ghost predicate Concerns(contract: Contract, t: EntityType, p: Predicate) {
    |p.domain| > 0 ==> exists d :: d in p.domain && Reaches(Resolved(contract.entityTypes), t.id, d)
  }

  lemma SchemaSelects(contract: Contract, t: EntityType, closure: set<Term>, id: PredicateId)
    requires IsClosure(contract.entityTypes, t.id, closure)
    ensures id in SchemaFor(contract, t, closure).properties <==>
            exists p :: p in contract.predicates && p.id == id && Concerns(contract, t, p)
    ensures id in SchemaFor(contract, t, closure).required <==>
            exists p :: p in contract.predicates && p.id == id && p.minimum.Some? && p.minimum.value >= 1 &&
                        Concerns(contract, t, p)
  {
    var applicable := Sorting.Filter(contract.predicates, Applicable(closure));
    forall p: Predicate ensures Applicable(closure)(p) <==> Concerns(contract, t, p) {
      if Concerns(contract, t, p) && |p.domain| > 0 {
        var d :| d in p.domain && Reaches(Resolved(contract.entityTypes), t.id, d);
        var k :| 0 <= k < |p.domain| && p.domain[k] == d;
        assert p.domain[k] in closure;
      }
    }
    IdListed(applicable, id);
    IdListed(Sorting.Filter(applicable, Mandatory()), id);
  }

  lemma IdListed(predicates: seq<Predicate>, id: PredicateId)
    ensures id in PredicateIds(predicates) <==> exists p :: p in predicates && p.id == id
  {
    var ids := PredicateIds(predicates);
    if id in ids {
      var i :| 0 <= i < |ids| && ids[i] == id;
      assert predicates[i] in predicates;
    }
    if exists p :: p in predicates && p.id == id {
      var p :| p in predicates && p.id == id;
      var i :| 0 <= i < |predicates| && predicates[i] == p;
      assert ids[i] == id;
    }
  }

  lemma WiderClosureKeepsPredicates(contract: Contract, t: EntityType, parent: EntityType, narrow: set<Term>,
                                    wide: set<Term>, id: PredicateId)
    requires narrow <= wide
    ensures id in SchemaFor(contract, parent, narrow).properties ==> id in SchemaFor(contract, t, wide).properties
    ensures id in SchemaFor(contract, parent, narrow).required ==> id in SchemaFor(contract, t, wide).required
  {
    var few := Sorting.Filter(contract.predicates, Applicable(narrow));
    var many := Sorting.Filter(contract.predicates, Applicable(wide));
    IdListed(few, id);
    IdListed(many, id);
    IdListed(Sorting.Filter(few, Mandatory()), id);
    IdListed(Sorting.Filter(many, Mandatory()), id);
    assert forall p :: p in few ==> p in many;
  }

  /** A subtype whose id no earlier type shadows has, in its schema, every property and every required property of
      each parent's schema. */
  lemma SubtypeInherits(contract: Contract, t: EntityType, parent: EntityType, own: set<Term>, inherited: set<Term>,
                        id: PredicateId)
    requires FirstWithItsId(contract.entityTypes, t) && parent.id in t.extending
    requires IsClosure(contract.entityTypes, t.id, own) && IsClosure(contract.entityTypes, parent.id, inherited)
    ensures inherited <= own
    ensures id in SchemaFor(contract, parent, inherited).properties ==> id in SchemaFor(contract, t, own).properties
    ensures id in SchemaFor(contract, parent, inherited).required ==> id in SchemaFor(contract, t, own).required
  {
    var resolved := Resolved(contract.entityTypes);
    ResolvedAt(contract.entityTypes, t.id);
    IdResolves(contract.entityTypes, t);
    ParentReached(resolved, t.id, parent.id);
    forall x | x in inherited ensures x in own {
      ReachesTransitive(resolved, t.id, parent.id, x);
    }
    WiderClosureKeepsPredicates(contract, t, parent, inherited, own, id);
  }

  // ----- exactly when terms can be trusted

  /** The same terms in the same places; what extends what may differ. */
  ghost predicate SameTerms(types: seq<EntityType>, other: seq<EntityType>) {
    && |types| == |other|
    && forall i :: 0 <= i < |types| ==> TermsOf(types[i]) == TermsOf(other[i]) && types[i].id == other[i].id
  }

  /** Every closure is the reflexive-transitive closure of `extends`. */
  ghost predicate ClosuresExact(types: seq<EntityType>) {
    forall t, id :: t in types ==> (Reaches(Resolved(types), t.id, id) <==> Reaches(ParentsMap(types), t.id, id))
  }

  /** Every schema requires what the schemas of its type's parents require. */
  ghost predicate RequirementsInherited(contract: Contract) {
    forall t, parent, own, inherited, id ::
      t in contract.entityTypes && parent in contract.entityTypes && parent.id in t.extending &&
      IsClosure(contract.entityTypes, t.id, own) && IsClosure(contract.entityTypes, parent.id, inherited) &&
      id in SchemaFor(contract, parent, inherited).required ==>
        id in SchemaFor(contract, t, own).required
  }

  lemma SameTermsUnshadowed(types: seq<EntityType>, other: seq<EntityType>)
    requires SameTerms(types, other) && Unshadowed(types)
    ensures Unshadowed(other)
  {}

  /** Of the types only the shadowed one extends anything, namely the type that shadows it. */
  function Shadowing(types: seq<EntityType>, i: nat, j: nat): seq<EntityType>
    requires i < j < |types|
  {
    OnlyExtends(types, j, [types[i].id])
  }

  /** Every id but the shadowed one's own definition resolves to a type without parents. */
  lemma ResolvesEarlier(types: seq<EntityType>, i: nat, j: nat, id: Term)
    requires i < j < |types| && id in TermsOf(types[i])
    ensures ResolvedParents(Shadowing(types, i, j), id) == []
  {
    var other := Shadowing(types, i, j);
    FirstWithIsFirst(other, id);
    assert id in TermsOf(other[i]);
    var k :| 0 <= k < |other| && Some(other[k]) == FirstWith(other, id) && id in TermsOf(other[k]) &&
             forall l :: 0 <= l < k ==> id !in TermsOf(other[l]);
    assert k <= i;
  }

  lemma ShadowingFacts(types: seq<EntityType>, i: nat, j: nat)
    requires UniqueIds(types) && i < j < |types| && types[j].id in TermsOf(types[i])
    ensures var other := Shadowing(types, i, j);
            && SameTerms(types, other) && ParentsKnown(other) && UniqueIds(other)
            && Extends(other, types[j].id, types[i].id)
            && ResolvedParents(other, types[j].id) == [] && ResolvedParents(other, types[i].id) == []
  {
    var other := Shadowing(types, i, j);
    assert other[i] in other && other[j] in other;
    assert other[i].id in TypeIds(other);
    assert types[i].id in TermsOf(types[i]);
    ResolvesEarlier(types, i, j, types[j].id);
    ResolvesEarlier(types, i, j, types[i].id);
  }

  /** An id that resolves to a type without parents has only itself in its closure. */
  lemma NoParentsReachesItself(types: seq<EntityType>, root: Term)
    requires ResolvedParents(types, root) == []
    ensures forall id :: Reaches(Resolved(types), root, id) <==> id == root
    ensures IsClosure(types, root, {root})
  {
    ReachesSelf(Resolved(types), root);
    ResolvedAt(types, root);
    forall id | Reaches(Resolved(types), root, id) ensures id == root {
      var path :| WalkFromTo(Resolved(types), path, root, id);
      if |path| > 1 {
        WalkTail(Resolved(types), path);
      }
    }
  }

  lemma ShadowBreaksClosure(types: seq<EntityType>, i: nat, j: nat)
    requires UniqueIds(types) && i < j < |types| && types[j].id in TermsOf(types[i])
    ensures var other := Shadowing(types, i, j);
            SameTerms(types, other) && ParentsKnown(other) && !ClosuresExact(other)
  {
    var other := Shadowing(types, i, j);
    ShadowingFacts(types, i, j);
    NoParentsReachesItself(other, types[j].id);
    ParentsAreExtended(other, types[j].id, types[i].id);
    ParentReached(ParentsMap(other), types[j].id, types[i].id);
    assert other[j] in other && other[j].id == types[j].id && types[i].id != types[j].id;
  }

  /** Terms alone decide whether closures can be trusted: with unique ids, they are exact for every `extends` over
      known parents if and only if no id is shadowed. */
  lemma ClosuresExactIff(types: seq<EntityType>)
    requires UniqueIds(types)
    ensures Unshadowed(types) <==>
            forall other :: SameTerms(types, other) && ParentsKnown(other) ==> ClosuresExact(other)
  {
    if Unshadowed(types) {
      forall other: seq<EntityType> | SameTerms(types, other) && ParentsKnown(other) ensures ClosuresExact(other) {
        SameTermsUnshadowed(types, other);
        forall t: EntityType, id: Term | t in other
          ensures Reaches(Resolved(other), t.id, id) <==> Reaches(ParentsMap(other), t.id, id)
        {
          ClosureIsExtends(other, t, id);
        }
      }
    } else {
      var i, j :| 0 <= i < j < |types| && types[j].id in TermsOf(types[i]);
      ShadowBreaksClosure(types, i, j);
    }
  }

  /** One predicate, required of `base` and its subtypes. */
  function RequiredOf(base: Term, id: PredicateId): Predicate {
    Predicate(id, [base], Some(1))
  }

  lemma RequiredIff(types: seq<EntityType>, base: Term, id: PredicateId, t: EntityType, closure: set<Term>)
    ensures id in SchemaFor(Contract(types, [RequiredOf(base, id)]), t, closure).required <==> base in closure
  {
    var p := RequiredOf(base, id);
    var applicable := Sorting.Filter([p], Applicable(closure));
    IdListed(Sorting.Filter(applicable, Mandatory()), id);
    assert p in [p] && p.domain[0] == base;
    assert Applicable(closure)(p) <==> base in closure;
    assert Mandatory()(p);
  }

  /** A shadowed subtype loses a requirement of its parent. */
  lemma ShadowLosesRequirement(types: seq<EntityType>, i: nat, j: nat, id: PredicateId)
    requires UniqueIds(types) && i < j < |types| && types[j].id in TermsOf(types[i])
    ensures var other := Shadowing(types, i, j);
            var contract := Contract(other, [RequiredOf(types[i].id, id)]);
            && other[i].id in other[j].extending
            && IsClosure(other, other[i].id, {other[i].id}) && IsClosure(other, other[j].id, {other[j].id})
            && id in SchemaFor(contract, other[i], {other[i].id}).required
            && id !in SchemaFor(contract, other[j], {other[j].id}).required
  {
    var other := Shadowing(types, i, j);
    ShadowingFacts(types, i, j);
    NoParentsReachesItself(other, types[i].id);
    NoParentsReachesItself(other, types[j].id);
    RequiredIff(other, types[i].id, id, other[i], {other[i].id});
    RequiredIff(other, types[i].id, id, other[j], {other[j].id});
    assert types[i].id != types[j].id;
  }

  lemma ShadowBreaksInheritance(types: seq<EntityType>, i: nat, j: nat)
    requires UniqueIds(types) && i < j < |types| && types[j].id in TermsOf(types[i])
    ensures var other := Shadowing(types, i, j);
            SameTerms(types, other) && ParentsKnown(other) &&
            !RequirementsInherited(Contract(other, [RequiredOf(types[i].id, 0)]))
  {
    var other := Shadowing(types, i, j);
    ShadowingFacts(types, i, j);
    ShadowLosesRequirement(types, i, j, 0);
    assert other[i] in other && other[j] in other;
  }

  /** And they alone decide whether requirements are inherited: with unique ids, by every subtype in every contract
      over these terms, whatever its predicates, if and only if no id is shadowed. */
  lemma RequirementsInheritedIff(types: seq<EntityType>)
    requires UniqueIds(types)
    ensures Unshadowed(types) <==>
            forall contract: Contract ::
              SameTerms(types, contract.entityTypes) && ParentsKnown(contract.entityTypes) ==>
                RequirementsInherited(contract)
  {
    if Unshadowed(types) {
      forall contract: Contract | SameTerms(types, contract.entityTypes) ensures RequirementsInherited(contract) {
        SameTermsUnshadowed(types, contract.entityTypes);
        UnshadowedInherits(contract);
      }
    } else {
      var i, j :| 0 <= i < j < |types| && types[j].id in TermsOf(types[i]);
      ShadowBreaksInheritance(types, i, j);
      assert SameTerms(types, Contract(Shadowing(types, i, j), [RequiredOf(types[i].id, 0)]).entityTypes);
    }
  }

  lemma UnshadowedInherits(contract: Contract)
    requires Unshadowed(contract.entityTypes)
    ensures RequirementsInherited(contract)
  {
    var types := contract.entityTypes;
    forall t, parent, own, inherited, id |
      t in types && parent in types && parent.id in t.extending &&
      IsClosure(types, t.id, own) && IsClosure(types, parent.id, inherited) &&
      id in SchemaFor(contract, parent, inherited).required
      ensures id in SchemaFor(contract, t, own).required
    {
      UnshadowedIsFirst(types, t);
      SubtypeInherits(contract, t, parent, own, inherited, id);
    }
  }
}
