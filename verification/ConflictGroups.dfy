/** Cardinality rules indexed by term, and claims grouped by namespace, canonical subject and rule. */
module ConflictGroups {
  import opened Kernel
  import opened Redirects
  import opened Conflicts
  import Sorting

  datatype Rule = Rule(predicateName: string, terms: seq<string>, max: int, source: Option<string>)

  datatype RuleError = BadMax(predicateName: string) | AmbiguousTerm(term: string)

  type RuleIndex = map<string, Rule>

  function Terms(rule: Rule): set<string> {
    {rule.predicateName} + set t | t in rule.terms
  }

  /** The parts of a rule that detection uses. */
  predicate SameRule(a: Rule, b: Rule) {
    a.predicateName == b.predicateName && a.max == b.max && a.source == b.source
  }

  ghost predicate WellFormed(rules: seq<Rule>) {
    && (forall r :: r in rules ==> r.max >= 1)
    && (forall a, b, t :: a in rules && b in rules && t in Terms(a) && t in Terms(b) ==> SameRule(a, b))
  }

  /** Every term of every rule leads to a rule it agrees with. */
  ghost predicate Indexes(rules: seq<Rule>, index: RuleIndex) {
    && (forall t :: t in index ==> index[t] in rules && t in Terms(index[t]))
    && (forall r, t :: r in rules && t in Terms(r) ==> t in index && SameRule(index[t], r))
  }

  lemma IndexedIsWellFormed(rules: seq<Rule>, index: RuleIndex)
    requires Indexes(rules, index) && forall r :: r in rules ==> r.max >= 1
    ensures WellFormed(rules)
  {
    forall a, b, t | a in rules && b in rules && t in Terms(a) && t in Terms(b) ensures SameRule(a, b) {
      assert SameRule(index[t], a) && SameRule(index[t], b);
    }
  }

  /** The index after some of a further rule's terms. */
  ghost predicate IndexesPart(rules: seq<Rule>, rule: Rule, done: set<string>, index: RuleIndex) {
    && (forall t :: t in index ==> (index[t] in rules || index[t] == rule) && t in Terms(index[t]))
    && (forall r, t :: r in rules && t in Terms(r) ==> t in index && SameRule(index[t], r))
    && (forall t :: t in done ==> t in index && SameRule(index[t], rule))
  }

  method IndexRule(rules: seq<Rule>, rule: Rule, before: RuleIndex) returns (r: Result<RuleIndex, RuleError>)
    requires Indexes(rules, before)
    ensures r.Ok? ==> Indexes(rules + [rule], r.value)
    ensures r.Err? ==> !WellFormed(rules + [rule])
  {
    var index := before;
    var todo := Terms(rule);
    ghost var done: set<string> := {};
    while todo != {}
      invariant done !! todo && done + todo == Terms(rule)
      invariant IndexesPart(rules, rule, done, index)
    {
      var t :| t in todo;
      if t in index && !SameRule(index[t], rule) {
        assert index[t] in rules + [rule] && rule in rules + [rule];
        return Err(AmbiguousTerm(t));
      }
      index := index[t := rule];
      todo, done := todo - {t}, done + {t};
    }
    r := Ok(index);
  }

  /** The index exists exactly when every maximum is positive and no two rules disagree on a shared term. */
  method RuleTermIndex(rules: seq<Rule>) returns (r: Result<RuleIndex, RuleError>)
    ensures r.Ok? <==> WellFormed(rules)
    ensures r.Ok? ==> Indexes(rules, r.value)
  {
    var index: RuleIndex := map[];
    for i := 0 to |rules|
      invariant Indexes(rules[..i], index)
      invariant forall k :: k in rules[..i] ==> k.max >= 1
    {
      assert rules[..i + 1] == rules[..i] + [rules[i]];
      if rules[i].max < 1 {
        return Err(BadMax(rules[i].predicateName));
      }
      var step := IndexRule(rules[..i], rules[i], index);
      if step.Err? {
        PrefixIllFormed(rules, i + 1);
        return Err(step.error);
      }
      index := step.value;
    }
    assert rules[..|rules|] == rules;
    IndexedIsWellFormed(rules, index);
    r := Ok(index);
  }

  lemma PrefixIllFormed(rules: seq<Rule>, n: nat)
    requires n <= |rules| && !WellFormed(rules[..n])
    ensures !WellFormed(rules)
  {
    if r :| r in rules[..n] && r.max < 1 {
      assert r in rules;
    } else {
      var a, b, t :| a in rules[..n] && b in rules[..n] && t in Terms(a) && t in Terms(b) && !SameRule(a, b);
      assert a in rules && b in rules;
    }
  }

  // ----- groups

  datatype GroupKey = GroupKey(namespace: nat, subject: EntityId, predicateName: string)

  datatype ClaimGroup = ClaimGroup(subject: EntityId, rule: Rule, claims: seq<Claim>)

  function KeyFor(m: RedirectMap, index: RuleIndex, claim: Claim): Option<GroupKey> {
    if claim.predicateName in index && ActiveForDetection(claim) then
      Some(GroupKey(claim.scope.namespace, Chase(m, claim.subject), index[claim.predicateName].predicateName))
    else None
  }

  function InGroup(m: RedirectMap, index: RuleIndex, key: GroupKey): Claim -> bool {
    (c: Claim) => KeyFor(m, index, c) == Some(key)
  }

  /** A group holds exactly the claims of its key, in their original order, under a rule they all share. */
  ghost predicate GroupRight(m: RedirectMap, index: RuleIndex, claims: seq<Claim>, key: GroupKey, group: ClaimGroup) {
    && group.subject == key.subject
    && group.claims == Sorting.Filter(claims, InGroup(m, index, key))
    && exists c :: c in group.claims && c.predicateName in index && group.rule == index[c.predicateName]
  }

  ghost predicate Grouped(m: RedirectMap, index: RuleIndex, claims: seq<Claim>, groups: map<GroupKey, ClaimGroup>) {
    && (forall c :: c in claims && KeyFor(m, index, c).Some? ==> KeyFor(m, index, c).value in groups)
    && (forall k :: k in groups ==> GroupRight(m, index, claims, k, groups[k]))
  }

  lemma FilterStep(m: RedirectMap, index: RuleIndex, claims: seq<Claim>, claim: Claim, key: GroupKey)
    ensures Sorting.Filter(claims + [claim], InGroup(m, index, key)) ==
            if KeyFor(m, index, claim) == Some(key) then Sorting.Filter(claims, InGroup(m, index, key)) + [claim]
            else Sorting.Filter(claims, InGroup(m, index, key))
  {
    assert (claims + [claim])[..|claims|] == claims;
  }

  lemma KeptGroup(m: RedirectMap, index: RuleIndex, claims: seq<Claim>, claim: Claim, key: GroupKey, group: ClaimGroup)
    requires GroupRight(m, index, claims, key, group) && KeyFor(m, index, claim) != Some(key)
    ensures GroupRight(m, index, claims + [claim], key, group)
  {
    FilterStep(m, index, claims, claim, key);
  }

  lemma GrownGroup(m: RedirectMap, index: RuleIndex, claims: seq<Claim>, claim: Claim, key: GroupKey, group: ClaimGroup)
    requires GroupRight(m, index, claims, key, group) && KeyFor(m, index, claim) == Some(key)
    ensures GroupRight(m, index, claims + [claim], key, group.(claims := group.claims + [claim]))
  {
    FilterStep(m, index, claims, claim, key);
    var c :| c in group.claims && c.predicateName in index && group.rule == index[c.predicateName];
    assert c in group.claims + [claim];
  }

  lemma NewGroup(m: RedirectMap, index: RuleIndex, claims: seq<Claim>, claim: Claim, key: GroupKey)
    requires KeyFor(m, index, claim) == Some(key)
    requires forall c :: c in claims ==> KeyFor(m, index, c) != Some(key)
    ensures GroupRight(m, index, claims + [claim], key,
                       ClaimGroup(key.subject, index[claim.predicateName], [claim]))
  {
    FilterStep(m, index, claims, claim, key);
    Sorting.FilterNone(claims, InGroup(m, index, key));
    assert claim in [claim];
  }

  /** A claim without a key joins no group. */
  lemma SkipClaim(m: RedirectMap, index: RuleIndex, claims: seq<Claim>, claim: Claim, groups: map<GroupKey, ClaimGroup>)
    requires Grouped(m, index, claims, groups) && KeyFor(m, index, claim).None?
    ensures Grouped(m, index, claims + [claim], groups)
  {
    forall k | k in groups ensures GroupRight(m, index, claims + [claim], k, groups[k]) {
      KeptGroup(m, index, claims, claim, k, groups[k]);
    }
  }

  function AddToGroup(groups: map<GroupKey, ClaimGroup>, key: GroupKey, rule: Rule, claim: Claim):
    map<GroupKey, ClaimGroup> {
    if key in groups then groups[key := groups[key].(claims := groups[key].claims + [claim])]
    else groups[key := ClaimGroup(key.subject, rule, [claim])]
  }

  lemma AddClaim(m: RedirectMap, index: RuleIndex, claims: seq<Claim>, claim: Claim, groups: map<GroupKey, ClaimGroup>)
    requires Grouped(m, index, claims, groups) && KeyFor(m, index, claim).Some?
    ensures Grouped(m, index, claims + [claim],
                    AddToGroup(groups, KeyFor(m, index, claim).value, index[claim.predicateName], claim))
  {
    var key := KeyFor(m, index, claim).value;
    var groups' := AddToGroup(groups, key, index[claim.predicateName], claim);
    forall k | k in groups' ensures GroupRight(m, index, claims + [claim], k, groups'[k]) {
      if k != key {
        KeptGroup(m, index, claims, claim, k, groups[k]);
      } else if key in groups {
        GrownGroup(m, index, claims, claim, key, groups[key]);
      } else {
        NewGroup(m, index, claims, claim, key);
      }
    }
  }

  method GroupsForClaims(m: RedirectMap, index: RuleIndex, claims: seq<Claim>)
    returns (groups: map<GroupKey, ClaimGroup>)
    ensures Grouped(m, index, claims, groups)
  {
    groups := map[];
    for i := 0 to |claims|
      invariant Grouped(m, index, claims[..i], groups)
    {
      var claim := claims[i];
      assert claims[..i + 1] == claims[..i] + [claim];
      if claim.predicateName !in index || !ActiveForDetection(claim) {
        SkipClaim(m, index, claims[..i], claim, groups);
      } else {
        AddClaim(m, index, claims[..i], claim, groups);
        var rule := index[claim.predicateName];
        var key := GroupKey(claim.scope.namespace, Chase(m, claim.subject), rule.predicateName);
        if key !in groups {
          groups := groups[key := ClaimGroup(key.subject, rule, [claim])];
        } else {
          groups := groups[key := groups[key].(claims := groups[key].claims + [claim])];
        }
      }
    }
    assert claims[..|claims|] == claims;
  }
}
