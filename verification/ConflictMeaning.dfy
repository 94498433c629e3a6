/** What a recorded conflict says in the fields of the claims and rules, and that nothing of that kind is missed. */
module ConflictMeaning {
  import opened Kernel
  import opened Redirects
  import opened Conflicts
  import opened ConflictGroups
  import opened ConflictLedger

  /** A group holds exactly the claims in force of its namespace and canonical subject, under rules of its predicate. */
  lemma GroupMembers(m: RedirectMap, index: RuleIndex, claims: seq<Claim>, key: GroupKey, group: ClaimGroup, c: Claim)
    requires GroupRight(m, index, claims, key, group)
    ensures group.subject == key.subject && group.rule.predicateName == key.predicateName
    ensures c in group.claims <==>
            && c in claims && (c.status.Asserted? || c.status.Conflicted?) && c.scope.namespace == key.namespace
            && Chase(m, c.subject) == key.subject
            && c.predicateName in index && index[c.predicateName].predicateName == key.predicateName
  {}

  /** Some rule with this predicate, maximum and source names the term. */
  ghost predicate RuleNames(rules: seq<Rule>, term: string, cause: Cause) {
    exists r :: r in rules && (term == r.predicateName || term in r.terms) &&
                r.predicateName == cause.predicateName && r.max == cause.max && r.source == cause.source
  }

  /** A claim in force of the namespace, about the cause's canonical subject, under a rule of the cause, that has begun
      by `at` and not yet ended. */
  ghost predicate Concerns(m: RedirectMap, rules: seq<Rule>, cause: Cause, namespace: nat, at: Timestamp, c: Claim) {
    && (c.status.Asserted? || c.status.Conflicted?) && c.scope.namespace == namespace
    && Chase(m, c.subject) == cause.subject && RuleNames(rules, c.predicateName, cause)
    && c.validFrom <= at && (if c.validTo.Some? then at < c.validTo.value else at < MAX_TIMESTAMP)
  }

  /** Entities compare by canonical id, anything else by the object itself. */
  predicate DifferentObjects(m: RedirectMap, c: Claim, d: Claim) {
    if c.obj.EntityObject? && d.obj.EntityObject? then Chase(m, c.obj.entityId) != Chase(m, d.obj.entityId)
    else c.obj != d.obj
  }

  lemma MemberConcerns(m: RedirectMap, rules: seq<Rule>, index: RuleIndex, claims: set<Claim>, key: GroupKey,
                       first: Claim, at: Timestamp, c: Claim)
    requires Indexes(rules, index) && KeyFor(m, index, first) == Some(key) && c in GroupSet(m, index, claims, key)
    requires c.status.Asserted? || c.status.Conflicted?
    requires c.validFrom <= at && (if c.validTo.Some? then at < c.validTo.value else at < MAX_TIMESTAMP)
    ensures Concerns(m, rules, CauseOf(key.subject, index[first.predicateName]), key.namespace, at, c)
  {
    var t := c.predicateName;
    SamePredicateSameRule(rules, index, t, first.predicateName);
    assert index[t] in rules && t in Terms(index[t]);
  }

  /** Every detectable conflict is real: more claims than its cause allows, of one namespace, subject and rule, all
      holding at one instant, and no two with the same object. */
  lemma DetectedIsReal(m: RedirectMap, rules: seq<Rule>, index: RuleIndex, claims: set<Claim>, id: Identity)
    returns (s: set<Claim>, cause: Cause, namespace: nat, at: Timestamp)
    requires Indexes(rules, index) && WellFormed(rules) && UniqueIds(claims) && Detectable(m, index, claims, id)
    ensures id == Identity(Some(cause), multiset(set c | c in s :: c.id))
    ensures s <= claims && |s| > cause.max >= 1
    ensures forall c :: c in s ==> Concerns(m, rules, cause, namespace, at, c)
    ensures forall c, d :: c in s && d in s && c != d ==> DifferentObjects(m, c, d)
  {
    var first :| first in claims && DetectableAt(m, index, claims, first, id);
    var key, rule := KeyFor(m, index, first).value, index[first.predicateName];
    var group := GroupSet(m, index, claims, key);
    s :| Violating(m, group, rule.max, s) && id == Identity(Some(CauseOf(key.subject, rule)), multiset(IdSet(s)));
    cause, namespace := CauseOf(key.subject, rule), key.namespace;
    at := ReturnedSetHoldsAt(m, group, rule.max, s);
    forall c | c in s ensures Concerns(m, rules, cause, namespace, at, c) {
      MemberConcerns(m, rules, index, claims, key, first, at, c);
    }
    var _ := EverySetViolates(m, group, rule.max, s);
    forall c, d | c in s && d in s && c != d ensures DifferentObjects(m, c, d) {
      assert !SemanticallyEqual(m, c, d);
    }
  }

  lemma ConcernedInGroup(m: RedirectMap, rules: seq<Rule>, index: RuleIndex, claims: set<Claim>, cause: Cause,
                         namespace: nat, at: Timestamp, c: Claim)
    requires Indexes(rules, index) && c in claims && Concerns(m, rules, cause, namespace, at, c)
    ensures c in GroupSet(m, index, claims, GroupKey(namespace, cause.subject, cause.predicateName))
    ensures KeyFor(m, index, c) == Some(GroupKey(namespace, cause.subject, cause.predicateName))
    ensures CauseOf(cause.subject, index[c.predicateName]) == cause
  {
    var r :| r in rules && r.predicateName == cause.predicateName && r.max == cause.max && r.source == cause.source &&
             (c.predicateName == r.predicateName || c.predicateName in r.terms);
    assert c.predicateName in Terms(r) && SameRule(index[c.predicateName], r);
  }

  /** And every violation is detected: claims that concern one cause at one instant and have more distinct keys than it
      allows are covered by a detectable conflict of that cause. */
  lemma RealIsDetected(m: RedirectMap, rules: seq<Rule>, index: RuleIndex, claims: set<Claim>, together: set<Claim>,
                       cause: Cause, namespace: nat, at: Timestamp)
    returns (id: Identity, s: set<Claim>)
    requires Indexes(rules, index) && cause.max >= 1 && together <= claims && |KeysOf(m, together)| > cause.max
    requires forall c :: c in together ==> Concerns(m, rules, cause, namespace, at, c)
    ensures Detectable(m, index, claims, id) && id == Identity(Some(cause), multiset(set c | c in s :: c.id))
    ensures s <= claims && KeysOf(m, together) <= KeysOf(m, s)
  {
    var key := GroupKey(namespace, cause.subject, cause.predicateName);
    var group := GroupSet(m, index, claims, key);
    forall c | c in together ensures c in group {
      ConcernedInGroup(m, rules, index, claims, cause, namespace, at, c);
    }
    s := HoldingClaimsCovered(m, group, cause.max, together, at);
    id := Identity(Some(cause), multiset(IdSet(s)));
    var k :| k in KeysOf(m, together);
    var c :| c in together && CanonicalObjectKey(m, c) == k;
    ConcernedInGroup(m, rules, index, claims, cause, namespace, at, c);
    assert DetectableAt(m, index, claims, c, id);
  }

  // ----- over the stored claims

  /** So is every conflict detection adds to a ledger, and its claims are stored ones that the caller may read, of a
      namespace asked for. */
  lemma RecordedIsReal(ledger: Ledger, m: RedirectMap, rules: seq<Rule>, index: RuleIndex, namespaces: seq<nat>,
                       readable: Claim -> bool, conflict: Conflict)
    returns (s: set<Claim>, cause: Cause, namespace: nat, at: Timestamp)
    requires ledger.Valid() && Indexes(rules, index) && WellFormed(rules)
    requires DetectableIn(m, index, ledger.claims, namespaces, readable, IdentityOf(conflict))
    ensures conflict.cause == Some(cause) && multiset(conflict.claimIds) == multiset(set c | c in s :: c.id)
    ensures |s| > cause.max && namespace in namespaces
    ensures forall c :: c in s ==>
              && c.id in ledger.claims && ledger.claims[c.id] == c && readable(c)
              && Concerns(m, rules, cause, namespace, at, c)
    ensures forall c, d :: c in s && d in s && c != d ==> DifferentObjects(m, c, d)
  {
    var id := IdentityOf(conflict);
    var n :| n in namespaces && Detectable(m, index, VisibleIn(ledger.claims, n, readable), id);
    s, cause, namespace, at := DetectedIsReal(m, rules, index, VisibleIn(ledger.claims, n, readable), id);
    var c :| c in s;
    assert c in VisibleIn(ledger.claims, n, readable) && c.scope.namespace == n;
  }

  lemma ViolationInLedger(ledger: Ledger, m: RedirectMap, rules: seq<Rule>, index: RuleIndex, namespaces: seq<nat>,
                          readable: Claim -> bool, together: set<Claim>, cause: Cause, namespace: nat, at: Timestamp)
    returns (id: Identity, s: set<Claim>)
    requires ledger.Valid() && Indexes(rules, index) && namespace in namespaces
    requires cause.max >= 1 && |KeysOf(m, together)| > cause.max
    requires forall c :: c in together ==>
               && c.id in ledger.claims && ledger.claims[c.id] == c && readable(c)
               && Concerns(m, rules, cause, namespace, at, c)
    ensures DetectableIn(m, index, ledger.claims, namespaces, readable, id)
    ensures id == Identity(Some(cause), multiset(set c | c in s :: c.id)) && KeysOf(m, together) <= KeysOf(m, s)
  {
    var visible := VisibleIn(ledger.claims, namespace, readable);
    forall c | c in together ensures c in visible {
      assert c.id in ledger.claims;
    }
    id, s := RealIsDetected(m, rules, index, visible, together, cause, namespace, at);
  }
}
