/** One tenant's stored conflicts and resolutions: detection adds each conflict identity once, curation
    resolves each conflict once, and retrieval drops the claims that lost. */
module ConflictLedger {
  import opened Kernel
  import opened Redirects
  import opened Conflicts
  import opened ConflictDetection
  import opened ConflictGroups
  import Sorting

  datatype Cause = Cause(subject: EntityId, predicateName: string, max: int, source: Option<string>)

  /** Conflicts found by the detector have a cause; those recorded by a curator have none. */
  datatype Conflict = Conflict(id: ConflictId, claimIds: seq<ClaimId>, cause: Option<Cause>)

  datatype Resolution = Resolution(id: ConflictId, claimIds: seq<ClaimId>, preferred: ClaimId)

  /** The identity string: the cause, and the claim ids in any order. */
  datatype Identity = Identity(cause: Option<Cause>, claims: multiset<ClaimId>)

  function IdentityOf(c: Conflict): Identity {
    Identity(c.cause, multiset(c.claimIds))
  }

  function Identities(conflicts: seq<Conflict>): set<Identity> {
    set i | 0 <= i < |conflicts| :: IdentityOf(conflicts[i])
  }

  function CauseOf(subject: EntityId, rule: Rule): Cause {
    Cause(subject, rule.predicateName, rule.max, rule.source)
  }

  // ----- ledger invariants

  /** Conflict ids are unique and drawn below the next fresh one. */
  ghost predicate FreshIds(conflicts: seq<Conflict>, nextId: ConflictId) {
    && (forall i :: 0 <= i < |conflicts| ==> conflicts[i].id < nextId)
    && (forall i, j :: 0 <= i < j < |conflicts| ==> conflicts[i].id != conflicts[j].id)
  }

  /** No two detector conflicts share an identity. */
  ghost predicate DetectedOnce(conflicts: seq<Conflict>) {
    forall i, j :: 0 <= i < j < |conflicts| && conflicts[i].cause.Some? && conflicts[j].cause.Some? ==>
      IdentityOf(conflicts[i]) != IdentityOf(conflicts[j])
  }

  ghost predicate Resolves(r: Resolution, c: Conflict) {
    r.id == c.id && r.claimIds == c.claimIds && r.preferred in c.claimIds
  }

  /** Every resolution prefers a claim of the conflict it is stored under. */
  ghost predicate ResolutionsMatch(conflicts: seq<Conflict>, resolutions: map<ConflictId, Resolution>) {
    forall id :: id in resolutions ==>
      resolutions[id].id == id && exists i :: 0 <= i < |conflicts| && Resolves(resolutions[id], conflicts[i])
  }

  ghost predicate LedgerSound(conflicts: seq<Conflict>, resolutions: map<ConflictId, Resolution>, nextId: ConflictId) {
    FreshIds(conflicts, nextId) && DetectedOnce(conflicts) && ResolutionsMatch(conflicts, resolutions)
  }

  // ----- what detection adds

  /** `detected` holds new identities from `found`, each once. */
  ghost predicate Adds(before: seq<Conflict>, detected: seq<Conflict>, found: set<Identity>) {
    && (forall i :: 0 <= i < |detected| ==>
          detected[i].cause.Some? && IdentityOf(detected[i]) in found && IdentityOf(detected[i]) !in Identities(before))
    && (forall i, j :: 0 <= i < j < |detected| ==> IdentityOf(detected[i]) != IdentityOf(detected[j]))
  }

  lemma IdentitiesAppend(a: seq<Conflict>, b: seq<Conflict>)
    ensures Identities(a + b) == Identities(a) + Identities(b)
  {
    forall x | x in Identities(a) + Identities(b) ensures x in Identities(a + b) {
      if x in Identities(a) {
        var i :| 0 <= i < |a| && IdentityOf(a[i]) == x;
        assert (a + b)[i] == a[i];
      } else {
        var i :| 0 <= i < |b| && IdentityOf(b[i]) == x;
        assert (a + b)[|a| + i] == b[i];
      }
    }
  }

  lemma AddsCompose(before: seq<Conflict>, d: seq<Conflict>, f: set<Identity>, e: seq<Conflict>, g: set<Identity>)
    requires Adds(before, d, f) && Adds(before + d, e, g)
    ensures Adds(before, d + e, f + g)
  {
    IdentitiesAppend(before, d);
    forall i | 0 <= i < |d| ensures IdentityOf(d[i]) in Identities(d) {}
  }

  /** The ledger grew from `before` to `after` by `detected`, and `known` are its identities now. */
  ghost predicate Recorded(before: seq<Conflict>, after: seq<Conflict>, detected: seq<Conflict>, found: set<Identity>,
                           known: set<Identity>) {
    after == before + detected && known == Identities(after) && Adds(before, detected, found)
  }

  lemma RecordedNothing(before: seq<Conflict>)
    ensures Recorded(before, before, [], {}, Identities(before))
  {}

  lemma RecordedCompose(before: seq<Conflict>, mid: seq<Conflict>, d: seq<Conflict>, f: set<Identity>, k: set<Identity>,
                        after: seq<Conflict>, e: seq<Conflict>, g: set<Identity>, k': set<Identity>)
    requires Recorded(before, mid, d, f, k) && Recorded(mid, after, e, g, k')
    ensures Recorded(before, after, d + e, f + g, k') && k <= k'
  {
    AddsCompose(before, d, f, e, g);
    IdentitiesAppend(mid, e);
    assert before + (d + e) == before + d + e;
  }

  lemma RecordedWider(before: seq<Conflict>, after: seq<Conflict>, d: seq<Conflict>, f: set<Identity>,
                      g: set<Identity>, k: set<Identity>)
    requires Recorded(before, after, d, f, k) && f <= g
    ensures Recorded(before, after, d, g, k)
  {}

  lemma AddsKeepsDetectedOnce(before: seq<Conflict>, d: seq<Conflict>, f: set<Identity>)
    requires DetectedOnce(before) && Adds(before, d, f)
    ensures DetectedOnce(before + d)
  {
    forall i | 0 <= i < |before| ensures IdentityOf(before[i]) in Identities(before) {}
  }

  lemma ResolutionsPersist(conflicts: seq<Conflict>, more: seq<Conflict>, resolutions: map<ConflictId, Resolution>)
    requires ResolutionsMatch(conflicts, resolutions)
    ensures ResolutionsMatch(conflicts + more, resolutions)
  {
    forall id | id in resolutions
      ensures exists i :: 0 <= i < |conflicts + more| && Resolves(resolutions[id], (conflicts + more)[i])
    {
      var i :| 0 <= i < |conflicts| && Resolves(resolutions[id], conflicts[i]);
      assert (conflicts + more)[i] == conflicts[i];
    }
  }

  // ----- what detection looks for

  function IdSet(claims: set<Claim>): set<ClaimId> {
    set c | c in claims :: c.id
  }

  function GroupSet(m: RedirectMap, index: RuleIndex, claims: set<Claim>, key: GroupKey): set<Claim> {
    set c | c in claims && KeyFor(m, index, c) == Some(key)
  }

  /** Some maximal violating set of claim `c`'s group has this identity. */
  ghost predicate DetectableAt(m: RedirectMap, index: RuleIndex, claims: set<Claim>, c: Claim, id: Identity) {
    && KeyFor(m, index, c).Some?
    && var key, rule := KeyFor(m, index, c).value, index[c.predicateName];
       exists s :: Violating(m, GroupSet(m, index, claims, key), rule.max, s) &&
                   id == Identity(Some(CauseOf(key.subject, rule)), multiset(IdSet(s)))
  }

  /** The identities the detector must have stored for these claims. */
  ghost predicate Detectable(m: RedirectMap, index: RuleIndex, claims: set<Claim>, id: Identity) {
    exists c :: c in claims && DetectableAt(m, index, claims, c, id)
  }

  function ListIdentity(group: ClaimGroup, list: seq<Claim>): Identity {
    Identity(Some(CauseOf(group.subject, group.rule)), multiset(ClaimIdsOf(list)))
  }

  function ListIdentities(group: ClaimGroup, lists: seq<seq<Claim>>): set<Identity> {
    set i | 0 <= i < |lists| :: ListIdentity(group, lists[i])
  }

  lemma {:induction false} ListBag(list: seq<Claim>)
    requires DistinctClaims(list)
    ensures multiset(ClaimIdsOf(list)) == multiset(IdSet(AsSet(list)))
  {
    if list == [] {
      assert ClaimIdsOf(list) == [] && IdSet(AsSet(list)) == {};
    } else {
      var front, last := list[..|list| - 1], list[|list| - 1];
      ListBag(front);
      assert list == front + [last];
      assert ClaimIdsOf(list) == ClaimIdsOf(front) + [last.id];
      IdSetAppend(front, last);
    }
  }

  lemma IdSetAppend(front: seq<Claim>, last: Claim)
    requires forall c :: c in front ==> c.id != last.id
    ensures IdSet(AsSet(front + [last])) == IdSet(AsSet(front)) + {last.id} && last.id !in IdSet(AsSet(front))
  {
    assert AsSet(front + [last]) == AsSet(front) + {last};
    assert last in AsSet(front + [last]);
    forall x | x in IdSet(AsSet(front)) ensures x in IdSet(AsSet(front + [last])) {
      var c :| c in AsSet(front) && c.id == x;
      assert c in AsSet(front + [last]);
    }
  }

  lemma GroupClaimsAsSet(m: RedirectMap, index: RuleIndex, list: seq<Claim>, key: GroupKey, group: ClaimGroup)
    requires GroupRight(m, index, list, key, group)
    ensures AsSet(group.claims) == GroupSet(m, index, AsSet(list), key)
  {}

  /** Two rules of one predicate are the same to the detector. */
  lemma SamePredicateSameRule(rules: seq<Rule>, index: RuleIndex, s: string, t: string)
    requires Indexes(rules, index) && s in index && t in index && index[s].predicateName == index[t].predicateName
    ensures SameRule(index[s], index[t])
  {
    var p := index[s].predicateName;
    assert p in Terms(index[s]) && p in Terms(index[t]);
    assert SameRule(index[p], index[s]) && SameRule(index[p], index[t]);
  }

  /** A group's lists have exactly the identities detectable at each of its claims. */
  lemma GroupDetects(m: RedirectMap, rules: seq<Rule>, index: RuleIndex, list: seq<Claim>, key: GroupKey,
                     group: ClaimGroup, lists: seq<seq<Claim>>, c: Claim, id: Identity)
    requires Indexes(rules, index) && GroupRight(m, index, list, key, group)
    requires forall i :: 0 <= i < |lists| ==>
               ById(lists[i]) && Violating(m, AsSet(group.claims), group.rule.max, AsSet(lists[i]))
    requires forall s :: Violating(m, AsSet(group.claims), group.rule.max, s) ==>
               exists i :: 0 <= i < |lists| && AsSet(lists[i]) == s
    requires c in list && KeyFor(m, index, c) == Some(key)
    ensures id in ListIdentities(group, lists) <==> DetectableAt(m, index, AsSet(list), c, id)
  {
    GroupClaimsAsSet(m, index, list, key, group);
    var c' :| c' in group.claims && c'.predicateName in index && group.rule == index[c'.predicateName];
    SamePredicateSameRule(rules, index, c.predicateName, c'.predicateName);
    if id in ListIdentities(group, lists) {
      var i :| 0 <= i < |lists| && ListIdentity(group, lists[i]) == id;
      ListBag(lists[i]);
    }
    if DetectableAt(m, index, AsSet(list), c, id) {
      var s :| Violating(m, AsSet(group.claims), group.rule.max, s) &&
               id == Identity(Some(CauseOf(key.subject, group.rule)), multiset(IdSet(s)));
      var i :| 0 <= i < |lists| && AsSet(lists[i]) == s;
      ListBag(lists[i]);
    }
  }

  // ----- what detection must be permitted

  type Permission = (Cause, seq<Claim>) -> bool

  /** Some maximal violating set of claim `c`'s group may not be recorded. */
  ghost predicate RefusedAt(m: RedirectMap, index: RuleIndex, claims: set<Claim>, c: Claim, permitted: Permission) {
    && KeyFor(m, index, c).Some?
    && var key, rule := KeyFor(m, index, c).value, index[c.predicateName];
       exists list :: ById(list) && Violating(m, GroupSet(m, index, claims, key), rule.max, AsSet(list)) &&
                      !permitted(CauseOf(key.subject, rule), list)
  }

  ghost predicate Refused(m: RedirectMap, index: RuleIndex, claims: set<Claim>, permitted: Permission) {
    exists c :: c in claims && RefusedAt(m, index, claims, c, permitted)
  }

  ghost predicate ListRefused(group: ClaimGroup, lists: seq<seq<Claim>>, permitted: Permission) {
    exists i :: 0 <= i < |lists| && !permitted(CauseOf(group.subject, group.rule), lists[i])
  }

  lemma ListRefusedStep(group: ClaimGroup, lists: seq<seq<Claim>>, i: nat, permitted: Permission)
    requires i < |lists|
    ensures ListRefused(group, lists[..i + 1], permitted) <==>
            ListRefused(group, lists[..i], permitted) || !permitted(CauseOf(group.subject, group.rule), lists[i])
    ensures ListRefused(group, lists[..i + 1], permitted) ==> ListRefused(group, lists, permitted)
  {
    var all, before := lists[..i + 1], lists[..i];
    assert all[i] == lists[i];
    assert forall j :: 0 <= j < i ==> all[j] == before[j] && all[j] == lists[j];
  }

  /** Some claim of the group shows a refusal. */
  ghost predicate KeyRefused(m: RedirectMap, index: RuleIndex, list: seq<Claim>, key: GroupKey,
                             permitted: Permission) {
    exists c :: c in list && KeyFor(m, index, c) == Some(key) && RefusedAt(m, index, AsSet(list), c, permitted)
  }

  ghost predicate AnyRefused(m: RedirectMap, index: RuleIndex, list: seq<Claim>, keys: set<GroupKey>,
                             permitted: Permission) {
    exists key :: key in keys && KeyRefused(m, index, list, key, permitted)
  }

  lemma AnyRefusedNext(m: RedirectMap, index: RuleIndex, list: seq<Claim>, keys: set<GroupKey>, key: GroupKey,
                       permitted: Permission)
    ensures AnyRefused(m, index, list, keys + {key}, permitted) <==>
            AnyRefused(m, index, list, keys, permitted) || KeyRefused(m, index, list, key, permitted)
  {}

  lemma AnyGroupRefused(m: RedirectMap, index: RuleIndex, list: seq<Claim>, groups: map<GroupKey, ClaimGroup>,
                        permitted: Permission)
    requires Grouped(m, index, list, groups)
    ensures AnyRefused(m, index, list, groups.Keys, permitted) <==> Refused(m, index, AsSet(list), permitted)
  {
    if AnyRefused(m, index, list, groups.Keys, permitted) {
      var key :| key in groups.Keys && KeyRefused(m, index, list, key, permitted);
      var c :| c in list && RefusedAt(m, index, AsSet(list), c, permitted);
      assert c in AsSet(list);
    }
    if Refused(m, index, AsSet(list), permitted) {
      var c :| c in list && RefusedAt(m, index, AsSet(list), c, permitted);
      assert KeyRefused(m, index, list, KeyFor(m, index, c).value, permitted);
    }
  }

  lemma ListsRefuseAt(m: RedirectMap, rules: seq<Rule>, index: RuleIndex, list: seq<Claim>, key: GroupKey,
                      group: ClaimGroup, lists: seq<seq<Claim>>, c: Claim, permitted: Permission)
    requires Indexes(rules, index) && GroupRight(m, index, list, key, group)
    requires forall i :: 0 <= i < |lists| ==>
               ById(lists[i]) && Violating(m, AsSet(group.claims), group.rule.max, AsSet(lists[i]))
    requires forall s :: Violating(m, AsSet(group.claims), group.rule.max, s) ==>
               exists i :: 0 <= i < |lists| && AsSet(lists[i]) == s
    requires c in list && KeyFor(m, index, c) == Some(key)
    ensures ListRefused(group, lists, permitted) <==> RefusedAt(m, index, AsSet(list), c, permitted)
  {
    GroupClaimsAsSet(m, index, list, key, group);
    var c' :| c' in group.claims && c'.predicateName in index && group.rule == index[c'.predicateName];
    SamePredicateSameRule(rules, index, c.predicateName, c'.predicateName);
    if RefusedAt(m, index, AsSet(list), c, permitted) {
      var s :| ById(s) && Violating(m, AsSet(group.claims), group.rule.max, AsSet(s)) &&
               !permitted(CauseOf(key.subject, group.rule), s);
      var i :| 0 <= i < |lists| && AsSet(lists[i]) == AsSet(s);
      ByIdUnique(lists[i], s);
    }
  }

  /** A group shows a refusal exactly when one of its lists is refused. */
  lemma ListsRefuse(m: RedirectMap, rules: seq<Rule>, index: RuleIndex, list: seq<Claim>, key: GroupKey,
                    group: ClaimGroup, lists: seq<seq<Claim>>, permitted: Permission)
    requires Indexes(rules, index) && GroupRight(m, index, list, key, group)
    requires forall i :: 0 <= i < |lists| ==>
               ById(lists[i]) && Violating(m, AsSet(group.claims), group.rule.max, AsSet(lists[i]))
    requires forall s :: Violating(m, AsSet(group.claims), group.rule.max, s) ==>
               exists i :: 0 <= i < |lists| && AsSet(lists[i]) == s
    ensures ListRefused(group, lists, permitted) <==> KeyRefused(m, index, list, key, permitted)
  {
    forall c | c in list && KeyFor(m, index, c) == Some(key)
      ensures ListRefused(group, lists, permitted) <==> RefusedAt(m, index, AsSet(list), c, permitted)
    {
      ListsRefuseAt(m, rules, index, list, key, group, lists, c, permitted);
    }
    var c :| c in group.claims;
    assert c in list && KeyFor(m, index, c) == Some(key);
  }

  // ----- resolving

  datatype ResolveError =
    | ReasonMissing
    | ConflictNotFound
    | ClaimsMismatch
    | PreferredOutside
    | ResolveDenied
    | AlreadyResolved
    | ClaimsNotFound
    | ClaimUnreadable
    | ScopesCrossed

  datatype DetectionError = Unusable(reason: RuleError) | Denied

  function FindById(conflicts: seq<Conflict>, id: ConflictId): (r: Option<Conflict>)
    ensures r.Some? ==> r.value in conflicts && r.value.id == id
    ensures r.None? ==> forall c :: c in conflicts ==> c.id != id
  {
    if conflicts == [] then None
    else if conflicts[0].id == id then Some(conflicts[0])
    else FindById(conflicts[1..], id)
  }

  function FindByClaims(conflicts: seq<Conflict>, claimIds: seq<ClaimId>): (r: Option<Conflict>)
    ensures r.Some? ==> r.value in conflicts && multiset(r.value.claimIds) == multiset(claimIds)
    ensures r.None? ==> forall c :: c in conflicts ==> multiset(c.claimIds) != multiset(claimIds)
  {
    if conflicts == [] then None
    else if multiset(conflicts[0].claimIds) == multiset(claimIds) then Some(conflicts[0])
    else FindByClaims(conflicts[1..], claimIds)
  }

  function RequireClaims(claims: map<ClaimId, Claim>, claimIds: seq<ClaimId>, readable: Claim -> bool):
    (r: Option<ResolveError>)
    ensures r.None? <==> forall c :: c in claimIds ==> c in claims && readable(claims[c])
  {
    if exists c :: c in claimIds && c !in claims then Some(ClaimsNotFound)
    else if exists c :: c in claimIds && !readable(claims[c]) then Some(ClaimUnreadable)
    else None
  }

  /** A resolution, and the conflict to store with it when none was found. */
  datatype Resolved = Resolved(resolution: Resolution, recorded: Option<Conflict>)

  function ResolveExisting(existing: Conflict, resolutions: map<ConflictId, Resolution>, claims: map<ClaimId, Claim>,
                           claimIds: seq<ClaimId>, preferred: ClaimId, allowed: bool, readable: Claim -> bool):
    Result<Resolved, ResolveError> {
    if multiset(existing.claimIds) != multiset(claimIds) then Err(ClaimsMismatch)
    else if preferred !in existing.claimIds then Err(PreferredOutside)
    else if !allowed then Err(ResolveDenied)
    else if existing.id in resolutions then Err(AlreadyResolved)
    else
      var missing := RequireClaims(claims, existing.claimIds, readable);
      if missing.Some? then Err(missing.value)
      else Ok(Resolved(Resolution(existing.id, existing.claimIds, preferred), None))
  }

  function ResolveNew(claims: map<ClaimId, Claim>, id: ConflictId, claimIds: seq<ClaimId>, preferred: ClaimId,
                      allowed: bool, readable: Claim -> bool): Result<Resolved, ResolveError>
    requires |claimIds| >= 2
  {
    var missing := RequireClaims(claims, claimIds, readable);
    if missing.Some? then Err(missing.value)
    else if exists c :: c in claimIds && claims[c].scope != claims[claimIds[0]].scope then Err(ScopesCrossed)
    else if !allowed then Err(ResolveDenied)
    else if preferred !in claimIds then Err(PreferredOutside)
    else Ok(Resolved(Resolution(id, claimIds, preferred), Some(Conflict(id, claimIds, None))))
  }

  function ResolveOutcome(conflicts: seq<Conflict>, resolutions: map<ConflictId, Resolution>,
                          claims: map<ClaimId, Claim>, nextId: ConflictId, conflictId: Option<ConflictId>,
                          claimIds: seq<ClaimId>, preferred: ClaimId, hasReason: bool, allowed: bool,
                          readable: Claim -> bool):
    Result<Resolved, ResolveError>
    requires |claimIds| >= 2
  {
    if !hasReason then Err(ReasonMissing)
    else
      var existing :=
        if conflictId.None? then FindByClaims(conflicts, claimIds) else FindById(conflicts, conflictId.value);
      if conflictId.Some? && existing.None? then Err(ConflictNotFound)
      else if existing.Some? then
        ResolveExisting(existing.value, resolutions, claims, claimIds, preferred, allowed, readable)
      else ResolveNew(claims, nextId, claimIds, preferred, allowed, readable)
  }

  /** An accepted resolution resolves its conflict for the first time, in favour of one of its own claims. */
  lemma ResolutionIsFirst(conflicts: seq<Conflict>, resolutions: map<ConflictId, Resolution>,
                          claims: map<ClaimId, Claim>, nextId: ConflictId, conflictId: Option<ConflictId>,
                          claimIds: seq<ClaimId>, preferred: ClaimId, hasReason: bool, allowed: bool,
                          readable: Claim -> bool, r: Resolved)
    requires |claimIds| >= 2 && LedgerSound(conflicts, resolutions, nextId)
    requires ResolveOutcome(conflicts, resolutions, claims, nextId, conflictId, claimIds, preferred, hasReason, allowed,
                            readable) == Ok(r)
    ensures r.resolution.id !in resolutions && r.resolution.preferred == preferred && preferred in claimIds
    ensures multiset(r.resolution.claimIds) == multiset(claimIds)
    ensures r.recorded.Some? <==>
              conflictId.None? && forall c :: c in conflicts ==> multiset(c.claimIds) != multiset(claimIds)
    ensures r.recorded.None? ==> exists c :: c in conflicts && Resolves(r.resolution, c)
    ensures r.recorded.Some? ==>
              r.recorded == Some(Conflict(nextId, claimIds, None)) && Resolves(r.resolution, r.recorded.value)
  {
    assert preferred in claimIds by {
      if r.recorded.None? {
        assert preferred in multiset(r.resolution.claimIds);
        assert preferred in multiset(claimIds);
      }
    }
    ResolvedIdsBelow(conflicts, resolutions, nextId);
  }

  ghost predicate OneScope(claims: map<ClaimId, Claim>, claimIds: seq<ClaimId>) {
    forall c, d :: c in claimIds && d in claimIds && c in claims && d in claims ==> claims[c].scope == claims[d].scope
  }

  /** The conflict asked for by id, or else the first one of the same claims, is still unresolved; or, asked by
      claims alone, there is none and the claims share a scope. */
  ghost predicate Resolvable(conflicts: seq<Conflict>, resolutions: map<ConflictId, Resolution>,
                             claims: map<ClaimId, Claim>, conflictId: Option<ConflictId>, claimIds: seq<ClaimId>) {
    if conflictId.Some? then
      conflictId.value !in resolutions &&
      exists c :: c in conflicts && c.id == conflictId.value && multiset(c.claimIds) == multiset(claimIds)
    else
      var first := FindByClaims(conflicts, claimIds);
      if first.Some? then first.value.id !in resolutions else OneScope(claims, claimIds)
  }

  lemma SameBagSameMembers(a: seq<ClaimId>, b: seq<ClaimId>)
    requires multiset(a) == multiset(b)
    ensures forall c :: c in a <==> c in b
  {
    forall c ensures c in a <==> c in b {
      assert c in a <==> c in multiset(a);
      assert c in b <==> c in multiset(b);
    }
  }

  lemma ExistingAcceptedIff(existing: Conflict, resolutions: map<ConflictId, Resolution>, claims: map<ClaimId, Claim>,
                            claimIds: seq<ClaimId>, preferred: ClaimId, allowed: bool, readable: Claim -> bool)
    ensures ResolveExisting(existing, resolutions, claims, claimIds, preferred, allowed, readable).Ok? <==>
            && multiset(existing.claimIds) == multiset(claimIds) && existing.id !in resolutions
            && preferred in claimIds && allowed && RequireClaims(claims, claimIds, readable).None?
  {
    if multiset(existing.claimIds) == multiset(claimIds) {
      SameBagSameMembers(existing.claimIds, claimIds);
    }
  }

  lemma FoundByIdIff(conflicts: seq<Conflict>, nextId: ConflictId, id: ConflictId, claimIds: seq<ClaimId>)
    requires FreshIds(conflicts, nextId)
    ensures (exists c :: c in conflicts && c.id == id && multiset(c.claimIds) == multiset(claimIds)) <==>
            FindById(conflicts, id).Some? && multiset(FindById(conflicts, id).value.claimIds) == multiset(claimIds)
  {
    if exists c :: c in conflicts && c.id == id && multiset(c.claimIds) == multiset(claimIds) {
      var c :| c in conflicts && c.id == id && multiset(c.claimIds) == multiset(claimIds);
      var found := FindById(conflicts, id);
      assert found.Some?;
      var i :| 0 <= i < |conflicts| && conflicts[i] == c;
      var j :| 0 <= j < |conflicts| && conflicts[j] == found.value;
    }
  }

  /** A resolution is accepted exactly with a reason and permission, for readable claims one of which is preferred,
      when what it names can still be resolved. */
  lemma ResolveAcceptedIff(conflicts: seq<Conflict>, resolutions: map<ConflictId, Resolution>,
                           claims: map<ClaimId, Claim>, nextId: ConflictId, conflictId: Option<ConflictId>,
                           claimIds: seq<ClaimId>, preferred: ClaimId, hasReason: bool, allowed: bool,
                           readable: Claim -> bool)
    requires |claimIds| >= 2 && FreshIds(conflicts, nextId)
    ensures ResolveOutcome(conflicts, resolutions, claims, nextId, conflictId, claimIds, preferred, hasReason, allowed,
                           readable).Ok? <==>
            && hasReason && allowed && preferred in claimIds
            && RequireClaims(claims, claimIds, readable).None?
            && Resolvable(conflicts, resolutions, claims, conflictId, claimIds)
  {
    if conflictId.Some? {
      FoundByIdIff(conflicts, nextId, conflictId.value, claimIds);
      var existing := FindById(conflicts, conflictId.value);
      if existing.Some? {
        ExistingAcceptedIff(existing.value, resolutions, claims, claimIds, preferred, allowed, readable);
      }
    } else {
      var existing := FindByClaims(conflicts, claimIds);
      if existing.Some? {
        ExistingAcceptedIff(existing.value, resolutions, claims, claimIds, preferred, allowed, readable);
      } else {
        NewAcceptedIff(claims, nextId, claimIds, preferred, allowed, readable);
      }
    }
  }

  lemma {:induction false} FirstOfClaims(conflicts: seq<Conflict>, claimIds: seq<ClaimId>, i: nat)
    requires i < |conflicts| && multiset(conflicts[i].claimIds) == multiset(claimIds)
    requires forall j :: 0 <= j < i ==> multiset(conflicts[j].claimIds) != multiset(claimIds)
    ensures FindByClaims(conflicts, claimIds) == Some(conflicts[i])
  {
    if i > 0 {
      FirstOfClaims(conflicts[1..], claimIds, i - 1);
    }
  }

  /** What resolving a recorded conflict reports, guard by guard: the one of the given id, or else the first of the same
      claims. */
  lemma ResolveReports(conflicts: seq<Conflict>, resolutions: map<ConflictId, Resolution>,
                       claims: map<ClaimId, Claim>, nextId: ConflictId, conflictId: Option<ConflictId>,
                       claimIds: seq<ClaimId>, preferred: ClaimId, hasReason: bool, allowed: bool,
                       readable: Claim -> bool, i: nat)
    requires |claimIds| >= 2 && FreshIds(conflicts, nextId) && i < |conflicts|
    requires if conflictId.Some? then conflictId.value == conflicts[i].id
             else
               && multiset(conflicts[i].claimIds) == multiset(claimIds)
               && forall j :: 0 <= j < i ==> multiset(conflicts[j].claimIds) != multiset(claimIds)
    ensures var c := conflicts[i];
            ResolveOutcome(conflicts, resolutions, claims, nextId, conflictId, claimIds, preferred, hasReason, allowed,
                           readable) ==
            if !hasReason then Err(ReasonMissing)
            else if multiset(c.claimIds) != multiset(claimIds) then Err(ClaimsMismatch)
            else if preferred !in claimIds then Err(PreferredOutside)
            else if !allowed then Err(ResolveDenied)
            else if c.id in resolutions then Err(AlreadyResolved)
            else if exists id :: id in claimIds && id !in claims then Err(ClaimsNotFound)
            else if exists id :: id in claimIds && !readable(claims[id]) then Err(ClaimUnreadable)
            else Ok(Resolved(Resolution(c.id, c.claimIds, preferred), None))
  {
    var c := conflicts[i];
    if conflictId.Some? {
      assert c in conflicts;
      var j :| 0 <= j < |conflicts| && Some(conflicts[j]) == FindById(conflicts, c.id);
    } else {
      FirstOfClaims(conflicts, claimIds, i);
    }
    if multiset(c.claimIds) == multiset(claimIds) {
      SameBagSameMembers(c.claimIds, claimIds);
    }
  }

  /** And what resolving claims without a recorded conflict does; an id that names no conflict is refused. */
  lemma ResolveNewReports(conflicts: seq<Conflict>, resolutions: map<ConflictId, Resolution>,
                          claims: map<ClaimId, Claim>, nextId: ConflictId, conflictId: Option<ConflictId>,
                          claimIds: seq<ClaimId>, preferred: ClaimId, hasReason: bool, allowed: bool,
                          readable: Claim -> bool)
    requires |claimIds| >= 2
    requires forall c :: c in conflicts ==>
               if conflictId.Some? then c.id != conflictId.value else multiset(c.claimIds) != multiset(claimIds)
    ensures ResolveOutcome(conflicts, resolutions, claims, nextId, conflictId, claimIds, preferred, hasReason, allowed,
                           readable) ==
            if !hasReason then Err(ReasonMissing)
            else if conflictId.Some? then Err(ConflictNotFound)
            else if exists id :: id in claimIds && id !in claims then Err(ClaimsNotFound)
            else if exists id :: id in claimIds && !readable(claims[id]) then Err(ClaimUnreadable)
            else if !OneScope(claims, claimIds) then Err(ScopesCrossed)
            else if !allowed then Err(ResolveDenied)
            else if preferred !in claimIds then Err(PreferredOutside)
            else Ok(Resolved(Resolution(nextId, claimIds, preferred), Some(Conflict(nextId, claimIds, None))))
  {
    assert claimIds[0] in claimIds;
  }

  lemma NewAcceptedIff(claims: map<ClaimId, Claim>, id: ConflictId, claimIds: seq<ClaimId>, preferred: ClaimId,
                       allowed: bool, readable: Claim -> bool)
    requires |claimIds| >= 2
    ensures ResolveNew(claims, id, claimIds, preferred, allowed, readable).Ok? <==>
            && allowed && preferred in claimIds
            && RequireClaims(claims, claimIds, readable).None? && OneScope(claims, claimIds)
  {
    assert claimIds[0] in claimIds;
  }

  lemma ResolvedIdsBelow(conflicts: seq<Conflict>, resolutions: map<ConflictId, Resolution>, nextId: ConflictId)
    requires LedgerSound(conflicts, resolutions, nextId)
    ensures forall id :: id in resolutions ==> id < nextId
  {
    forall id | id in resolutions ensures id < nextId {
      var i :| 0 <= i < |conflicts| && Resolves(resolutions[id], conflicts[i]);
    }
  }

  lemma LedgerAfterResolve(conflicts: seq<Conflict>, resolutions: map<ConflictId, Resolution>, nextId: ConflictId,
                           r: Resolved)
    requires LedgerSound(conflicts, resolutions, nextId) && r.resolution.id !in resolutions
    requires r.recorded.None? ==> exists c :: c in conflicts && Resolves(r.resolution, c)
    requires r.recorded.Some? ==>
               r.recorded.value.id == nextId && r.recorded.value.cause.None? && Resolves(r.resolution, r.recorded.value)
    ensures var added := if r.recorded.Some? then [r.recorded.value] else [];
            LedgerSound(conflicts + added, resolutions[r.resolution.id := r.resolution], nextId + |added|)
  {
    var added := if r.recorded.Some? then [r.recorded.value] else [];
    var all, resolutions' := conflicts + added, resolutions[r.resolution.id := r.resolution];
    ResolutionsPersist(conflicts, added, resolutions);
    assert exists i :: 0 <= i < |all| && Resolves(r.resolution, all[i]) by {
      if r.recorded.None? {
        var c :| c in conflicts && Resolves(r.resolution, c);
        var i :| 0 <= i < |conflicts| && conflicts[i] == c;
        assert all[i] == c;
      } else {
        assert all[|conflicts|] == r.recorded.value;
      }
    }
  }

  // ----- the mutable ledger

  /** The unretracted claims of a namespace that the caller may read. */
  function VisibleIn(claims: map<ClaimId, Claim>, namespace: nat, readable: Claim -> bool): set<Claim> {
    set id | id in claims && claims[id].scope.namespace == namespace && claims[id].status != Retracted &&
             readable(claims[id]) :: claims[id]
  }

  /** Everything detectable in some of the namespaces. */
  ghost predicate DetectableIn(m: RedirectMap, index: RuleIndex, claims: map<ClaimId, Claim>, namespaces: seq<nat>,
                               readable: Claim -> bool, id: Identity) {
    exists n :: n in namespaces && Detectable(m, index, VisibleIn(claims, n, readable), id)
  }

  ghost predicate RefusedIn(m: RedirectMap, index: RuleIndex, claims: map<ClaimId, Claim>, namespaces: seq<nat>,
                            readable: Claim -> bool, permitted: Permission) {
    exists n :: n in namespaces && Refused(m, index, VisibleIn(claims, n, readable), permitted)
  }

  lemma OneMoreNamespace(m: RedirectMap, index: RuleIndex, claims: map<ClaimId, Claim>, namespaces: seq<nat>, i: nat,
                         readable: Claim -> bool, permitted: Permission)
    requires i < |namespaces|
    ensures forall id ::
              DetectableIn(m, index, claims, namespaces[..i + 1], readable, id) <==>
              || DetectableIn(m, index, claims, namespaces[..i], readable, id)
              || Detectable(m, index, VisibleIn(claims, namespaces[i], readable), id)
    ensures RefusedIn(m, index, claims, namespaces[..i + 1], readable, permitted) <==>
            || RefusedIn(m, index, claims, namespaces[..i], readable, permitted)
            || Refused(m, index, VisibleIn(claims, namespaces[i], readable), permitted)
    ensures RefusedIn(m, index, claims, namespaces[..i + 1], readable, permitted) ==>
              RefusedIn(m, index, claims, namespaces, readable, permitted)
    ensures forall id :: DetectableIn(m, index, claims, namespaces[..i + 1], readable, id) ==>
              DetectableIn(m, index, claims, namespaces, readable, id)
  {
    assert namespaces[..i + 1] == namespaces[..i] + [namespaces[i]];
  }

  class Ledger {
    var claims: map<ClaimId, Claim>
    var conflicts: seq<Conflict>
    var resolutions: map<ConflictId, Resolution>
    var nextId: ConflictId

    ghost predicate Valid()
      reads this
    {
      LedgerSound(conflicts, resolutions, nextId) && forall id :: id in claims ==> claims[id].id == id
    }

    constructor (claims: map<ClaimId, Claim>)
      requires forall id :: id in claims ==> claims[id].id == id
      ensures Valid() && this.claims == claims && conflicts == [] && resolutions == map[]
    {
      this.claims, conflicts, resolutions, nextId := claims, [], map[], 0;
    }

    method ListNamespace(namespace: nat, readable: Claim -> bool) returns (list: seq<Claim>)
      requires Valid()
      ensures DistinctClaims(list) && AsSet(list) == VisibleIn(claims, namespace, readable)
    {
      list := [];
      var todo := claims.Keys;
      while todo != {}
        invariant todo <= claims.Keys
        invariant DistinctClaims(list)
        invariant forall c :: c in list <==>
                    c.id in claims && c.id !in todo && claims[c.id] == c && c.scope.namespace == namespace &&
                    c.status != Retracted && readable(c)
      {
        var id :| id in todo;
        var claim := claims[id];
        if claim.scope.namespace == namespace && claim.status != Retracted && readable(claim) {
          forall i | 0 <= i < |list| ensures list[i].id != id {
            assert list[i] in list;
          }
          list := list + [claim];
        }
        todo := todo - {id};
      }
    }

    /** Stores one candidate unless its identity is known already; permission is asked first, for the cause and the
        claims themselves. */
    method PersistCandidate(m: RedirectMap, group: ClaimGroup, list: seq<Claim>,
                            permitted: Permission, identities: set<Identity>)
      returns (detected: seq<Conflict>, known: set<Identity>, denied: bool)
      requires Valid() && identities == Identities(conflicts)
      modifies this`conflicts, this`nextId
      ensures Valid()
      ensures Recorded(old(conflicts), conflicts, detected, {ListIdentity(group, list)}, known)
      ensures !WorthStoring(m, list) ==> detected == []
      ensures denied <==>
                && (exists i, j :: 0 <= i < j < |list| && !SemanticallyEqual(m, list[i], list[j]))
                && !permitted(CauseOf(group.subject, group.rule), list)
      ensures denied ==> detected == []
      ensures !denied && WorthStoring(m, list) ==> ListIdentity(group, list) in known
    {
      detected, known, denied := [], identities, false;
      if |list| < 2 || AllSemanticallyEqual(m, list) {
        return;
      }
      var cause := CauseOf(group.subject, group.rule);
      if !permitted(cause, list) {
        denied := true;
        return;
      }
      var identity := ListIdentity(group, list);
      if identity in known {
        return;
      }
      var conflict := Conflict(nextId, ClaimIdsOf(list), Some(cause));
      detected := [conflict];
      AddsKeepsDetectedOnce(conflicts, detected, {identity});
      ResolutionsPersist(conflicts, detected, resolutions);
      IdentitiesAppend(conflicts, detected);
      assert Identities(detected) == {identity} by { assert IdentityOf(detected[0]) == identity; }
      conflicts, nextId, known := conflicts + detected, nextId + 1, known + {identity};
    }

    method PersistAll(m: RedirectMap, group: ClaimGroup, lists: seq<seq<Claim>>,
                      permitted: Permission, identities: set<Identity>)
      returns (detected: seq<Conflict>, known: set<Identity>, denied: bool)
      requires Valid() && identities == Identities(conflicts)
      requires forall i :: 0 <= i < |lists| ==> WorthStoring(m, lists[i])
      modifies this`conflicts, this`nextId
      ensures Valid()
      ensures Recorded(old(conflicts), conflicts, detected, ListIdentities(group, lists), known)
      ensures !denied ==> ListIdentities(group, lists) <= known
      ensures denied <==> ListRefused(group, lists, permitted)
    {
      detected, known, denied := [], identities, false;
      RecordedNothing(conflicts);
      for i := 0 to |lists|
        invariant Valid()
        invariant Recorded(old(conflicts), conflicts, detected, ListIdentities(group, lists[..i]), known)
        invariant ListIdentities(group, lists[..i]) <= known && !denied
        invariant !ListRefused(group, lists[..i], permitted)
      {
        var one, now;
        ghost var was := conflicts;
        one, now, denied := PersistCandidate(m, group, lists[i], permitted, known);
        ListIdentitiesStep(group, lists, i);
        ListRefusedStep(group, lists, i, permitted);
        RecordedCompose(old(conflicts), was, detected, ListIdentities(group, lists[..i]), known,
                        conflicts, one, {ListIdentity(group, lists[i])}, now);
        detected, known := detected + one, now;
        if denied {
          ListIdentitiesPrefix(group, lists, i + 1);
          RecordedWider(old(conflicts), conflicts, detected, ListIdentities(group, lists[..i + 1]),
                        ListIdentities(group, lists), known);
          return;
        }
      }
      assert lists[..|lists|] == lists;
    }

    method DetectGroup(m: RedirectMap, ghost rules: seq<Rule>, ghost index: RuleIndex, ghost list: seq<Claim>,
                       ghost key: GroupKey, group: ClaimGroup, permitted: Permission,
                       identities: set<Identity>)
      returns (detected: seq<Conflict>, known: set<Identity>, denied: bool, ghost found: set<Identity>)
      requires Valid() && identities == Identities(conflicts)
      requires DistinctClaims(list) && WellFormed(rules) && Indexes(rules, index)
      requires GroupRight(m, index, list, key, group)
      modifies this`conflicts, this`nextId
      ensures Valid()
      ensures Recorded(old(conflicts), conflicts, detected, found, known)
      ensures !denied ==> found <= known
      ensures denied <==> KeyRefused(m, index, list, key, permitted)
      ensures FoundAt(m, index, list, key, found)
    {
      FilterDistinct(list, InGroup(m, index, key));
      GroupRuleMax(m, rules, index, list, key, group);
      var lists := MaximalViolatingSets(m, group.claims, group.rule.max);
      forall i | 0 <= i < |lists| ensures WorthStoring(m, lists[i]) {
        ViolatingWorthStoring(m, group.claims, group.rule.max, lists[i]);
      }
      found := ListIdentities(group, lists);
      forall c, id | c in list && KeyFor(m, index, c) == Some(key)
        ensures id in found <==> DetectableAt(m, index, AsSet(list), c, id)
      {
        GroupDetects(m, rules, index, list, key, group, lists, c, id);
      }
      ListsRefuse(m, rules, index, list, key, group, lists, permitted);
      detected, known, denied := PersistAll(m, group, lists, permitted, identities);
    }

    method DetectGroups(m: RedirectMap, ghost rules: seq<Rule>, ghost index: RuleIndex, ghost list: seq<Claim>,
                        groups: map<GroupKey, ClaimGroup>, permitted: Permission,
                        identities: set<Identity>)
      returns (detected: seq<Conflict>, known: set<Identity>, denied: bool, ghost found: set<Identity>)
      requires Valid() && identities == Identities(conflicts)
      requires DistinctClaims(list) && WellFormed(rules) && Indexes(rules, index) && Grouped(m, index, list, groups)
      modifies this`conflicts, this`nextId
      ensures Valid()
      ensures Recorded(old(conflicts), conflicts, detected, found, known)
      ensures !denied ==> found <= known
      ensures forall id :: id in found ==> Detectable(m, index, AsSet(list), id)
      ensures !denied ==> forall id :: Detectable(m, index, AsSet(list), id) ==> id in found
      ensures denied <==> Refused(m, index, AsSet(list), permitted)
    {
      detected, known, denied, found := [], identities, false, {};
      RecordedNothing(conflicts);
      NoGroupDone(m, index, list, groups, permitted);
      var todo := groups.Keys;
      while todo != {}
        invariant todo <= groups.Keys
        invariant Valid()
        invariant Recorded(old(conflicts), conflicts, detected, found, known) && found <= known
        invariant GroupsDone(m, index, list, groups, todo, found, permitted) && !denied
      {
        var key :| key in todo;
        var more, now;
        ghost var was, moreFound := conflicts, {};
        more, now, denied, moreFound := DetectGroup(m, rules, index, list, key, groups[key], permitted, known);
        GroupDone(m, index, list, groups, key, todo, found, moreFound, permitted);
        RecordedCompose(old(conflicts), was, detected, found, known, conflicts, more, moreFound, now);
        detected, known, found := detected + more, now, found + moreFound;
        todo := todo - {key};
        if denied {
          return;
        }
      }
      AllGroupsDone(m, index, list, groups, found, permitted);
    }

    method DetectNamespace(m: RedirectMap, ghost rules: seq<Rule>, namespace: nat, readable: Claim -> bool,
                           permitted: Permission, index: RuleIndex, identities: set<Identity>)
      returns (detected: seq<Conflict>, known: set<Identity>, denied: bool, ghost found: set<Identity>)
      requires Valid() && identities == Identities(conflicts)
      requires WellFormed(rules) && Indexes(rules, index)
      modifies this`conflicts, this`nextId
      ensures Valid()
      ensures Recorded(old(conflicts), conflicts, detected, found, known)
      ensures forall id :: id in found ==> Detectable(m, index, VisibleIn(claims, namespace, readable), id)
      ensures !denied ==>
                && found <= known
                && forall id :: Detectable(m, index, VisibleIn(claims, namespace, readable), id) ==> id in found
      ensures denied <==> Refused(m, index, VisibleIn(claims, namespace, readable), permitted)
    {
      var list := ListNamespace(namespace, readable);
      detected, known, denied, found := DetectListed(m, rules, index, list, permitted, identities);
    }

    method DetectListed(m: RedirectMap, ghost rules: seq<Rule>, index: RuleIndex, list: seq<Claim>,
                        permitted: Permission, identities: set<Identity>)
      returns (detected: seq<Conflict>, known: set<Identity>, denied: bool, ghost found: set<Identity>)
      requires Valid() && identities == Identities(conflicts)
      requires DistinctClaims(list) && WellFormed(rules) && Indexes(rules, index)
      modifies this`conflicts, this`nextId
      ensures Valid()
      ensures Recorded(old(conflicts), conflicts, detected, found, known)
      ensures !denied ==> found <= known
      ensures forall id :: id in found ==> Detectable(m, index, AsSet(list), id)
      ensures !denied ==> forall id :: Detectable(m, index, AsSet(list), id) ==> id in found
      ensures denied <==> Refused(m, index, AsSet(list), permitted)
    {
      var groups := GroupsForClaims(m, index, list);
      detected, known, denied, found := DetectGroups(m, rules, index, list, groups, permitted, identities);
    }

    method DetectAll(m: RedirectMap, ghost rules: seq<Rule>, namespaces: seq<nat>, readable: Claim -> bool,
                     permitted: Permission, index: RuleIndex)
      returns (detected: seq<Conflict>, denied: bool, ghost found: set<Identity>)
      requires Valid() && WellFormed(rules) && Indexes(rules, index)
      modifies this`conflicts, this`nextId
      ensures Valid()
      ensures Recorded(old(conflicts), conflicts, detected, found, Identities(conflicts))
      ensures forall id :: id in found ==> DetectableIn(m, index, claims, namespaces, readable, id)
      ensures !denied ==>
                forall id :: DetectableIn(m, index, claims, namespaces, readable, id) ==> id in Identities(conflicts)
      ensures denied <==> RefusedIn(m, index, claims, namespaces, readable, permitted)
    {
      var known := Identities(conflicts);
      detected, denied, found := [], false, {};
      RecordedNothing(conflicts);
      for i := 0 to |namespaces|
        invariant Valid()
        invariant Recorded(old(conflicts), conflicts, detected, found, known)
        invariant forall id :: id in found ==> DetectableIn(m, index, claims, namespaces[..i], readable, id)
        invariant forall id :: DetectableIn(m, index, claims, namespaces[..i], readable, id) ==> id in known
        invariant !denied && !RefusedIn(m, index, claims, namespaces[..i], readable, permitted)
      {
        var more, now;
        ghost var was, moreFound := conflicts, {};
        more, now, denied, moreFound := DetectNamespace(m, rules, namespaces[i], readable, permitted, index, known);
        RecordedCompose(old(conflicts), was, detected, found, known, conflicts, more, moreFound, now);
        OneMoreNamespace(m, index, claims, namespaces, i, readable, permitted);
        detected, known, found := detected + more, now, found + moreFound;
        if denied {
          return;
        }
      }
      assert namespaces[..|namespaces|] == namespaces;
    }

    /** Detection over the caller's namespaces. A denial ends it with an error, and what was recorded before stays. */
    method Detect(m: RedirectMap, rules: seq<Rule>, namespaces: seq<nat>, readable: Claim -> bool,
                  permitted: Permission)
      returns (r: Result<seq<Conflict>, DetectionError>, ghost added: seq<Conflict>, ghost index: RuleIndex)
      requires Valid()
      modifies this`conflicts, this`nextId
      ensures Valid() && conflicts == old(conflicts) + added
      ensures (r.Err? && r.error.Unusable?) <==> rules != [] && namespaces != [] && !WellFormed(rules)
      ensures r == Err(Denied) <==>
                && rules != [] && namespaces != [] && WellFormed(rules)
                && RefusedIn(m, index, claims, namespaces, readable, permitted)
      ensures r.Ok? ==> r.value == added
      ensures rules != [] && namespaces != [] && WellFormed(rules) ==> Indexes(rules, index)
      ensures added != [] ==> rules != [] && namespaces != [] && WellFormed(rules)
      ensures forall i :: 0 <= i < |added| ==>
                IdentityOf(added[i]) !in Identities(old(conflicts)) &&
                DetectableIn(m, index, claims, namespaces, readable, IdentityOf(added[i]))
      ensures forall i, j :: 0 <= i < j < |added| ==> IdentityOf(added[i]) != IdentityOf(added[j])
      ensures r.Ok? && rules != [] && namespaces != [] ==>
                forall id :: DetectableIn(m, index, claims, namespaces, readable, id) ==> id in Identities(conflicts)
    {
      added, index := [], map[];
      if rules == [] || namespaces == [] {
        return Ok([]), added, index;
      }
      var terms := RuleTermIndex(rules);
      if terms.Err? {
        return Err(Unusable(terms.error)), added, index;
      }
      index := terms.value;
      var detected, denied;
      ghost var found;
      detected, denied, found := DetectAll(m, rules, namespaces, readable, permitted, terms.value);
      added := detected;
      r := if denied then Err(Denied) else Ok(detected);
    }

    /** With claims, rules and merges unchanged, detection that ran to its end finds nothing new again. */
    method DetectTwice(m: RedirectMap, rules: seq<Rule>, namespaces: seq<nat>, readable: Claim -> bool,
                       permitted: Permission)
      returns (first: Result<seq<Conflict>, DetectionError>, again: Result<seq<Conflict>, DetectionError>)
      requires Valid()
      modifies this`conflicts, this`nextId
      ensures Valid()
      ensures first.Ok? ==> again == Ok([]) && conflicts == old(conflicts) + first.value
    {
      ghost var added, more, index, index';
      first, added, index := Detect(m, rules, namespaces, readable, permitted);
      again, more, index' := Detect(m, rules, namespaces, readable, permitted);
      if first.Ok? && again == Err(Denied) {
        ghost var n :| n in namespaces && Refused(m, index', VisibleIn(claims, n, readable), permitted);
        RefusalIndexIrrelevant(m, rules, index', index, VisibleIn(claims, n, readable), permitted);
      }
      if first.Ok? && more != [] {
        ghost var id := IdentityOf(more[0]);
        ghost var n :| n in namespaces && Detectable(m, index', VisibleIn(claims, n, readable), id);
        IndexIrrelevant(m, rules, index', index, VisibleIn(claims, n, readable), id);
      }
    }

    /** A conflict is resolved at most once, in favour of one of its own claims. */
    method Resolve(conflictId: Option<ConflictId>, claimIds: seq<ClaimId>, preferred: ClaimId, hasReason: bool,
                   allowed: bool, readable: Claim -> bool)
      returns (r: Result<Resolution, ResolveError>)
      requires Valid() && |claimIds| >= 2
      modifies this`conflicts, this`resolutions, this`nextId
      ensures Valid()
      ensures r == ResolutionOf(old(ResolveOutcome(conflicts, resolutions, claims, nextId, conflictId, claimIds,
                                                   preferred, hasReason, allowed, readable)))
      ensures r.Err? ==> conflicts == old(conflicts) && resolutions == old(resolutions)
      ensures r.Ok? ==>
                r.value.id !in old(resolutions) && resolutions == old(resolutions)[r.value.id := r.value] &&
                r.value.preferred == preferred && preferred in claimIds &&
                multiset(r.value.claimIds) == multiset(claimIds) &&
                (conflicts == old(conflicts) || conflicts == old(conflicts) + [Conflict(r.value.id, claimIds, None)])
    {
      var outcome := ResolveOutcome(conflicts, resolutions, claims, nextId, conflictId, claimIds, preferred, hasReason,
                                    allowed, readable);
      if outcome.Err? {
        return Err(outcome.error);
      }
      ResolutionIsFirst(conflicts, resolutions, claims, nextId, conflictId, claimIds, preferred, hasReason, allowed,
                        readable, outcome.value);
      Store(outcome.value);
      r := Ok(outcome.value.resolution);
    }

    /** The resolving transaction: a conflict recorded on the spot, if any, and the resolution. */
    method Store(r: Resolved)
      requires Valid() && r.resolution.id !in resolutions
      requires r.recorded.None? ==> exists c :: c in conflicts && Resolves(r.resolution, c)
      requires r.recorded.Some? ==>
                 && r.recorded.value.id == nextId && r.recorded.value.cause.None?
                 && Resolves(r.resolution, r.recorded.value)
      modifies this`conflicts, this`resolutions, this`nextId
      ensures Valid()
      ensures resolutions == old(resolutions)[r.resolution.id := r.resolution]
      ensures conflicts == old(conflicts) + if r.recorded.Some? then [r.recorded.value] else []
    {
      LedgerAfterResolve(conflicts, resolutions, nextId, r);
      if r.recorded.Some? {
        conflicts, nextId := conflicts + [r.recorded.value], nextId + 1;
      } else {
        assert conflicts + [] == conflicts;
      }
      resolutions := resolutions[r.resolution.id := r.resolution];
    }
  }

  function ResolutionOf(r: Result<Resolved, ResolveError>): Result<Resolution, ResolveError> {
    match r
    case Ok(resolved) => Ok(resolved.resolution)
    case Err(e) => Err(e)
  }

  lemma IndexesAgree(m: RedirectMap, rules: seq<Rule>, index: RuleIndex, other: RuleIndex, c: Claim)
    requires Indexes(rules, index) && Indexes(rules, other)
    ensures KeyFor(m, index, c) == KeyFor(m, other, c)
    ensures KeyFor(m, index, c).Some? ==> SameRule(index[c.predicateName], other[c.predicateName])
  {
    var t := c.predicateName;
    if t in index {
      assert index[t] in rules && t in Terms(index[t]);
    }
    if t in other {
      assert other[t] in rules && t in Terms(other[t]);
    }
  }

  lemma GroupsAgree(m: RedirectMap, rules: seq<Rule>, index: RuleIndex, other: RuleIndex, claims: set<Claim>,
                    key: GroupKey)
    requires Indexes(rules, index) && Indexes(rules, other)
    ensures GroupSet(m, index, claims, key) == GroupSet(m, other, claims, key)
  {
    forall c { IndexesAgree(m, rules, index, other, c); }
  }

  /** Which of several agreeing rules an index holds for a term does not matter. */
  lemma IndexIrrelevant(m: RedirectMap, rules: seq<Rule>, index: RuleIndex, other: RuleIndex, claims: set<Claim>,
                        id: Identity)
    requires Indexes(rules, index) && Indexes(rules, other) && Detectable(m, index, claims, id)
    ensures Detectable(m, other, claims, id)
  {
    var c :| c in claims && DetectableAt(m, index, claims, c, id);
    IndexesAgree(m, rules, index, other, c);
    GroupsAgree(m, rules, index, other, claims, KeyFor(m, index, c).value);
    assert DetectableAt(m, other, claims, c, id);
  }

  lemma RefusalIndexIrrelevant(m: RedirectMap, rules: seq<Rule>, index: RuleIndex, other: RuleIndex,
                               claims: set<Claim>, permitted: Permission)
    requires Indexes(rules, index) && Indexes(rules, other) && Refused(m, index, claims, permitted)
    ensures Refused(m, other, claims, permitted)
  {
    var c :| c in claims && RefusedAt(m, index, claims, c, permitted);
    IndexesAgree(m, rules, index, other, c);
    GroupsAgree(m, rules, index, other, claims, KeyFor(m, index, c).value);
    assert RefusedAt(m, other, claims, c, permitted);
  }

  /** `found` are the identities detectable at each claim of the group. */
  ghost predicate FoundAt(m: RedirectMap, index: RuleIndex, list: seq<Claim>, key: GroupKey, found: set<Identity>) {
    forall c, id :: c in list && KeyFor(m, index, c) == Some(key) ==>
      (id in found <==> DetectableAt(m, index, AsSet(list), c, id))
  }

  ghost predicate FoundOnly(m: RedirectMap, index: RuleIndex, list: seq<Claim>, found: set<Identity>) {
    forall id :: id in found ==> Detectable(m, index, AsSet(list), id)
  }

  ghost predicate FoundAll(m: RedirectMap, index: RuleIndex, list: seq<Claim>, todo: set<GroupKey>,
                           found: set<Identity>) {
    forall c, id :: c in list && DetectableAt(m, index, AsSet(list), c, id) ==>
      KeyFor(m, index, c).value in todo || id in found
  }

  lemma FoundMore(m: RedirectMap, index: RuleIndex, list: seq<Claim>, key: GroupKey, group: ClaimGroup,
                  todo: set<GroupKey>, found: set<Identity>, more: set<Identity>)
    requires GroupRight(m, index, list, key, group) && FoundAt(m, index, list, key, more)
    requires FoundOnly(m, index, list, found) && FoundAll(m, index, list, todo, found)
    ensures FoundOnly(m, index, list, found + more) && FoundAll(m, index, list, todo - {key}, found + more)
  {
    GroupFoundDetectable(m, index, list, key, group, more);
  }

  /** The groups not in `todo` are done: all they detect is found, and none of them was refused. */
  ghost predicate GroupsDone(m: RedirectMap, index: RuleIndex, list: seq<Claim>, groups: map<GroupKey, ClaimGroup>,
                             todo: set<GroupKey>, found: set<Identity>, permitted: Permission) {
    && FoundOnly(m, index, list, found) && FoundAll(m, index, list, todo, found)
    && !AnyRefused(m, index, list, groups.Keys - todo, permitted)
  }

  lemma NoGroupDone(m: RedirectMap, index: RuleIndex, list: seq<Claim>, groups: map<GroupKey, ClaimGroup>,
                    permitted: Permission)
    requires Grouped(m, index, list, groups)
    ensures GroupsDone(m, index, list, groups, groups.Keys, {}, permitted)
  {}

  lemma GroupDone(m: RedirectMap, index: RuleIndex, list: seq<Claim>, groups: map<GroupKey, ClaimGroup>,
                  key: GroupKey, todo: set<GroupKey>, found: set<Identity>, more: set<Identity>,
                  permitted: Permission)
    requires Grouped(m, index, list, groups) && key in todo && todo <= groups.Keys
    requires GroupsDone(m, index, list, groups, todo, found, permitted) && FoundAt(m, index, list, key, more)
    ensures FoundOnly(m, index, list, found + more)
    ensures if KeyRefused(m, index, list, key, permitted) then Refused(m, index, AsSet(list), permitted)
            else GroupsDone(m, index, list, groups, todo - {key}, found + more, permitted)
  {
    FoundMore(m, index, list, key, groups[key], todo, found, more);
    AnyRefusedNext(m, index, list, groups.Keys - todo, key, permitted);
    assert groups.Keys - (todo - {key}) == groups.Keys - todo + {key};
    AnyGroupRefused(m, index, list, groups, permitted);
  }

  lemma AllGroupsDone(m: RedirectMap, index: RuleIndex, list: seq<Claim>, groups: map<GroupKey, ClaimGroup>,
                      found: set<Identity>, permitted: Permission)
    requires Grouped(m, index, list, groups) && GroupsDone(m, index, list, groups, {}, found, permitted)
    ensures forall id :: id in found <==> Detectable(m, index, AsSet(list), id)
    ensures !Refused(m, index, AsSet(list), permitted)
  {
    AnyGroupRefused(m, index, list, groups, permitted);
    assert groups.Keys - {} == groups.Keys;
    forall id | Detectable(m, index, AsSet(list), id) ensures id in found {
      var c :| c in AsSet(list) && DetectableAt(m, index, AsSet(list), c, id);
      assert c in list;
    }
  }

  predicate WorthStoring(m: RedirectMap, list: seq<Claim>) {
    |list| >= 2 && !AllSemanticallyEqual(m, list)
  }

  /** The detector's own sets never fall to the guard against trivial conflicts. */
  lemma ViolatingWorthStoring(m: RedirectMap, claims: seq<Claim>, max: int, list: seq<Claim>)
    requires DistinctClaims(claims) && max >= 1 && ById(list) && Violating(m, AsSet(claims), max, AsSet(list))
    ensures WorthStoring(m, list)
  {
    DistinctIsUnique(claims);
    var at := EverySetViolates(m, AsSet(claims), max, AsSet(list));
    ByIdLength(list);
    assert list[0] in AsSet(list) && list[1] in AsSet(list);
    assert list[0].id < list[1].id;
  }

  lemma GroupRuleMax(m: RedirectMap, rules: seq<Rule>, index: RuleIndex, list: seq<Claim>, key: GroupKey,
                     group: ClaimGroup)
    requires WellFormed(rules) && Indexes(rules, index) && GroupRight(m, index, list, key, group)
    ensures group.rule.max >= 1
  {}

  lemma GroupFoundDetectable(m: RedirectMap, index: RuleIndex, list: seq<Claim>, key: GroupKey, group: ClaimGroup,
                             found: set<Identity>)
    requires GroupRight(m, index, list, key, group)
    requires forall c, id :: c in list && KeyFor(m, index, c) == Some(key) ==>
               (id in found <==> DetectableAt(m, index, AsSet(list), c, id))
    ensures forall id :: id in found ==> Detectable(m, index, AsSet(list), id)
  {
    var c :| c in group.claims && c.predicateName in index && group.rule == index[c.predicateName];
    assert c in AsSet(list);
  }

  predicate AllSemanticallyEqual(m: RedirectMap, list: seq<Claim>) {
    forall i, j :: 0 <= i < j < |list| ==> SemanticallyEqual(m, list[i], list[j])
  }

  lemma ListIdentitiesStep(group: ClaimGroup, lists: seq<seq<Claim>>, i: nat)
    requires i < |lists|
    ensures ListIdentities(group, lists[..i + 1]) == ListIdentities(group, lists[..i]) + {ListIdentity(group, lists[i])}
  {
    var a, b := lists[..i + 1], lists[..i];
    forall x | x in ListIdentities(group, b) ensures x in ListIdentities(group, a) {
      var k :| 0 <= k < |b| && ListIdentity(group, b[k]) == x;
      assert a[k] == b[k];
    }
    assert a[i] == lists[i];
    forall x | x in ListIdentities(group, a)
      ensures x in ListIdentities(group, b) + {ListIdentity(group, lists[i])}
    {
      var k :| 0 <= k < |a| && ListIdentity(group, a[k]) == x;
      if k < i { assert b[k] == a[k]; }
    }
  }

  lemma ListIdentitiesPrefix(group: ClaimGroup, lists: seq<seq<Claim>>, n: nat)
    requires n <= |lists|
    ensures ListIdentities(group, lists[..n]) <= ListIdentities(group, lists)
  {
    forall x | x in ListIdentities(group, lists[..n]) ensures x in ListIdentities(group, lists) {
      var k :| 0 <= k < n && ListIdentity(group, lists[..n][k]) == x;
      assert lists[..n][k] == lists[k];
    }
  }

  // ----- retrieval drops the losers

  datatype ScoredHit = ScoredHit(claimId: ClaimId, classification: nat)

  /** Claims some resolution did not prefer. */
  method SuppressedClaimIds(resolutions: seq<Resolution>) returns (suppressed: set<ClaimId>)
    ensures forall c :: c in suppressed <==> exists r :: r in resolutions && c in r.claimIds && c != r.preferred
  {
    suppressed := {};
    for i := 0 to |resolutions|
      invariant forall c :: c in suppressed <==>
                  exists r :: r in resolutions[..i] && c in r.claimIds && c != r.preferred
    {
      var r := resolutions[i];
      ghost var before := suppressed;
      for j := 0 to |r.claimIds|
        invariant forall c :: c in suppressed <==> c in before || (c in r.claimIds[..j] && c != r.preferred)
      {
        if r.claimIds[j] != r.preferred {
          suppressed := suppressed + {r.claimIds[j]};
        }
        assert r.claimIds[..j + 1] == r.claimIds[..j] + [r.claimIds[j]];
      }
      assert r.claimIds[..|r.claimIds|] == r.claimIds;
      assert resolutions[..i + 1] == resolutions[..i] + [r];
      assert r in resolutions[..i + 1];
    }
    assert resolutions[..|resolutions|] == resolutions;
  }

  /** How many hits of a class the policy withheld. */
  function Withheld(hits: seq<ScoredHit>, suppressed: set<ClaimId>, permitted: ClaimId -> bool,
                    classification: nat): nat {
    if hits == [] then 0
    else
      var last := hits[|hits| - 1];
      Withheld(hits[..|hits| - 1], suppressed, permitted, classification) +
      if last.claimId !in suppressed && !permitted(last.claimId) && last.classification == classification then 1 else 0
  }

  /** The hits of a class that are denied and not suppressed. */
  predicate DeniedOf(hit: ScoredHit, suppressed: set<ClaimId>, permitted: ClaimId -> bool, classification: nat) {
    hit.classification == classification && hit.claimId !in suppressed && !permitted(hit.claimId)
  }

  function WithheldAt(hits: seq<ScoredHit>, suppressed: set<ClaimId>, permitted: ClaimId -> bool,
                      classification: nat): set<nat> {
    set i | 0 <= i < |hits| && DeniedOf(hits[i], suppressed, permitted, classification)
  }

  lemma {:induction false} WithheldCounts(hits: seq<ScoredHit>, suppressed: set<ClaimId>, permitted: ClaimId -> bool,
                                          classification: nat)
    ensures Withheld(hits, suppressed, permitted, classification) ==
            |WithheldAt(hits, suppressed, permitted, classification)|
  {
    if hits == [] {
      assert WithheldAt(hits, suppressed, permitted, classification) == {};
    } else {
      var n := |hits| - 1;
      var before := WithheldAt(hits[..n], suppressed, permitted, classification);
      WithheldCounts(hits[..n], suppressed, permitted, classification);
      assert forall i :: 0 <= i < n ==> hits[..n][i] == hits[i];
      assert WithheldAt(hits, suppressed, permitted, classification) ==
             if DeniedOf(hits[n], suppressed, permitted, classification) then before + {n} else before;
    }
  }

  method AuthorizeHits(hits: seq<ScoredHit>, suppressed: set<ClaimId>, permitted: ClaimId -> bool)
    returns (allowed: seq<ScoredHit>, omittedByClass: map<nat, nat>)
    ensures allowed == Sorting.Filter(hits, Passes(suppressed, permitted))
    ensures forall k :: k in omittedByClass <==> Withheld(hits, suppressed, permitted, k) > 0
    ensures forall k :: k in omittedByClass ==> omittedByClass[k] == Withheld(hits, suppressed, permitted, k)
  {
    allowed, omittedByClass := [], map[];
    for i := 0 to |hits|
      invariant allowed == Sorting.Filter(hits[..i], Passes(suppressed, permitted))
      invariant forall k :: k in omittedByClass <==> Withheld(hits[..i], suppressed, permitted, k) > 0
      invariant forall k :: k in omittedByClass ==> omittedByClass[k] == Withheld(hits[..i], suppressed, permitted, k)
    {
      var hit := hits[i];
      assert hits[..i + 1][..i] == hits[..i];
      if hit.claimId in suppressed {
        continue;
      }
      if !permitted(hit.claimId) {
        var was := if hit.classification in omittedByClass then omittedByClass[hit.classification] else 0;
        omittedByClass := omittedByClass[hit.classification := was + 1];
        continue;
      }
      allowed := allowed + [hit];
    }
    assert hits[..|hits|] == hits;
  }

  function Passes(suppressed: set<ClaimId>, permitted: ClaimId -> bool): ScoredHit -> bool {
    (h: ScoredHit) => h.claimId !in suppressed && permitted(h.claimId)
  }

  /** A retrieved claim is the preferred one of every stored resolution it takes part in. */
  method RetrievableHits(ledger: Ledger, hits: seq<ScoredHit>, listed: seq<Resolution>, permitted: ClaimId -> bool)
    returns (allowed: seq<ScoredHit>)
    requires ledger.Valid() && forall id :: id in ledger.resolutions ==> ledger.resolutions[id] in listed
    ensures forall h, id :: h in allowed && id in ledger.resolutions && h.claimId in ledger.resolutions[id].claimIds ==>
              h.claimId == ledger.resolutions[id].preferred
    ensures forall h :: h in allowed <==>
              && h in hits && permitted(h.claimId)
              && forall r :: r in listed && h.claimId in r.claimIds ==> h.claimId == r.preferred
  {
    var suppressed := SuppressedClaimIds(listed);
    var omitted;
    allowed, omitted := AuthorizeHits(hits, suppressed, permitted);
  }
}
