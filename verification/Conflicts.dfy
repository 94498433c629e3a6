/** Finding the claims that together break a maximum-cardinality rule.

    `MaximalViolatingSets` only looks at the instants where some claim starts to be valid. The theorems say
    that this is enough for object keys: at every instant at which a group's active claims hold too many
    distinct keys, one returned set holds them all. For the objects themselves it is enough exactly when no two
    different objects of an overfull instant share a key. */
module Conflicts {
  import opened Kernel
  import opened Redirects

  /** The source's "9999-12-31T23:59:59.999Z", in milliseconds. */
  const MAX_TIMESTAMP: Timestamp := 253_402_300_799_999

  predicate ActiveForDetection(claim: Claim) {
    claim.status == Asserted || claim.status == Conflicted
  }

  function End(claim: Claim): Timestamp {
    if claim.validTo.Some? then claim.validTo.value else MAX_TIMESTAMP
  }

  predicate ActiveAt(claim: Claim, at: Timestamp) {
    ActiveForDetection(claim) && claim.validFrom <= at < End(claim)
  }

  /** The key string of an object; its `entity:` or `literal:` prefix is the constructor. */
  datatype ObjectKey = EntityKey(id: EntityId) | LiteralKey(text: string)

  function DatatypeText(datatypeName: Option<string>): string {
    if datatypeName.Some? then datatypeName.value else ""
  }

  function LiteralText(datatypeName: Option<string>, text: string): string {
    DatatypeText(datatypeName) + ":" + text
  }

  function CanonicalObjectKey(m: RedirectMap, claim: Claim): ObjectKey {
    match claim.obj
    case EntityObject(id) => EntityKey(Chase(m, id))
    case LiteralObject(text, datatypeName) => LiteralKey(LiteralText(datatypeName, text))
  }

  /** `semanticObjectsEqual`: entities by canonical id, literals by value and datatype. */
  predicate SemanticallyEqual(m: RedirectMap, left: Claim, right: Claim) {
    if left.obj.EntityObject? && right.obj.EntityObject? then
      Chase(m, left.obj.entityId) == Chase(m, right.obj.entityId)
    else left.obj == right.obj
  }

  // ----- when object keys tell objects apart

  /** Equal objects always have equal keys. */
  lemma EqualObjectsEqualKeys(m: RedirectMap, left: Claim, right: Claim)
    requires SemanticallyEqual(m, left, right)
    ensures CanonicalObjectKey(m, left) == CanonicalObjectKey(m, right)
  {}

  /** Two datatypes whose key prefixes never run into each other. */
  predicate Separable(d: Option<string>, e: Option<string>) {
    d == e ||
    (!(DatatypeText(d) + ":" <= DatatypeText(e) + ":") && !(DatatypeText(e) + ":" <= DatatypeText(d) + ":"))
  }

  lemma SamePrefix(a: string, b: string, x: string, y: string)
    requires a + x == b + y && |a| <= |b|
    ensures a <= b && (|a| == |b| ==> a == b && x == y)
  {
    assert (a + x)[..|a|] == a && (b + y)[..|a|] == b[..|a|];
    assert (a + x)[|a|..] == x && (b + y)[|b|..] == y;
  }

  /** Literals of two datatypes get different keys for all their values exactly when the datatypes are
      separable; the keys join datatype and value with a colon, which either may contain. */
  lemma LiteralKeysInjectiveIff(d: Option<string>, e: Option<string>)
    ensures Separable(d, e) <==>
            forall x, y :: LiteralText(d, x) == LiteralText(e, y) ==> d == e && x == y
  {
    var p, q := DatatypeText(d) + ":", DatatypeText(e) + ":";
    forall x, y ensures LiteralText(d, x) == p + x && LiteralText(e, y) == q + y {}
    if Separable(d, e) {
      forall x, y | LiteralText(d, x) == LiteralText(e, y) ensures d == e && x == y {
        if |p| <= |q| { SamePrefix(p, q, x, y); } else { SamePrefix(q, p, y, x); }
      }
    } else if p <= q {
      assert p + q[|p|..] == q + [];
      assert LiteralText(d, q[|p|..]) == LiteralText(e, []);
    } else {
      assert q + p[|q|..] == p + [];
      assert LiteralText(d, []) == LiteralText(e, p[|q|..]);
    }
  }

  /** Colon-free, non-empty datatypes are always separable. */
  lemma PlainDatatypesSeparable(d: Option<string>, e: Option<string>)
    requires ':' !in DatatypeText(d) && ':' !in DatatypeText(e)
    requires d.Some? ==> d.value != ""
    requires e.Some? ==> e.value != ""
    ensures Separable(d, e)
  {
    var a, b := DatatypeText(d), DatatypeText(e);
    if a + ":" <= b + ":" {
      ColonEnds(a, b);
    } else if b + ":" <= a + ":" {
      ColonEnds(b, a);
    }
  }

  lemma ColonEnds(a: string, b: string)
    requires a + ":" <= b + ":" && ':' !in b
    ensures a == b
  {
    var p, q := a + ":", b + ":";
    assert p[|a|] == ':' && q[|a|] == p[|a|];
    assert forall i :: 0 <= i < |b| ==> q[i] == b[i] && b[i] != ':';
    assert |a| == |b|;
    assert a == p[..|a|] && b == q[..|b|];
  }

  /** An empty datatype and a missing one are different objects with one key. */
  lemma EmptyDatatypeCollides()
    ensures LiteralText(None, "x") == LiteralText(Some(""), "x")
    ensures LiteralObject("x", None) != LiteralObject("x", Some(""))
    ensures LiteralText(Some("a"), "b:c") == LiteralText(Some("a:b"), "c")
  {
    assert LiteralText(Some("a"), "b:c") == "a:b:c";
    assert LiteralText(Some("a:b"), "c") == "a:b:c";
  }

  // ----- representatives and violating sets

  /** Claim lists come from a store keyed by claim id. */
  ghost predicate UniqueIds(claims: set<Claim>) {
    forall c, d :: c in claims && d in claims && c.id == d.id ==> c == d
  }

  function ActiveClaims(claims: set<Claim>, at: Timestamp): set<Claim> {
    set c | c in claims && ActiveAt(c, at)
  }

  function KeysOf(m: RedirectMap, claims: set<Claim>): set<ObjectKey> {
    set c | c in claims :: CanonicalObjectKey(m, c)
  }

  /** Of the claims active at an instant, the one of least id for its object key. */
  ghost predicate IsRepresentative(m: RedirectMap, claims: set<Claim>, at: Timestamp, c: Claim) {
    && ActiveAt(c, at)
    && forall d :: d in claims && ActiveAt(d, at) && CanonicalObjectKey(m, d) == CanonicalObjectKey(m, c) ==>
         c.id <= d.id
  }

  ghost function Representatives(m: RedirectMap, claims: set<Claim>, at: Timestamp): set<Claim> {
    set c | c in claims && IsRepresentative(m, claims, at, c)
  }

  function StartTimes(claims: set<Claim>): set<Timestamp> {
    set c | c in claims :: c.validFrom
  }

  /** More representatives than the rule allows, at one of the given instants. */
  ghost predicate FromInstant(m: RedirectMap, claims: set<Claim>, max: int, times: set<Timestamp>, s: set<Claim>) {
    |s| > max && exists at :: at in times && s == Representatives(m, claims, at)
  }

  ghost predicate IsCandidate(m: RedirectMap, claims: set<Claim>, max: int, s: set<Claim>) {
    FromInstant(m, claims, max, StartTimes(claims), s)
  }

  ghost predicate Dominated(m: RedirectMap, claims: set<Claim>, max: int, s: set<Claim>) {
    exists t :: IsCandidate(m, claims, max, t) && |t| > |s| && s <= t
  }

  /** A maximal violating set of the group. */
  ghost predicate Violating(m: RedirectMap, claims: set<Claim>, max: int, s: set<Claim>) {
    IsCandidate(m, claims, max, s) && !Dominated(m, claims, max, s)
  }

  // ----- representatives hold every key

  lemma {:induction false} LeastId(claims: set<Claim>) returns (c: Claim)
    requires claims != {}
    ensures c in claims && forall d :: d in claims ==> c.id <= d.id
    decreases |claims|
  {
    c :| c in claims;
    if claims != {c} {
      var b := LeastId(claims - {c});
      if b.id < c.id { c := b; }
    }
  }

  lemma {:induction false} LatestStart(claims: set<Claim>) returns (c: Claim)
    requires claims != {}
    ensures c in claims && forall d :: d in claims ==> d.validFrom <= c.validFrom
    decreases |claims|
  {
    c :| c in claims;
    if claims != {c} {
      var b := LatestStart(claims - {c});
      if b.validFrom > c.validFrom { c := b; }
    }
  }

  lemma RepresentedKey(m: RedirectMap, claims: set<Claim>, at: Timestamp, c: Claim) returns (r: Claim)
    requires c in ActiveClaims(claims, at)
    ensures r in Representatives(m, claims, at) && CanonicalObjectKey(m, r) == CanonicalObjectKey(m, c)
  {
    var same := set d | d in claims && ActiveAt(d, at) && CanonicalObjectKey(m, d) == CanonicalObjectKey(m, c);
    assert c in same;
    r := LeastId(same);
  }

  lemma RepresentativesHoldKeys(m: RedirectMap, claims: set<Claim>, at: Timestamp)
    ensures KeysOf(m, Representatives(m, claims, at)) == KeysOf(m, ActiveClaims(claims, at))
  {
    forall k | k in KeysOf(m, ActiveClaims(claims, at)) ensures k in KeysOf(m, Representatives(m, claims, at)) {
      var c :| c in ActiveClaims(claims, at) && CanonicalObjectKey(m, c) == k;
      var r := RepresentedKey(m, claims, at, c);
    }
  }

  lemma {:induction false} KeyCount(m: RedirectMap, claims: set<Claim>)
    ensures |KeysOf(m, claims)| <= |claims|
    decreases |claims|
  {
    if c :| c in claims {
      var rest := claims - {c};
      KeyCount(m, rest);
      assert KeysOf(m, claims) == KeysOf(m, rest) + {CanonicalObjectKey(m, c)};
    }
  }

  lemma SubsetSize<T>(a: set<T>, b: set<T>)
    requires a <= b
    ensures |a| <= |b|
  {
    assert |b| == |a| + |b - a| by { assert a + (b - a) == b; }
  }

  lemma ProperSubsetSize<T>(a: set<T>, b: set<T>)
    requires a <= b && a != b
    ensures |a| < |b|
  {
    var x :| x in b && x !in a;
    assert x in b - a && a + (b - a) == b;
  }

  // ----- the guarantees

  /** Intervals that meet at an instant all hold at the latest start among them. */
  lemma LatestStartCovers(claims: set<Claim>, at: Timestamp) returns (start: Timestamp)
    requires ActiveClaims(claims, at) != {}
    ensures start in StartTimes(claims) && ActiveClaims(claims, at) <= ActiveClaims(claims, start)
  {
    var c := LatestStart(ActiveClaims(claims, at));
    start := c.validFrom;
  }

  lemma {:induction false} DominatedByMaximal(m: RedirectMap, claims: set<Claim>, max: int, s: set<Claim>)
    returns (t: set<Claim>)
    requires IsCandidate(m, claims, max, s)
    ensures Violating(m, claims, max, t) && s <= t
    decreases |claims| - |s|
  {
    if Dominated(m, claims, max, s) {
      var u :| IsCandidate(m, claims, max, u) && |u| > |s| && s <= u;
      SubsetSize(u, claims);
      t := DominatedByMaximal(m, claims, max, u);
    } else {
      t := s;
    }
  }

  /** At every instant at which too many distinct object keys are active, one returned set covers them all. */
  lemma EveryViolationCovered(m: RedirectMap, claims: set<Claim>, max: int, at: Timestamp) returns (s: set<Claim>)
    requires max >= 1 && |KeysOf(m, ActiveClaims(claims, at))| > max
    ensures Violating(m, claims, max, s) && KeysOf(m, ActiveClaims(claims, at)) <= KeysOf(m, s)
  {
    var keys := KeysOf(m, ActiveClaims(claims, at));
    assert keys != {};
    var k :| k in keys;
    var c :| c in ActiveClaims(claims, at) && CanonicalObjectKey(m, c) == k;
    var start := LatestStartCovers(claims, at);
    var r := Representatives(m, claims, start);
    RepresentativesHoldKeys(m, claims, start);
    assert keys <= KeysOf(m, r);
    SubsetSize(keys, KeysOf(m, r));
    KeyCount(m, r);
    assert IsCandidate(m, claims, max, r);
    s := DominatedByMaximal(m, claims, max, r);
  }

  /** Every returned set is active at one instant and has more than `max` members, with pairwise distinct keys and
      hence objects. */
  lemma EverySetViolates(m: RedirectMap, claims: set<Claim>, max: int, s: set<Claim>) returns (at: Timestamp)
    requires UniqueIds(claims) && Violating(m, claims, max, s)
    ensures s <= ActiveClaims(claims, at) && |s| > max
    ensures forall c, d :: c in s && d in s && c != d ==> CanonicalObjectKey(m, c) != CanonicalObjectKey(m, d)
    ensures forall c, d :: c in s && d in s && c != d ==> !SemanticallyEqual(m, c, d)
  {
    at :| at in StartTimes(claims) && s == Representatives(m, claims, at);
    forall c, d | c in s && d in s && CanonicalObjectKey(m, c) == CanonicalObjectKey(m, d) ensures c == d {
      assert c.id == d.id;
    }
    forall c, d | c in s && d in s && SemanticallyEqual(m, c, d) ensures c == d {
      EqualObjectsEqualKeys(m, c, d);
    }
  }

  // ----- the guarantees in the claims' own fields

  /** The members of a returned set are claims in force that all hold at one instant: begun, not yet ended. Each is the
      one of least id among the claims of its key that do. */
  lemma ReturnedSetHoldsAt(m: RedirectMap, claims: set<Claim>, max: int, s: set<Claim>) returns (at: Timestamp)
    requires UniqueIds(claims) && Violating(m, claims, max, s)
    ensures s <= claims && |s| > max
    ensures forall c :: c in s ==>
              && (c.status.Asserted? || c.status.Conflicted?) && c.validFrom <= at
              && (if c.validTo.Some? then at < c.validTo.value else at < MAX_TIMESTAMP)
    ensures forall c, d ::
              (&& c in s && d in claims && (d.status.Asserted? || d.status.Conflicted?) && d.validFrom <= at
               && (if d.validTo.Some? then at < d.validTo.value else at < MAX_TIMESTAMP)
               && CanonicalObjectKey(m, c) == CanonicalObjectKey(m, d)) ==> c.id <= d.id
  {
    at :| at in StartTimes(claims) && s == Representatives(m, claims, at);
    assert forall c :: c in s ==> IsRepresentative(m, claims, at, c);
  }

  /** Conversely, claims in force that hold at one instant and have more than `max` distinct keys are covered by one
      returned set. */
  lemma HoldingClaimsCovered(m: RedirectMap, claims: set<Claim>, max: int, together: set<Claim>, at: Timestamp)
    returns (s: set<Claim>)
    requires max >= 1 && together <= claims && |KeysOf(m, together)| > max
    requires forall c :: c in together ==>
               && (c.status.Asserted? || c.status.Conflicted?) && c.validFrom <= at
               && (if c.validTo.Some? then at < c.validTo.value else at < MAX_TIMESTAMP)
    ensures Violating(m, claims, max, s) && KeysOf(m, together) <= KeysOf(m, s)
  {
    assert together <= ActiveClaims(claims, at);
    SubsetSize(KeysOf(m, together), KeysOf(m, ActiveClaims(claims, at)));
    s := EveryViolationCovered(m, claims, max, at);
  }

  /** A value and its successor are never in one set: the first ends before the second begins, or as it begins. */
  lemma SuccessorsNotTogether(m: RedirectMap, claims: set<Claim>, max: int, s: set<Claim>, c: Claim, d: Claim)
    requires UniqueIds(claims) && Violating(m, claims, max, s)
    requires c.validTo.Some? && c.validTo.value <= d.validFrom
    ensures !(c in s && d in s)
  {
    var at := ReturnedSetHoldsAt(m, claims, max, s);
  }

  /** No returned set is a proper subset of another. */
  lemma NoSetInsideAnother(m: RedirectMap, claims: set<Claim>, max: int, s: set<Claim>, t: set<Claim>)
    requires Violating(m, claims, max, s) && Violating(m, claims, max, t) && s <= t
    ensures s == t
  {
    if s != t {
      ProperSubsetSize(s, t);
    }
  }
}
