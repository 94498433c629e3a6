/** Conflict detection measured in objects instead of object keys: it covers every overfull instant exactly when no
    two different objects active there share a key. */
module ConflictObjects {
  import opened Kernel
  import opened Redirects
  import opened Conflicts

  /** Two different objects that share a key. */
  predicate Collides(m: RedirectMap, left: Claim, right: Claim) {
    CanonicalObjectKey(m, left) == CanonicalObjectKey(m, right) && !SemanticallyEqual(m, left, right)
  }

  /** Entities never collide, and literals only when their datatypes are not separable. */
  lemma SeparableNeverCollide(m: RedirectMap, left: Claim, right: Claim)
    requires left.obj.LiteralObject? && right.obj.LiteralObject? ==>
               Separable(left.obj.datatypeName, right.obj.datatypeName)
    ensures CanonicalObjectKey(m, left) == CanonicalObjectKey(m, right) <==> SemanticallyEqual(m, left, right)
  {
    if left.obj.LiteralObject? && right.obj.LiteralObject? {
      LiteralKeysInjectiveIff(left.obj.datatypeName, right.obj.datatypeName);
      assert CanonicalObjectKey(m, left) == LiteralKey(LiteralText(left.obj.datatypeName, left.obj.text));
      assert CanonicalObjectKey(m, right) == LiteralKey(LiteralText(right.obj.datatypeName, right.obj.text));
    }
  }

  ghost predicate DistinctObjects(m: RedirectMap, claims: set<Claim>) {
    forall c, d :: c in claims && d in claims && c != d ==> !SemanticallyEqual(m, c, d)
  }

  /** More than `max` pairwise different objects are active at the instant. */
  ghost predicate Overfull(m: RedirectMap, claims: set<Claim>, max: int, at: Timestamp) {
    exists some :: some <= ActiveClaims(claims, at) && |some| > max && DistinctObjects(m, some)
  }

  ghost predicate CoversObjects(m: RedirectMap, claims: set<Claim>, at: Timestamp, s: set<Claim>) {
    forall c :: c in ActiveClaims(claims, at) ==> HoldsObject(m, s, c)
  }

  ghost predicate HoldsObject(m: RedirectMap, s: set<Claim>, c: Claim) {
    exists d :: d in s && SemanticallyEqual(m, c, d)
  }

  ghost predicate NoCollision(m: RedirectMap, claims: set<Claim>, at: Timestamp) {
    forall c, d :: c in ActiveClaims(claims, at) && d in ActiveClaims(claims, at) ==> !Collides(m, c, d)
  }

  lemma {:induction false} DistinctKeysCount(m: RedirectMap, claims: set<Claim>)
    requires forall c, d :: c in claims && d in claims && c != d ==>
               CanonicalObjectKey(m, c) != CanonicalObjectKey(m, d)
    ensures |KeysOf(m, claims)| == |claims|
    decreases |claims|
  {
    if c :| c in claims {
      var rest := claims - {c};
      DistinctKeysCount(m, rest);
      assert KeysOf(m, claims) == KeysOf(m, rest) + {CanonicalObjectKey(m, c)};
      assert CanonicalObjectKey(m, c) !in KeysOf(m, rest);
    }
  }

  /** Without collisions an overfull instant has too many keys. */
  lemma OverfullKeys(m: RedirectMap, claims: set<Claim>, max: int, at: Timestamp)
    requires Overfull(m, claims, max, at) && NoCollision(m, claims, at)
    ensures |KeysOf(m, ActiveClaims(claims, at))| > max
  {
    var some :| some <= ActiveClaims(claims, at) && |some| > max && DistinctObjects(m, some);
    forall c, d | c in some && d in some && c != d ensures CanonicalObjectKey(m, c) != CanonicalObjectKey(m, d) {
      assert !Collides(m, c, d);
    }
    DistinctKeysCount(m, some);
    assert KeysOf(m, some) <= KeysOf(m, ActiveClaims(claims, at));
    SubsetSize(KeysOf(m, some), KeysOf(m, ActiveClaims(claims, at)));
  }

  lemma StaysOverfull(m: RedirectMap, claims: set<Claim>, max: int, at: Timestamp, start: Timestamp)
    requires Overfull(m, claims, max, at) && ActiveClaims(claims, at) <= ActiveClaims(claims, start)
    ensures Overfull(m, claims, max, start)
  {
    var some :| some <= ActiveClaims(claims, at) && |some| > max && DistinctObjects(m, some);
    assert some <= ActiveClaims(claims, start);
  }

  /** An overfull instant is covered object by object when no two active claims collide at the latest start. */
  lemma OverfullCovered(m: RedirectMap, claims: set<Claim>, max: int, at: Timestamp) returns (s: set<Claim>)
    requires max >= 1 && Overfull(m, claims, max, at)
    requires forall t :: Overfull(m, claims, max, t) ==> NoCollision(m, claims, t)
    ensures Violating(m, claims, max, s) && CoversObjects(m, claims, at, s)
  {
    var some :| some <= ActiveClaims(claims, at) && |some| > max && DistinctObjects(m, some);
    assert some != {};
    var start := LatestStartCovers(claims, at);
    StaysOverfull(m, claims, max, at, start);
    OverfullKeys(m, claims, max, start);
    var r := Representatives(m, claims, start);
    RepresentativesHoldKeys(m, claims, start);
    KeyCount(m, r);
    assert IsCandidate(m, claims, max, r);
    s := DominatedByMaximal(m, claims, max, r);
    forall c | c in ActiveClaims(claims, at) ensures HoldsObject(m, s, c) {
      var d := RepresentedKey(m, claims, start, c);
      assert !Collides(m, c, d);
    }
  }

  /** A covering set leaves no room for a collision: its members have pairwise distinct keys. */
  lemma CoveredHasNoCollision(m: RedirectMap, claims: set<Claim>, max: int, at: Timestamp, s: set<Claim>)
    requires UniqueIds(claims) && Violating(m, claims, max, s) && CoversObjects(m, claims, at, s)
    ensures NoCollision(m, claims, at)
  {
    var _ := EverySetViolates(m, claims, max, s);
    forall c, d | c in ActiveClaims(claims, at) && d in ActiveClaims(claims, at) ensures !Collides(m, c, d) {
      assert HoldsObject(m, s, c) && HoldsObject(m, s, d);
      var c' :| c' in s && SemanticallyEqual(m, c, c');
      var d' :| d' in s && SemanticallyEqual(m, d, d');
      EqualObjectsEqualKeys(m, c, c');
      EqualObjectsEqualKeys(m, d, d');
    }
  }

  /** Detection covers every overfull instant of a group, object by object, exactly when no two claims active at
      an overfull instant are different objects with one key. */
  lemma ObjectsCoveredIff(m: RedirectMap, claims: set<Claim>, max: int)
    requires max >= 1 && UniqueIds(claims)
    ensures (forall at :: Overfull(m, claims, max, at) ==>
               exists s :: Violating(m, claims, max, s) && CoversObjects(m, claims, at, s)) <==>
            (forall at :: Overfull(m, claims, max, at) ==> NoCollision(m, claims, at))
  {
    if forall at :: Overfull(m, claims, max, at) ==> NoCollision(m, claims, at) {
      forall at | Overfull(m, claims, max, at)
        ensures exists s :: Violating(m, claims, max, s) && CoversObjects(m, claims, at, s)
      {
        var s := OverfullCovered(m, claims, max, at);
      }
    }
    forall at, s | Violating(m, claims, max, s) && CoversObjects(m, claims, at, s) ensures NoCollision(m, claims, at) {
      CoveredHasNoCollision(m, claims, max, at, s);
    }
  }

  /** So it does whenever the group's literal datatypes are pairwise separable. */
  lemma SeparableGroupCovered(m: RedirectMap, claims: set<Claim>, max: int, at: Timestamp) returns (s: set<Claim>)
    requires max >= 1 && Overfull(m, claims, max, at)
    requires forall c, d :: c in claims && d in claims && c.obj.LiteralObject? && d.obj.LiteralObject? ==>
               Separable(c.obj.datatypeName, d.obj.datatypeName)
    ensures Violating(m, claims, max, s) && CoversObjects(m, claims, at, s)
  {
    forall c, d | c in claims && d in claims ensures !Collides(m, c, d) {
      SeparableNeverCollide(m, c, d);
    }
    s := OverfullCovered(m, claims, max, at);
  }

  /** A rule of at most one value broken by two colliding claims goes undetected. */
  lemma CollisionIsMissed(m: RedirectMap, c: Claim, d: Claim, at: Timestamp)
    requires c.id != d.id && ActiveAt(c, at) && ActiveAt(d, at) && Collides(m, c, d)
    ensures Overfull(m, {c, d}, 1, at) && forall s :: !Violating(m, {c, d}, 1, s)
  {
    assert {c, d} <= ActiveClaims({c, d}, at) && |{c, d}| == 2;
    EqualIsSymmetric(m, c, d);
    forall t ensures |Representatives(m, {c, d}, t)| <= 1 {
      OneRepresentative(m, c, d, t);
    }
  }

  lemma EqualIsSymmetric(m: RedirectMap, c: Claim, d: Claim)
    ensures SemanticallyEqual(m, c, d) <==> SemanticallyEqual(m, d, c)
  {}

  lemma OneRepresentative(m: RedirectMap, c: Claim, d: Claim, at: Timestamp)
    requires c.id != d.id && CanonicalObjectKey(m, c) == CanonicalObjectKey(m, d)
    ensures |Representatives(m, {c, d}, at)| <= 1
  {
    var r := Representatives(m, {c, d}, at);
    assert !(c in r && d in r);
    SubsetSize(r, if c in r then {c} else {d});
  }

  /** Such claims exist: a missing and an empty datatype, or a colon on either side of the join. */
  lemma CollidingClaims(m: RedirectMap, c: Claim)
    ensures Collides(m, c.(obj := LiteralObject("x", None)), c.(obj := LiteralObject("x", Some(""))))
    ensures Collides(m, c.(obj := LiteralObject("b:c", Some("a"))), c.(obj := LiteralObject("c", Some("a:b"))))
  {
    EmptyDatatypeCollides();
  }
}
