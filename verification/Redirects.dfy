/** Redirect maps: absorbed entity -> surviving entity, and what it means to chase them.

    `Chase` visits each entity at most once: it stops at the first id that is no redirect, or, on a
    cycle, at the first id met a second time. The facts below say how the end of a chase changes when a
    redirect is added (a merge) or removed (a reverted merge). */
module Redirects {
  import opened Kernel

  type RedirectMap = map<EntityId, EntityId>

  function Chase(m: RedirectMap, x: EntityId): EntityId
    decreases |m|
  {
    if x in m then
      assert |m - {x}| < |m| by { Shrinks(m, x); }
      Chase(m - {x}, m[x])
    else x
  }

  /** How many redirects a chase follows. */
  function Hops(m: RedirectMap, x: EntityId): (n: nat)
    ensures n <= |m|
    decreases |m|
  {
    if x in m then
      assert |m - {x}| < |m| by { Shrinks(m, x); }
      1 + Hops(m - {x}, m[x])
    else 0
  }

  lemma Shrinks(m: RedirectMap, x: EntityId)
    requires x in m
    ensures |m - {x}| == |m| - 1
  {
    assert (m - {x}).Keys == m.Keys - {x};
    assert |(m - {x}).Keys| == |m - {x}|;
    assert |m.Keys| == |m|;
  }

  /** The id met after following n redirects; an id that is no redirect stays where it is. */
  ghost function Follow(m: RedirectMap, x: EntityId, n: nat): EntityId
    decreases n
  {
    if n == 0 then x else Follow(m, if x in m then m[x] else x, n - 1)
  }

  ghost predicate Reaches(m: RedirectMap, x: EntityId, y: EntityId) {
    exists n: nat :: Follow(m, x, n) == y
  }

  /** `y` lies on a redirect cycle. */
  ghost predicate OnCycle(m: RedirectMap, y: EntityId) {
    y in m && Reaches(m, m[y], y)
  }

  ghost predicate Acyclic(m: RedirectMap) {
    forall y :: !OnCycle(m, y)
  }

  // ----- following redirects

  lemma {:induction false} FollowStuck(m: RedirectMap, x: EntityId, n: nat)
    requires x !in m
    ensures Follow(m, x, n) == x
  {
    if n > 0 { FollowStuck(m, x, n - 1); }
  }

  lemma {:induction false} FollowAdds(m: RedirectMap, x: EntityId, i: nat, j: nat)
    ensures Follow(m, Follow(m, x, i), j) == Follow(m, x, i + j)
    decreases i
  {
    if i > 0 { FollowAdds(m, if x in m then m[x] else x, i - 1, j); }
  }

  lemma ReachesSelf(m: RedirectMap, x: EntityId)
    ensures Reaches(m, x, x)
  {
    assert Follow(m, x, 0) == x;
  }

  lemma ReachesTransitive(m: RedirectMap, x: EntityId, y: EntityId, z: EntityId)
    requires Reaches(m, x, y) && Reaches(m, y, z)
    ensures Reaches(m, x, z)
  {
    var i: nat :| Follow(m, x, i) == y;
    var j: nat :| Follow(m, y, j) == z;
    FollowAdds(m, x, i, j);
  }

  /** One redirect at a time. */
  lemma ReachesUnfold(m: RedirectMap, x: EntityId, y: EntityId)
    ensures Reaches(m, x, y) <==> x == y || (x in m && Reaches(m, m[x], y))
  {
    if Reaches(m, x, y) {
      var n: nat :| Follow(m, x, n) == y;
      if x !in m {
        FollowStuck(m, x, n);
      } else if n > 0 {
        assert Follow(m, m[x], n - 1) == y;
      }
    }
    ReachesSelf(m, x);
    if x in m && Reaches(m, m[x], y) {
      var n: nat :| Follow(m, m[x], n) == y;
      assert Follow(m, x, n + 1) == y;
    }
  }

  lemma {:induction false} SubmapReaches(m: RedirectMap, gone: set<EntityId>, x: EntityId, y: EntityId, n: nat)
    requires Follow(m - gone, x, n) == y
    ensures Reaches(m, x, y)
    decreases n
  {
    if n == 0 || x !in m - gone {
      FollowStuck'(m - gone, x, n);
      ReachesSelf(m, x);
    } else {
      SubmapReaches(m, gone, m[x], y, n - 1);
      ReachesUnfold(m, x, y);
    }
  }

  lemma FollowStuck'(m: RedirectMap, x: EntityId, n: nat)
    requires n == 0 || x !in m
    ensures Follow(m, x, n) == x
  {
    if n > 0 { FollowStuck(m, x, n); }
  }

  lemma SubmapCycle(m: RedirectMap, gone: set<EntityId>, y: EntityId)
    requires OnCycle(m - gone, y)
    ensures OnCycle(m, y)
  {
    var n: nat :| Follow(m - gone, m[y], n) == y;
    SubmapReaches(m, gone, m[y], y, n);
  }

  /** Removing redirects makes no cycle. */
  lemma SubmapAcyclic(m: RedirectMap, gone: set<EntityId>)
    requires Acyclic(m)
    ensures Acyclic(m - gone)
  {
    forall y | OnCycle(m - gone, y) ensures false {
      SubmapCycle(m, gone, y);
    }
  }

  // ----- chasing

  /** Removing a redirect that is never reached does not change a chase. */
  lemma {:induction false} ChaseIgnoresUnreached(m: RedirectMap, x: EntityId, c: EntityId)
    requires !Reaches(m, c, x)
    ensures Chase(m - {x}, c) == Chase(m, c) && Hops(m - {x}, c) == Hops(m, c)
    decreases |m|
  {
    ReachesSelf(m, c);
    assert c != x;
    if c in m {
      Shrinks(m, c);
      if Reaches(m - {c}, m[c], x) {
        var n: nat :| Follow(m - {c}, m[c], n) == x;
        SubmapReaches(m, {c}, m[c], x, n);
        ReachesUnfold(m, c, x);
      }
      ChaseIgnoresUnreached(m - {c}, x, m[c]);
      assert m - {c} - {x} == m - {x} - {c};
    }
  }

  /** Without cycles a chase is plain recursion on the next redirect. */
  lemma ChaseUnfold(m: RedirectMap, x: EntityId)
    requires Acyclic(m) && x in m
    ensures Chase(m, x) == Chase(m, m[x]) && Hops(m, x) == 1 + Hops(m, m[x])
  {
    assert !OnCycle(m, x);
    ChaseIgnoresUnreached(m, x, m[x]);
  }

  lemma {:induction false} ChaseReached(m: RedirectMap, x: EntityId)
    ensures Reaches(m, x, Chase(m, x))
    decreases |m|
  {
    if x in m {
      Shrinks(m, x);
      ChaseReached(m - {x}, m[x]);
      var n: nat :| Follow(m - {x}, m[x], n) == Chase(m, x);
      SubmapReaches(m, {x}, m[x], Chase(m, x), n);
      ReachesUnfold(m, x, Chase(m, x));
    } else {
      ReachesSelf(m, x);
    }
  }

  /** Without cycles a chase ends at an entity nobody has absorbed. */
  lemma {:induction false} ChaseEndsAtRoot(m: RedirectMap, x: EntityId)
    requires Acyclic(m)
    ensures Chase(m, x) !in m
    decreases Hops(m, x)
  {
    if x in m {
      ChaseUnfold(m, x);
      ChaseEndsAtRoot(m, m[x]);
    }
  }

  // ----- when a chase gets stuck

  lemma {:induction false} StuckOnCycle(m: RedirectMap, seen: set<EntityId>, c: EntityId)
    requires forall s :: s in seen ==> s in m && Reaches(m, m[s], c)
    ensures var r := Chase(m - seen, c); r in m ==> Reaches(m, c, r) && OnCycle(m, r)
    decreases |m - seen|
  {
    var rest := m - seen;
    ReachesSelf(m, c);
    if c in rest {
      Shrinks(rest, c);
      assert rest - {c} == m - (seen + {c});
      forall s | s in seen + {c} ensures Reaches(m, m[s], m[c]) {
        ReachesSelf(m, m[c]);
        ReachesUnfold(m, c, m[c]);
        if s in seen {
          ReachesTransitive(m, m[s], c, m[c]);
        }
      }
      StuckOnCycle(m, seen + {c}, m[c]);
      ReachesUnfold(m, c, Chase(rest, c));
    }
  }

  lemma {:induction false} CycleNeverEscapes(m: RedirectMap, y: EntityId, c: nat, k: nat)
    requires y in m && c > 0 && Follow(m, y, c) == y
    ensures Follow(m, y, k) in m
  {
    if k >= c {
      FollowAdds(m, y, c, k - c);
      CycleNeverEscapes(m, y, c, k - c);
    } else if Follow(m, y, k) !in m {
      FollowAdds(m, y, k, c - k);
      FollowStuck(m, Follow(m, y, k), c - k);
    }
  }

  /** A chase ends on a redirect exactly when a cycle can be reached, and then on the cycle itself. */
  lemma ChaseStuckIffCycle(m: RedirectMap, x: EntityId)
    ensures Chase(m, x) in m <==> exists y :: Reaches(m, x, y) && OnCycle(m, y)
    ensures Chase(m, x) in m ==> OnCycle(m, Chase(m, x))
  {
    var r := Chase(m, x);
    assert m - {} == m;
    StuckOnCycle(m, {}, x);
    if r !in m {
      ChaseReached(m, x);
      forall y | Reaches(m, x, y) ensures !OnCycle(m, y) {
        if OnCycle(m, y) {
          var c: nat :| Follow(m, m[y], c) == y;
          assert Follow(m, y, c + 1) == y;
          var i: nat :| Follow(m, x, i) == y;
          var j: nat :| Follow(m, x, j) == r;
          if i <= j {
            FollowAdds(m, x, i, j - i);
            CycleNeverEscapes(m, y, c + 1, j - i);
          } else {
            FollowAdds(m, x, j, i - j);
            FollowStuck(m, r, i - j);
          }
        }
      }
    }
  }

  // ----- merging one root into another

  lemma {:induction false} FollowAfterMerge(m: RedirectMap, a: EntityId, s: EntityId, x: EntityId, n: nat)
    requires a !in m && s !in m && a != s
    ensures Follow(m[a := s], x, n) == Follow(m, x, n) || Follow(m[a := s], x, n) == s
    decreases n
  {
    var m' := m[a := s];
    if n > 0 {
      if x == a {
        FollowStuck(m', s, n - 1);
      } else {
        FollowAfterMerge(m, a, s, if x in m then m[x] else x, n - 1);
      }
    }
  }

  lemma MergeCycle(m: RedirectMap, a: EntityId, s: EntityId, y: EntityId)
    requires a !in m && s !in m && a != s && OnCycle(m[a := s], y)
    ensures OnCycle(m, y)
  {
    var m' := m[a := s];
    var n: nat :| Follow(m', m'[y], n) == y;
    if y == a {
      FollowStuck(m', s, n);
      assert false;
    } else {
      FollowAfterMerge(m, a, s, m[y], n);
    }
  }

  /** Redirecting one root to another keeps the map acyclic. */
  lemma MergeKeepsAcyclic(m: RedirectMap, a: EntityId, s: EntityId)
    requires Acyclic(m) && a !in m && s !in m && a != s
    ensures Acyclic(m[a := s])
  {
    var m' := m[a := s];
    forall y | OnCycle(m', y) ensures false {
      MergeCycle(m, a, s, y);
    }
  }

  /** A merge sends exactly the absorbed root's class to the survivor. */
  lemma {:induction false} ChaseAfterMerge(m: RedirectMap, a: EntityId, s: EntityId, x: EntityId)
    requires Acyclic(m) && a !in m && s !in m && a != s
    ensures Chase(m[a := s], x) == if Chase(m, x) == a then s else Chase(m, x)
    decreases Hops(m, x)
  {
    var m' := m[a := s];
    MergeKeepsAcyclic(m, a, s);
    if x in m {
      ChaseUnfold(m, x);
      ChaseUnfold(m', x);
      ChaseAfterMerge(m, a, s, m[x]);
    } else if x == a {
      ChaseUnfold(m', a);
    }
  }

  /** Removing one redirect splits off exactly the entities whose redirect path passes through it. */
  lemma {:induction false} ChaseAfterRevert(m: RedirectMap, a: EntityId, x: EntityId)
    requires Acyclic(m)
    ensures Chase(m - {a}, x) == if Reaches(m, x, a) && a in m then a else Chase(m, x)
    decreases Hops(m, x)
  {
    SubmapAcyclic(m, {a});
    ReachesUnfold(m, x, a);
    if x in m && x != a {
      ChaseUnfold(m, x);
      ChaseUnfold(m - {a}, x);
      ChaseAfterRevert(m, a, m[x]);
    }
  }
}
