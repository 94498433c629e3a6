/** Walks along `extends`, as a map from each entity type id to the ids it extends. */
module Inheritance {

  /** Ids, IRIs and aliases of entity types; only equality and one total order are used on them. */
  type Term = nat

  type Parents = map<Term, seq<Term>>

  function ParentsOf(parents: Parents, id: Term): seq<Term> {
    if id in parents then parents[id] else []
  }

  ghost predicate Walk(parents: Parents, path: seq<Term>) {
    path != [] && forall i :: 0 < i < |path| ==> Follows(parents, path, i)
  }

  predicate Follows(parents: Parents, path: seq<Term>, i: nat)
    requires 0 < i < |path|
  {
    path[i] in ParentsOf(parents, path[i - 1])
  }

  ghost predicate WalkFromTo(parents: Parents, path: seq<Term>, start: Term, end: Term) {
    Walk(parents, path) && path[0] == start && path[|path| - 1] == end
  }

  /** The reflexive-transitive closure. */
  ghost predicate Reaches(parents: Parents, start: Term, end: Term) {
    exists path :: WalkFromTo(parents, path, start, end)
  }

  ghost predicate Loop(parents: Parents, path: seq<Term>) {
    |path| > 1 && WalkFromTo(parents, path, path[0], path[0])
  }

  ghost predicate Acyclic(parents: Parents) {
    forall path :: !Loop(parents, path)
  }

  ghost predicate CycleReachable(parents: Parents, id: Term) {
    exists loop :: Loop(parents, loop) && Reaches(parents, id, loop[0])
  }

  lemma WalkTail(parents: Parents, path: seq<Term>)
    requires Walk(parents, path) && |path| > 1
    ensures path[1] in ParentsOf(parents, path[0]) && Walk(parents, path[1..])
  {
    assert Follows(parents, path, 1);
    forall i | 0 < i < |path[1..]| ensures Follows(parents, path[1..], i) {
      assert Follows(parents, path, i + 1);
    }
  }

  lemma WalkCons(parents: Parents, id: Term, path: seq<Term>)
    requires Walk(parents, path) && path[0] in ParentsOf(parents, id)
    ensures Walk(parents, [id] + path)
  {
    forall i | 0 < i < |[id] + path| ensures Follows(parents, [id] + path, i) {
      if i > 1 {
        assert Follows(parents, path, i - 1);
      }
    }
  }

  lemma WalkJoin(parents: Parents, left: seq<Term>, right: seq<Term>)
    requires Walk(parents, left) && Walk(parents, right) && left[|left| - 1] == right[0]
    ensures Walk(parents, left + right[1..])
  {
    var path := left + right[1..];
    forall i | 0 < i < |path| ensures Follows(parents, path, i) {
      if i < |left| {
        assert Follows(parents, left, i);
      } else {
        assert Follows(parents, right, i - |left| + 1);
      }
    }
  }

  lemma WalkSlice(parents: Parents, path: seq<Term>, lo: nat, hi: nat)
    requires Walk(parents, path) && lo < hi <= |path|
    ensures Walk(parents, path[lo..hi])
  {
    forall i | 0 < i < hi - lo ensures Follows(parents, path[lo..hi], i) {
      assert Follows(parents, path, lo + i);
    }
  }

  lemma ReachesSelf(parents: Parents, id: Term)
    ensures Reaches(parents, id, id)
  {
    assert WalkFromTo(parents, [id], id, id);
  }

  lemma ReachesTransitive(parents: Parents, a: Term, b: Term, c: Term)
    requires Reaches(parents, a, b) && Reaches(parents, b, c)
    ensures Reaches(parents, a, c)
  {
    var left :| WalkFromTo(parents, left, a, b);
    var right :| WalkFromTo(parents, right, b, c);
    WalkJoin(parents, left, right);
    assert WalkFromTo(parents, left + right[1..], a, c);
  }

  lemma ParentReached(parents: Parents, id: Term, parent: Term)
    requires parent in ParentsOf(parents, id)
    ensures Reaches(parents, id, parent)
  {
    WalkCons(parents, id, [parent]);
    assert WalkFromTo(parents, [id, parent], id, parent);
  }

  /** A set closed under parents holds everything reachable from its members. */
  lemma {:induction false} ClosedHoldsReached(parents: Parents, closed: set<Term>, path: seq<Term>)
    requires forall id, parent :: id in closed && parent in ParentsOf(parents, id) ==> parent in closed
    requires Walk(parents, path) && path[0] in closed
    ensures path[|path| - 1] in closed
  {
    if |path| > 1 {
      WalkTail(parents, path);
      ClosedHoldsReached(parents, closed, path[1..]);
    }
  }

  /** Two relations that agree on a set closed under one of them have the same walks from inside it. */
  lemma {:induction false} WalkTransfers(parents: Parents, others: Parents, closed: set<Term>, path: seq<Term>)
    requires forall id :: id in closed ==> ParentsOf(parents, id) == ParentsOf(others, id)
    requires forall id, parent :: id in closed && parent in ParentsOf(parents, id) ==> parent in closed
    requires path != [] && path[0] in closed
    ensures Walk(parents, path) <==> Walk(others, path)
  {
    if |path| > 1 && path[1] in ParentsOf(parents, path[0]) {
      WalkTransfers(parents, others, closed, path[1..]);
      if Walk(parents, path) || Walk(others, path) {
        if Walk(parents, path) {
          WalkTail(parents, path);
        } else {
          WalkTail(others, path);
        }
        WalkCons(parents, path[0], path[1..]);
        WalkCons(others, path[0], path[1..]);
        assert [path[0]] + path[1..] == path;
      }
    } else if |path| > 1 {
      assert !Follows(parents, path, 1) && !Follows(others, path, 1);
    }
  }

  // ----- the depth-first cycle search

  /** `hasEntityTypeCycle`: some walk from `id` runs into an id already being visited. */
  predicate HasCycle(parents: Parents, id: Term, visiting: set<Term>)
    decreases parents.Keys - visiting
  {
    id in visiting ||
    (id in parents && exists k :: 0 <= k < |parents[id]| && HasCycle(parents, parents[id][k], visiting + {id}))
  }

  /** A walk that ends where it may not: in the visiting set or at an id it has passed. */
  ghost predicate Collides(parents: Parents, path: seq<Term>, visiting: set<Term>) {
    Walk(parents, path) && (path[|path| - 1] in visiting || path[|path| - 1] in path[..|path| - 1])
  }

  lemma {:induction false} CycleHasCollision(parents: Parents, id: Term, visiting: set<Term>) returns (path: seq<Term>)
    requires HasCycle(parents, id, visiting)
    ensures Collides(parents, path, visiting) && path[0] == id
    decreases parents.Keys - visiting
  {
    path := [id];
    if id !in visiting {
      var k :| 0 <= k < |parents[id]| && HasCycle(parents, parents[id][k], visiting + {id});
      var rest := CycleHasCollision(parents, parents[id][k], visiting + {id});
      WalkCons(parents, id, rest);
      path := [id] + rest;
      var end := rest[|rest| - 1];
      assert path[..|path| - 1] == [id] + rest[..|rest| - 1];
    }
  }

  lemma {:induction false} CollisionIsCycle(parents: Parents, path: seq<Term>, visiting: set<Term>)
    requires Collides(parents, path, visiting)
    ensures HasCycle(parents, path[0], visiting)
    decreases |path|
  {
    var id := path[0];
    if id !in visiting {
      WalkTail(parents, path);
      var rest := path[1..];
      assert path[..|path| - 1] == [id] + rest[..|rest| - 1];
      CollisionIsCycle(parents, rest, visiting + {id});
      var k :| 0 <= k < |parents[id]| && parents[id][k] == rest[0];
      assert HasCycle(parents, parents[id][k], visiting + {id});
    }
  }

  lemma CollisionReachesLoop(parents: Parents, path: seq<Term>)
    requires Collides(parents, path, {})
    ensures CycleReachable(parents, path[0])
  {
    var n := |path| - 1;
    var i :| 0 <= i < n && path[i] == path[n];
    WalkSlice(parents, path, 0, i + 1);
    WalkSlice(parents, path, i, n + 1);
    assert Loop(parents, path[i..n + 1]);
    assert WalkFromTo(parents, path[0..i + 1], path[0], path[i]);
  }

  lemma LoopGivesCollision(parents: Parents, id: Term) returns (path: seq<Term>)
    requires CycleReachable(parents, id)
    ensures Collides(parents, path, {}) && path[0] == id
  {
    var loop :| Loop(parents, loop) && Reaches(parents, id, loop[0]);
    var lead :| WalkFromTo(parents, lead, id, loop[0]);
    WalkJoin(parents, lead, loop);
    path := lead + loop[1..];
    assert path[|lead| - 1] == path[|path| - 1];
    assert path[..|path| - 1][|lead| - 1] == path[|lead| - 1];
  }

  /** Started with nothing visited, the search finds a cycle exactly when one is reachable. */
  lemma CycleFoundIffReachable(parents: Parents, id: Term)
    ensures HasCycle(parents, id, {}) <==> CycleReachable(parents, id)
  {
    if HasCycle(parents, id, {}) {
      var path := CycleHasCollision(parents, id, {});
      CollisionReachesLoop(parents, path);
    }
    if CycleReachable(parents, id) {
      var path := LoopGivesCollision(parents, id);
      CollisionIsCycle(parents, path, {});
    }
  }

  /** The relation is acyclic exactly when the search finds nothing from any id it is defined on. */
  lemma NoneFoundIffAcyclic(parents: Parents)
    ensures (forall id :: id in parents ==> !HasCycle(parents, id, {})) <==> Acyclic(parents)
  {
    if !Acyclic(parents) {
      var loop :| Loop(parents, loop);
      WalkTail(parents, loop);
      ReachesSelf(parents, loop[0]);
      CycleFoundIffReachable(parents, loop[0]);
    }
    forall id | id in parents && HasCycle(parents, id, {}) ensures !Acyclic(parents) {
      CycleFoundIffReachable(parents, id);
    }
  }
}
