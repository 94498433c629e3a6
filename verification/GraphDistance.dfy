/** Entities joined by claims, and the distance of a claim from a set of seed entities.

    A claim joins its subject with its object entity, if it has one. An entity is `Within` k of the seeds
    when at most k claims lead to it; a claim's hop is one more than the distance of its nearest end. */
module GraphDistance {
  import opened Kernel
  import opened Redirects

  datatype Link = Link(subject: EntityId, obj: Option<EntityId>)

  type Graph = map<ClaimId, Link>

  function Ends(link: Link): set<EntityId> {
    if link.obj.Some? then {link.subject, link.obj.value} else {link.subject}
  }

  ghost predicate Joined(g: Graph, x: EntityId, y: EntityId) {
    exists c :: c in g && x in Ends(g[c]) && y in Ends(g[c])
  }

  ghost predicate Within(g: Graph, seeds: set<EntityId>, x: EntityId, k: nat)
    decreases k
  {
    if k == 0 then x in seeds
    else Within(g, seeds, x, k - 1) || exists y :: Within(g, seeds, y, k - 1) && Joined(g, y, x)
  }

  /** Claim `c` has hop `h` or less. */
  ghost predicate Near(g: Graph, seeds: set<EntityId>, c: ClaimId, h: nat) {
    h > 0 && c in g && exists x :: x in Ends(g[c]) && Within(g, seeds, x, h - 1)
  }

  ghost predicate HopIs(g: Graph, seeds: set<EntityId>, c: ClaimId, h: nat) {
    h > 0 && Near(g, seeds, c, h) && !Near(g, seeds, c, h - 1)
  }

  lemma {:induction false} WithinGrows(g: Graph, seeds: set<EntityId>, x: EntityId, j: nat, k: nat)
    requires j <= k && Within(g, seeds, x, j)
    ensures Within(g, seeds, x, k)
    decreases k
  {
    if j < k { WithinGrows(g, seeds, x, j, k - 1); }
  }

  lemma {:induction false} MoreSeedsReachMore(g: Graph, seeds: set<EntityId>, more: set<EntityId>, x: EntityId, k: nat)
    requires seeds <= more && Within(g, seeds, x, k)
    ensures Within(g, more, x, k)
    decreases k
  {
    if k > 0 {
      if Within(g, seeds, x, k - 1) {
        MoreSeedsReachMore(g, seeds, more, x, k - 1);
      } else {
        var y :| Within(g, seeds, y, k - 1) && Joined(g, y, x);
        MoreSeedsReachMore(g, seeds, more, y, k - 1);
      }
    }
  }

  lemma NearGrows(g: Graph, seeds: set<EntityId>, c: ClaimId, j: nat, k: nat)
    requires j <= k && Near(g, seeds, c, j)
    ensures Near(g, seeds, c, k)
  {
    var x :| x in Ends(g[c]) && Within(g, seeds, x, j - 1);
    WithinGrows(g, seeds, x, j - 1, k - 1);
  }

  /** A claim has at most one hop. */
  lemma HopUnique(g: Graph, seeds: set<EntityId>, c: ClaimId, h: nat, i: nat)
    requires HopIs(g, seeds, c, h) && HopIs(g, seeds, c, i)
    ensures h == i
  {
    if h < i {
      NearGrows(g, seeds, c, h, i - 1);
    } else if i < h {
      NearGrows(g, seeds, c, i, h - 1);
    }
  }

  /** A claim within some hop has a hop. */
  lemma {:induction false} NearHasHop(g: Graph, seeds: set<EntityId>, c: ClaimId, h: nat) returns (i: nat)
    requires Near(g, seeds, c, h)
    ensures i <= h && HopIs(g, seeds, c, i)
    decreases h
  {
    if Near(g, seeds, c, h - 1) {
      i := NearHasHop(g, seeds, c, h - 1);
    } else {
      i := h;
    }
  }

  // ----- distance is the length of a shortest walk

  ghost predicate IsWalk(g: Graph, p: seq<EntityId>) {
    p != [] && forall i :: 0 <= i < |p| - 1 ==> Joined(g, p[i], p[i + 1])
  }

  /** A walk from a seed to `x` over at most k claims. */
  ghost predicate WalkTo(g: Graph, seeds: set<EntityId>, x: EntityId, k: nat, p: seq<EntityId>) {
    IsWalk(g, p) && p[0] in seeds && p[|p| - 1] == x && |p| <= k + 1
  }

  lemma {:induction false} WithinHasWalk(g: Graph, seeds: set<EntityId>, x: EntityId, k: nat) returns (p: seq<EntityId>)
    requires Within(g, seeds, x, k)
    ensures WalkTo(g, seeds, x, k, p)
    decreases k
  {
    if k == 0 {
      p := [x];
    } else if Within(g, seeds, x, k - 1) {
      p := WithinHasWalk(g, seeds, x, k - 1);
    } else {
      var y :| Within(g, seeds, y, k - 1) && Joined(g, y, x);
      var q := WithinHasWalk(g, seeds, y, k - 1);
      p := q + [x];
    }
  }

  lemma {:induction false} WalkStaysWithin(g: Graph, seeds: set<EntityId>, p: seq<EntityId>)
    requires IsWalk(g, p) && p[0] in seeds
    ensures Within(g, seeds, p[|p| - 1], |p| - 1)
    decreases |p|
  {
    if |p| > 1 {
      var q := p[..|p| - 1];
      forall i | 0 <= i < |q| - 1 ensures Joined(g, q[i], q[i + 1]) {
        assert Joined(g, p[i], p[i + 1]);
      }
      WalkStaysWithin(g, seeds, q);
      assert Joined(g, p[|p| - 2], p[|p| - 1]);
    }
  }

  /** `Within` is distance: it holds exactly when some walk from a seed is short enough. */
  lemma WithinIffWalk(g: Graph, seeds: set<EntityId>, x: EntityId, k: nat)
    ensures Within(g, seeds, x, k) <==> exists p :: WalkTo(g, seeds, x, k, p)
  {
    if Within(g, seeds, x, k) {
      var p := WithinHasWalk(g, seeds, x, k);
    }
    if p :| WalkTo(g, seeds, x, k, p) {
      WalkStaysWithin(g, seeds, p);
      WithinGrows(g, seeds, x, |p| - 1, k);
    }
  }

  // ----- distance as chains of claims

  /** The claim names the entity, as its subject or as its object. */
  predicate Names(link: Link, x: EntityId) {
    link.subject == x || link.obj == Some(x)
  }

  ghost predicate ShareEntity(a: Link, b: Link) {
    exists x :: Names(a, x) && Names(b, x)
  }

  /** Claims of the graph, the first naming a seed and each sharing an entity with the one before. */
  ghost predicate ClaimChain(g: Graph, seeds: set<EntityId>, cs: seq<ClaimId>) {
    && cs != [] && (forall i :: 0 <= i < |cs| ==> cs[i] in g)
    && (exists x :: x in seeds && Names(g[cs[0]], x))
    && forall i :: 0 < i < |cs| ==> ShareEntity(g[cs[i - 1]], g[cs[i]])
  }

  ghost predicate ChainTo(g: Graph, seeds: set<EntityId>, c: ClaimId, h: nat, cs: seq<ClaimId>) {
    ClaimChain(g, seeds, cs) && |cs| <= h && cs[|cs| - 1] == c
  }

  lemma {:induction false} NearHasChain(g: Graph, seeds: set<EntityId>, c: ClaimId, h: nat) returns (cs: seq<ClaimId>)
    requires Near(g, seeds, c, h)
    ensures ChainTo(g, seeds, c, h, cs)
    decreases h
  {
    var k := h - 1;
    var x :| x in Ends(g[c]) && Within(g, seeds, x, k);
    assert Names(g[c], x);
    if k == 0 {
      cs := [c];
    } else if Within(g, seeds, x, k - 1) {
      cs := NearHasChain(g, seeds, c, k);
    } else {
      var y :| Within(g, seeds, y, k - 1) && Joined(g, y, x);
      var d :| d in g && y in Ends(g[d]) && x in Ends(g[d]);
      assert Names(g[d], x) && ShareEntity(g[d], g[c]);
      var before := NearHasChain(g, seeds, d, k);
      cs := before + [c];
    }
  }

  lemma {:induction false} ChainIsNear(g: Graph, seeds: set<EntityId>, cs: seq<ClaimId>)
    requires ClaimChain(g, seeds, cs)
    ensures Near(g, seeds, cs[|cs| - 1], |cs|)
    decreases |cs|
  {
    var n := |cs| - 1;
    if n > 0 {
      ChainIsNear(g, seeds, cs[..n]);
      var d, c, k := cs[n - 1], cs[n], n - 1;
      assert ShareEntity(g[d], g[c]);
      var y :| y in Ends(g[d]) && Within(g, seeds, y, k);
      var x :| Names(g[d], x) && Names(g[c], x);
      assert x in Ends(g[d]) && x in Ends(g[c]);
      assert Joined(g, y, x) && Within(g, seeds, x, n);
    } else {
      var x :| x in seeds && Names(g[cs[0]], x);
      assert x in Ends(g[cs[n]]) && Within(g, seeds, x, n);
    }
  }

  /** A claim is near exactly when a short enough chain of claims, each sharing an entity with the next, ends in it. */
  lemma NearIffChain(g: Graph, seeds: set<EntityId>, c: ClaimId, h: nat)
    ensures Near(g, seeds, c, h) <==> exists cs :: ChainTo(g, seeds, c, h, cs)
  {
    if Near(g, seeds, c, h) {
      var cs := NearHasChain(g, seeds, c, h);
    }
    if cs :| ChainTo(g, seeds, c, h, cs) {
      ChainIsNear(g, seeds, cs);
      NearGrows(g, seeds, c, |cs|, h);
    }
  }

  // ----- exact-length frontiers

  /** Some walk of exactly k steps, each to another entity, leads from a seed to `x`. */
  ghost predicate Exactly(g: Graph, seeds: set<EntityId>, x: EntityId, k: nat)
    decreases k
  {
    if k == 0 then x in seeds
    else exists y :: Exactly(g, seeds, y, k - 1) && Joined(g, y, x) && y != x
  }

  lemma {:induction false} ExactlyIsWithin(g: Graph, seeds: set<EntityId>, x: EntityId, k: nat)
    requires Exactly(g, seeds, x, k)
    ensures Within(g, seeds, x, k)
    decreases k
  {
    if k > 0 {
      var y :| Exactly(g, seeds, y, k - 1) && Joined(g, y, x) && y != x;
      ExactlyIsWithin(g, seeds, y, k - 1);
    }
  }

  /** A shortest walk never stands still, so exact-length frontiers miss nothing. */
  lemma {:induction false} ExactlyCovers(g: Graph, seeds: set<EntityId>, x: EntityId, k: nat) returns (i: nat)
    requires Within(g, seeds, x, k)
    ensures i <= k && Exactly(g, seeds, x, i)
    decreases k
  {
    if k == 0 {
      i := 0;
    } else if Within(g, seeds, x, k - 1) {
      i := ExactlyCovers(g, seeds, x, k - 1);
    } else {
      var y :| Within(g, seeds, y, k - 1) && Joined(g, y, x);
      i := ExactlyCovers(g, seeds, y, k - 1);
      i := i + 1;
    }
  }

  lemma {:induction false} ExactlyStaysEmpty(g: Graph, seeds: set<EntityId>, j: nat, k: nat)
    requires j <= k && forall x :: !Exactly(g, seeds, x, j)
    ensures forall x :: !Exactly(g, seeds, x, k)
    decreases k
  {
    if j < k { ExactlyStaysEmpty(g, seeds, j, k - 1); }
  }

  ghost predicate TouchesExactly(g: Graph, seeds: set<EntityId>, c: ClaimId, k: nat) {
    c in g && exists x :: x in Ends(g[c]) && Exactly(g, seeds, x, k)
  }

  /** The claims an exact-length frontier touches for the first time are those of the next hop. */
  lemma ExactLevel(g: Graph, seeds: set<EntityId>, c: ClaimId, h: nat)
    requires h > 0
    ensures Near(g, seeds, c, h) <==> Near(g, seeds, c, h - 1) || TouchesExactly(g, seeds, c, h - 1)
  {
    if Near(g, seeds, c, h) {
      var x :| x in Ends(g[c]) && Within(g, seeds, x, h - 1);
      var i := ExactlyCovers(g, seeds, x, h - 1);
      if i < h - 1 {
        ExactlyIsWithin(g, seeds, x, i);
        assert Near(g, seeds, c, i + 1);
        NearGrows(g, seeds, c, i + 1, h - 1);
      }
    }
    if Near(g, seeds, c, h - 1) {
      NearGrows(g, seeds, c, h - 1, h);
    }
    if TouchesExactly(g, seeds, c, h - 1) {
      var x :| x in Ends(g[c]) && Exactly(g, seeds, x, h - 1);
      ExactlyIsWithin(g, seeds, x, h - 1);
    }
  }

  /** Once an exact-length frontier is empty there is nothing further out. */
  lemma {:induction false} NothingFurther(g: Graph, seeds: set<EntityId>, c: ClaimId, h: nat, k: nat)
    requires h <= k && forall x :: !Exactly(g, seeds, x, h)
    requires Near(g, seeds, c, k)
    ensures Near(g, seeds, c, h)
    decreases k
  {
    if h < k {
      ExactlyStaysEmpty(g, seeds, h, k - 1);
      ExactLevel(g, seeds, c, k);
      NothingFurther(g, seeds, c, h, k - 1);
    }
  }

  // ----- closed frontiers

  /** Some claim of the graph touches `x`. */
  ghost predicate Covered(g: Graph, x: EntityId) {
    exists c :: c in g && x in Ends(g[c])
  }

  /** When every seed lies on a claim, an entity is within k + 1 exactly when it is joined to one within k. */
  lemma {:induction false} ClosedFrontier(g: Graph, seeds: set<EntityId>, x: EntityId, k: nat)
    requires forall s :: s in seeds ==> Covered(g, s)
    ensures Within(g, seeds, x, k) ==> Covered(g, x)
    ensures Within(g, seeds, x, k + 1) <==> exists y :: Within(g, seeds, y, k) && Joined(g, y, x)
    decreases k
  {
    if k > 0 {
      ClosedFrontier(g, seeds, x, k - 1);
    }
    if Within(g, seeds, x, k) {
      var c :| c in g && x in Ends(g[c]);
      assert Joined(g, x, x);
    }
  }

  // ----- resolving entities

  function ResolveLink(link: Link, m: RedirectMap): Link {
    Link(Chase(m, link.subject), if link.obj.Some? then Some(Chase(m, link.obj.value)) else None)
  }

  /** The same claims over canonical ids. */
  function ResolveGraph(g: Graph, m: RedirectMap): Graph {
    map c | c in g :: ResolveLink(g[c], m)
  }

  function ResolveAll(s: set<EntityId>, m: RedirectMap): set<EntityId> {
    set x | x in s :: Chase(m, x)
  }

  lemma ResolvedJoined(g: Graph, m: RedirectMap, x: EntityId, y: EntityId)
    requires Joined(g, x, y)
    ensures Joined(ResolveGraph(g, m), Chase(m, x), Chase(m, y))
  {
    var c :| c in g && x in Ends(g[c]) && y in Ends(g[c]);
    assert c in ResolveGraph(g, m);
  }

  lemma {:induction false} ResolvingKeepsWithin(g: Graph, m: RedirectMap, seeds: set<EntityId>, x: EntityId, k: nat)
    requires Within(g, seeds, x, k)
    ensures Within(ResolveGraph(g, m), ResolveAll(seeds, m), Chase(m, x), k)
    decreases k
  {
    if k > 0 {
      if Within(g, seeds, x, k - 1) {
        ResolvingKeepsWithin(g, m, seeds, x, k - 1);
      } else {
        var y :| Within(g, seeds, y, k - 1) && Joined(g, y, x);
        ResolvingKeepsWithin(g, m, seeds, y, k - 1);
        ResolvedJoined(g, m, y, x);
      }
    }
  }

  /** Merging entities never moves a claim further from the seeds. */
  lemma ResolvingNeverLengthens(g: Graph, m: RedirectMap, seeds: set<EntityId>, c: ClaimId, h: nat)
    requires Near(g, seeds, c, h)
    ensures Near(ResolveGraph(g, m), ResolveAll(seeds, m), c, h)
  {
    var x :| x in Ends(g[c]) && Within(g, seeds, x, h - 1);
    ResolvingKeepsWithin(g, m, seeds, x, h - 1);
    assert Chase(m, x) in Ends(ResolveGraph(g, m)[c]);
  }
}
