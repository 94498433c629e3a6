/** Graph-neighbourhood retrieval, which the source implements three times with three frontiers: the
    projection's exact-length walks, the canonical fallback's closed neighbourhood, and the cumulative
    frontier of in-process retrieval.

    Sets and query results are iterated in any order. A candidate carries its hop; its score is computed
    from the hop. */
module GraphSearch {
  import opened Kernel
  import opened GraphDistance
  import opened Redirects
  import EntityIdentity
  import RP = RetrievalProjection

  /** The source's score is the inverse of the hop. */
  datatype Candidate = Candidate(claimId: ClaimId, hop: nat, route: EntityId)

  function Ids(cs: seq<Candidate>): set<ClaimId> {
    set i | 0 <= i < |cs| :: cs[i].claimId
  }

  function Scoped(table: Graph, inScope: set<ClaimId>): Graph {
    map c | c in table && c in inScope :: table[c]
  }

  /** Both ends of every seed claim the table holds. */
  function SeedEntities(table: Graph, seedClaimIds: seq<ClaimId>): set<EntityId> {
    set c, x | c in seedClaimIds && c in table && x in Ends(table[c]) :: x
  }

  function Seeds(seedClaimIds: seq<ClaimId>): set<ClaimId> {
    set c | c in seedClaimIds
  }

  function Max0(hops: int): nat {
    if hops < 0 then 0 else hops
  }

  function Slice(cs: seq<Candidate>, limit: nat): seq<Candidate> {
    if |cs| <= limit then cs else cs[..limit]
  }

  // ----- what a search result must be

  ghost predicate Sound(g: Graph, from: set<EntityId>, seeds: set<ClaimId>, hops: nat, cs: seq<Candidate>) {
    && (forall i :: 0 <= i < |cs| ==>
          cs[i].claimId !in seeds && cs[i].hop <= hops && HopIs(g, from, cs[i].claimId, cs[i].hop))
    && (forall i, j :: 0 <= i < j < |cs| ==> cs[i].hop <= cs[j].hop && cs[i].claimId != cs[j].claimId)
  }

  /** All claims of hop `h` or less, nearest first. */
  ghost predicate Ranked(g: Graph, from: set<EntityId>, seeds: set<ClaimId>, h: nat, cs: seq<Candidate>) {
    && Sound(g, from, seeds, h, cs)
    && forall c :: Near(g, from, c, h) && c !in seeds ==> c in Ids(cs)
  }

  /** Correct hops, nearest first, and nothing omitted unless the limit is used up by claims as near. */
  ghost predicate BestFirst(g: Graph, from: set<EntityId>, seeds: set<ClaimId>, hops: nat, limit: nat,
                            r: seq<Candidate>) {
    && Sound(g, from, seeds, hops, r)
    && |r| <= limit
    && forall c :: Near(g, from, c, hops) && c !in seeds && c !in Ids(r) ==>
         |r| == limit && forall i :: 0 <= i < |r| ==> !Near(g, from, c, r[i].hop - 1)
  }

  /** The claims found at one level. */
  ghost predicate Level(g: Graph, from: set<EntityId>, seeds: set<ClaimId>, h: nat, before: seq<Candidate>,
                        level: seq<Candidate>) {
    && (forall i :: 0 <= i < |level| ==> level[i].hop == h)
    && (forall i, j :: 0 <= i < j < |level| ==> level[i].claimId != level[j].claimId)
    && forall c :: c in Ids(level) <==> Near(g, from, c, h) && c !in seeds && c !in Ids(before)
  }

  lemma IdsAt(cs: seq<Candidate>, c: ClaimId) returns (i: nat)
    requires c in Ids(cs)
    ensures i < |cs| && cs[i].claimId == c
  {
    i :| 0 <= i < |cs| && cs[i].claimId == c;
  }

  lemma IdsAppend(a: seq<Candidate>, b: seq<Candidate>)
    ensures Ids(a + b) == Ids(a) + Ids(b)
  {
    forall c | c in Ids(a) + Ids(b) ensures c in Ids(a + b) {
      if c in Ids(a) {
        var i := IdsAt(a, c);
        assert (a + b)[i].claimId == c;
      } else {
        var i := IdsAt(b, c);
        assert (a + b)[|a| + i].claimId == c;
      }
    }
  }

  lemma RankedIds(g: Graph, from: set<EntityId>, seeds: set<ClaimId>, h: nat, cs: seq<Candidate>, c: ClaimId)
    requires Ranked(g, from, seeds, h, cs)
    ensures c in Ids(cs) <==> Near(g, from, c, h) && c !in seeds
  {
    if c in Ids(cs) {
      var i := IdsAt(cs, c);
      NearGrows(g, from, c, cs[i].hop, h);
    }
  }

  lemma LevelExtends(g: Graph, from: set<EntityId>, seeds: set<ClaimId>, h: nat, before: seq<Candidate>,
                     level: seq<Candidate>)
    requires h > 0 && Ranked(g, from, seeds, h - 1, before) && Level(g, from, seeds, h, before, level)
    ensures Ranked(g, from, seeds, h, before + level)
  {
    var cs := before + level;
    IdsAppend(before, level);
    forall i | 0 <= i < |level|
      ensures HopIs(g, from, level[i].claimId, h) && level[i].claimId !in seeds && level[i].claimId !in Ids(before)
    {
      assert level[i].claimId in Ids(level);
      RankedIds(g, from, seeds, h - 1, before, level[i].claimId);
    }
    forall i | 0 <= i < |before| ensures before[i].claimId in Ids(before) {}
  }

  lemma SliceBestFirst(g: Graph, from: set<EntityId>, seeds: set<ClaimId>, h: nat, hops: nat, limit: nat,
                       cs: seq<Candidate>)
    requires Ranked(g, from, seeds, h, cs) && h <= hops
    requires |cs| >= limit || forall c :: Near(g, from, c, hops) ==> Near(g, from, c, h)
    ensures BestFirst(g, from, seeds, hops, limit, Slice(cs, limit))
  {
    var r := Slice(cs, limit);
    forall c | Near(g, from, c, hops) && c !in seeds && c !in Ids(r)
      ensures |r| == limit && forall i :: 0 <= i < |r| ==> !Near(g, from, c, r[i].hop - 1)
    {
      forall i | 0 <= i < |r| && Near(g, from, c, r[i].hop - 1) ensures false {
        NearGrows(g, from, c, r[i].hop - 1, h);
        var k := IdsAt(cs, c);
        assert c in Ids(r) <== k < |r|;
        NearGrows(g, from, c, r[i].hop - 1, cs[k].hop - 1);
      }
    }
  }

  // ----- the projection: exact-length walks with an early stop

  method SeedGraphEntities(table: Graph, seedClaimIds: seq<ClaimId>) returns (entities: set<EntityId>)
    ensures entities == SeedEntities(table, seedClaimIds)
  {
    entities := {};
    for i := 0 to |seedClaimIds|
      invariant entities == SeedEntities(table, seedClaimIds[..i])
    {
      assert seedClaimIds[..i + 1] == seedClaimIds[..i] + [seedClaimIds[i]];
      SeedEntitiesAppend(table, seedClaimIds[..i], seedClaimIds[i]);
      if seedClaimIds[i] in table {
        entities := entities + Ends(table[seedClaimIds[i]]);
      }
    }
    assert seedClaimIds[..|seedClaimIds|] == seedClaimIds;
  }

  lemma SeedEntitiesAppend(table: Graph, ids: seq<ClaimId>, id: ClaimId)
    ensures SeedEntities(table, ids + [id]) == SeedEntities(table, ids) + if id in table then Ends(table[id]) else {}
  {
    var grown := SeedEntities(table, ids) + if id in table then Ends(table[id]) else {};
    forall x | x in grown ensures x in SeedEntities(table, ids + [id]) {
      if x in SeedEntities(table, ids) {
        var c :| c in ids && c in table && x in Ends(table[c]);
        assert c in ids + [id];
      } else {
        assert id in ids + [id];
      }
    }
  }

  /** One entity's rows: new claims become candidates, far ends join the next frontier. */
  method CollectGraphRows(g: Graph, rows: set<ClaimId>, entity: EntityId, hop: nat, seenClaims: set<ClaimId>,
                          candidates: seq<Candidate>)
    returns (seen: set<ClaimId>, collected: seq<Candidate>, next: set<EntityId>, ghost added: seq<Candidate>)
    requires rows <= g.Keys
    ensures seen == seenClaims + rows
    ensures collected == candidates + added
    ensures Ids(added) == rows - seenClaims
    ensures forall i :: 0 <= i < |added| ==> added[i].hop == hop && added[i].route == entity
    ensures forall i, j :: 0 <= i < j < |added| ==> added[i].claimId != added[j].claimId
    ensures forall y :: y in next <==> exists c :: c in rows && y in Ends(g[c]) && y != entity
  {
    seen, collected, next, added := seenClaims, candidates, {}, [];
    var todo := rows;
    ghost var done: set<ClaimId> := {};
    while todo != {}
      invariant done !! todo && done + todo == rows
      invariant seen == seenClaims + done
      invariant collected == candidates + added
      invariant Ids(added) == done - seenClaims
      invariant forall i :: 0 <= i < |added| ==> added[i].hop == hop && added[i].route == entity
      invariant forall i, j :: 0 <= i < j < |added| ==> added[i].claimId != added[j].claimId
      invariant forall y :: y in next <==> exists c :: c in done && y in Ends(g[c]) && y != entity
    {
      var c :| c in todo;
      if c !in seen {
        forall i | 0 <= i < |added| ensures added[i].claimId != c {
          assert added[i].claimId in Ids(added);
        }
        IdsAppend(added, [Candidate(c, hop, entity)]);
        assert Ids([Candidate(c, hop, entity)]) == {c} by { assert [Candidate(c, hop, entity)][0].claimId == c; }
        seen := seen + {c};
        collected := collected + [Candidate(c, hop, entity)];
        added := added + [Candidate(c, hop, entity)];
      }
      next := next + (Ends(g[c]) - {entity});
      todo, done := todo - {c}, done + {c};
    }
  }

  ghost predicate Touched(g: Graph, c: ClaimId, from: set<EntityId>) {
    c in g && exists x :: x in from && x in Ends(g[c])
  }

  function RowsFor(g: Graph, entity: EntityId): set<ClaimId> {
    set c | c in g && entity in Ends(g[c])
  }

  ghost predicate Fresh(level: seq<Candidate>, hop: nat) {
    && (forall i :: 0 <= i < |level| ==> level[i].hop == hop)
    && (forall i, j :: 0 <= i < j < |level| ==> level[i].claimId != level[j].claimId)
  }

  ghost predicate Routed(g: Graph, level: seq<Candidate>, from: set<EntityId>) {
    forall i :: 0 <= i < |level| ==>
      level[i].claimId in g && level[i].route in from && level[i].route in Ends(g[level[i].claimId])
  }

  lemma FreshAppend(a: seq<Candidate>, b: seq<Candidate>, hop: nat)
    requires Fresh(a, hop) && Fresh(b, hop) && Ids(a) !! Ids(b)
    ensures Fresh(a + b, hop) && Ids(a + b) == Ids(a) + Ids(b)
  {
    IdsAppend(a, b);
    forall i, j | 0 <= i < |a| && 0 <= j < |b| ensures a[i].claimId != b[j].claimId {
      assert a[i].claimId in Ids(a) && b[j].claimId in Ids(b);
    }
  }

  lemma NextAfter(g: Graph, done: set<EntityId>, e: EntityId, next: set<EntityId>, others: set<EntityId>, y: EntityId)
    requires y in next <==> exists x :: x in done && Joined(g, x, y) && y != x
    requires y in others <==> exists c :: c in RowsFor(g, e) && y in Ends(g[c]) && y != e
    ensures y in next + others <==> exists x :: x in done + {e} && Joined(g, x, y) && y != x
  {
    assert y in others <==> Joined(g, e, y) && y != e;
  }

  /** One hop of the projection's search. */
  method ExpandFrontier(g: Graph, frontier: set<EntityId>, hop: nat, seenClaims: set<ClaimId>,
                        candidates: seq<Candidate>)
    returns (seen: set<ClaimId>, collected: seq<Candidate>, next: set<EntityId>, ghost level: seq<Candidate>)
    ensures collected == candidates + level
    ensures seen == seenClaims + Ids(level)
    ensures Fresh(level, hop) && Routed(g, level, frontier)
    ensures forall c :: c in Ids(level) <==> c !in seenClaims && Touched(g, c, frontier)
    ensures forall y :: y in next <==> exists x :: x in frontier && Joined(g, x, y) && y != x
  {
    seen, collected, next, level := seenClaims, candidates, {}, [];
    var todo := frontier;
    ghost var done: set<EntityId> := {};
    while todo != {}
      invariant done !! todo && done + todo == frontier
      invariant collected == candidates + level
      invariant forall c :: c in seen <==> c in seenClaims || Touched(g, c, done)
      invariant Fresh(level, hop) && Routed(g, level, frontier)
      invariant Ids(level) == seen - seenClaims
      invariant forall y :: y in next <==> exists x :: x in done && Joined(g, x, y) && y != x
    {
      var e :| e in todo;
      var others;
      ghost var added;
      seen, collected, others, added := CollectGraphRows(g, RowsFor(g, e), e, hop, seen, collected);
      forall y { NextAfter(g, done, e, next, others, y); }
      forall i | 0 <= i < |added| ensures added[i].claimId in RowsFor(g, e) {
        assert added[i].claimId in Ids(added);
      }
      FreshAppend(level, added, hop);
      level := level + added;
      next := next + others;
      todo, done := todo - {e}, done + {e};
    }
  }

  ghost predicate ExactFrontier(g: Graph, from: set<EntityId>, frontier: set<EntityId>, k: nat) {
    forall x :: x in frontier <==> Exactly(g, from, x, k)
  }

  /** Each candidate's route names an end of its claim one hop closer to the seeds. */
  ghost predicate RoutedNear(g: Graph, from: set<EntityId>, cs: seq<Candidate>) {
    forall i :: 0 <= i < |cs| ==>
      cs[i].claimId in g && cs[i].hop > 0 && cs[i].route in Ends(g[cs[i].claimId]) &&
      Within(g, from, cs[i].route, cs[i].hop - 1)
  }

  ghost predicate ExactState(g: Graph, from: set<EntityId>, seeds: set<ClaimId>, h: nat, cs: seq<Candidate>,
                             frontier: set<EntityId>) {
    Ranked(g, from, seeds, h, cs) && RoutedNear(g, from, cs) && ExactFrontier(g, from, frontier, h)
  }

  lemma ExactStart(g: Graph, from: set<EntityId>, seeds: set<ClaimId>)
    ensures ExactState(g, from, seeds, 0, [], from)
  {}

  lemma ExactNext(g: Graph, from: set<EntityId>, h: nat, frontier: set<EntityId>, next: set<EntityId>)
    requires h > 0 && ExactFrontier(g, from, frontier, h - 1)
    requires forall y :: y in next <==> exists x :: x in frontier && Joined(g, x, y) && y != x
    ensures ExactFrontier(g, from, next, h)
  {}

  lemma RoutedStep(g: Graph, from: set<EntityId>, h: nat, before: seq<Candidate>, level: seq<Candidate>,
                   frontier: set<EntityId>)
    requires h > 0 && RoutedNear(g, from, before) && ExactFrontier(g, from, frontier, h - 1)
    requires Fresh(level, h) && Routed(g, level, frontier)
    ensures RoutedNear(g, from, before + level)
  {
    forall i | 0 <= i < |level| ensures Within(g, from, level[i].route, h - 1) {
      ExactlyIsWithin(g, from, level[i].route, h - 1);
    }
  }

  lemma ExactStep(g: Graph, from: set<EntityId>, seeds: set<ClaimId>, h: nat, before: seq<Candidate>,
                  level: seq<Candidate>, frontier: set<EntityId>, next: set<EntityId>)
    requires h > 0 && ExactState(g, from, seeds, h - 1, before, frontier)
    requires Fresh(level, h) && Routed(g, level, frontier)
    requires forall c :: c in Ids(level) <==> c !in seeds + Ids(before) && Touched(g, c, frontier)
    requires forall y :: y in next <==> exists x :: x in frontier && Joined(g, x, y) && y != x
    ensures ExactState(g, from, seeds, h, before + level, next)
    ensures Ids(before + level) == Ids(before) + Ids(level)
  {
    ExactFrontierLevel(g, from, seeds, h, before, level, frontier);
    LevelExtends(g, from, seeds, h, before, level);
    IdsAppend(before, level);
    RoutedStep(g, from, h, before, level, frontier);
    ExactNext(g, from, h, frontier, next);
  }

  lemma ExactEnd(g: Graph, from: set<EntityId>, seeds: set<ClaimId>, h: nat, hops: nat, limit: nat, cs: seq<Candidate>,
                 frontier: set<EntityId>)
    requires h <= hops && ExactState(g, from, seeds, h, cs, frontier)
    requires h == hops || frontier == {} || |cs| >= limit
    ensures BestFirst(g, from, seeds, hops, limit, Slice(cs, limit))
    ensures RoutedNear(g, from, Slice(cs, limit))
  {
    if |cs| < limit {
      forall c | Near(g, from, c, hops) ensures Near(g, from, c, h) {
        if h < hops {
          NothingFurther(g, from, c, h, hops);
        }
      }
    }
    SliceBestFirst(g, from, seeds, h, hops, limit, cs);
  }

  lemma ScopedIsRestriction(table: Graph, inScope: set<ClaimId>, g: Graph)
    requires g.Keys == table.Keys * inScope && forall c :: c in g ==> g[c] == table[c]
    ensures g == Scoped(table, inScope)
  {}

  /** The search expands rows in scope only, from seeds read in the whole table. */
  method SearchGraph(table: Graph, inScope: set<ClaimId>, seedClaimIds: seq<ClaimId>, hops: int, limit: nat)
    returns (r: seq<Candidate>)
    ensures BestFirst(Scoped(table, inScope), SeedEntities(table, seedClaimIds), Seeds(seedClaimIds), Max0(hops),
                      limit, r)
    ensures RoutedNear(Scoped(table, inScope), SeedEntities(table, seedClaimIds), r)
    ensures forall i :: 0 <= i < |r| ==> r[i].claimId in table && r[i].claimId in inScope
    ensures forall g: Graph :: g.Keys == table.Keys * inScope && (forall c :: c in g ==> g[c] == table[c]) ==>
              BestFirst(g, SeedEntities(table, seedClaimIds), Seeds(seedClaimIds), Max0(hops), limit, r)
  {
    r := ExpandSeeds(Scoped(table, inScope), table, seedClaimIds, hops, limit);
    forall g: Graph | g.Keys == table.Keys * inScope && forall c :: c in g ==> g[c] == table[c]
      ensures g == Scoped(table, inScope)
    {
      ScopedIsRestriction(table, inScope, g);
    }
  }

  method ExpandSeeds(g: Graph, table: Graph, seedClaimIds: seq<ClaimId>, hops: int, limit: nat)
    returns (r: seq<Candidate>)
    ensures BestFirst(g, SeedEntities(table, seedClaimIds), Seeds(seedClaimIds), Max0(hops), limit, r)
    ensures RoutedNear(g, SeedEntities(table, seedClaimIds), r)
  {
    ghost var from, seeds := SeedEntities(table, seedClaimIds), Seeds(seedClaimIds);
    if seedClaimIds == [] || hops <= 0 {
      r := [];
      NoSeedsNothingNear(g, from, Max0(hops));
      return;
    }
    var seenClaims := Seeds(seedClaimIds);
    var frontier := SeedGraphEntities(table, seedClaimIds);
    r := [];
    var hop := 1;
    ExactStart(g, from, seeds);
    while hop <= hops && frontier != {}
      invariant 1 <= hop <= hops + 1
      invariant ExactState(g, from, seeds, hop - 1, r, frontier)
      invariant seenClaims == seeds + Ids(r)
      decreases hops - hop
    {
      var found, next;
      ghost var level;
      seenClaims, found, next, level := ExpandFrontier(g, frontier, hop, seenClaims, r);
      ExactStep(g, from, seeds, hop, r, level, frontier, next);
      r, frontier := found, next;
      if |r| >= limit {
        ExactEnd(g, from, seeds, hop, hops, limit, r, frontier);
        r := Slice(r, limit);
        return;
      }
      hop := hop + 1;
    }
    ExactEnd(g, from, seeds, hop - 1, hops, limit, r, frontier);
    r := Slice(r, limit);
  }

  lemma NoSeedsNothingNear(g: Graph, from: set<EntityId>, hops: nat)
    requires from == {} || hops == 0
    ensures forall c :: !Near(g, from, c, hops)
  {
    if hops > 0 {
      var k := hops - 1;
      forall x ensures !Within(g, from, x, k) {
        NothingWithin(g, x, k);
      }
    }
  }

  lemma {:induction false} NothingWithin(g: Graph, x: EntityId, k: nat)
    ensures !Within(g, {}, x, k)
    decreases k
  {
    if k > 0 {
      var j := k - 1;
      forall y ensures !Within(g, {}, y, j) { NothingWithin(g, y, j); }
    }
  }

  lemma ExactFrontierLevel(g: Graph, from: set<EntityId>, seeds: set<ClaimId>, h: nat, before: seq<Candidate>,
                           level: seq<Candidate>, frontier: set<EntityId>)
    requires h > 0 && Ranked(g, from, seeds, h - 1, before) && Fresh(level, h)
    requires forall x :: x in frontier <==> Exactly(g, from, x, h - 1)
    requires forall c :: c in Ids(level) <==> c !in seeds + Ids(before) && Touched(g, c, frontier)
    ensures Level(g, from, seeds, h, before, level)
  {
    forall c ensures c in Ids(level) <==> Near(g, from, c, h) && c !in seeds && c !in Ids(before) {
      ExactLevel(g, from, c, h);
      RankedIds(g, from, seeds, h - 1, before, c);
      assert Touched(g, c, frontier) <==> TouchesExactly(g, from, c, h - 1);
    }
  }

  // ----- the canonical fallback: closed neighbourhoods

  /** One pass over all claims in scope. */
  method ExpandClosed(g: Graph, frontier: set<EntityId>, hop: nat, seenClaims: set<ClaimId>,
                      candidates: seq<Candidate>)
    returns (seen: set<ClaimId>, collected: seq<Candidate>, next: set<EntityId>, ghost level: seq<Candidate>)
    ensures collected == candidates + level
    ensures seen == seenClaims + Ids(level)
    ensures Fresh(level, hop)
    ensures forall i :: 0 <= i < |level| ==> level[i].claimId in g && level[i].route == g[level[i].claimId].subject
    ensures forall c :: c in Ids(level) <==> c !in seenClaims && Touched(g, c, frontier)
    ensures forall y :: y in next <==> exists x :: x in frontier && Joined(g, x, y)
  {
    seen, collected, next, level := seenClaims, candidates, {}, [];
    var todo := g.Keys;
    ghost var done: set<ClaimId> := {};
    while todo != {}
      invariant done !! todo && done + todo == g.Keys
      invariant collected == candidates + level
      invariant seen == seenClaims + Ids(level)
      invariant Fresh(level, hop)
      invariant forall i :: 0 <= i < |level| ==> level[i].claimId in g && level[i].route == g[level[i].claimId].subject
      invariant forall c :: c in Ids(level) <==> c !in seenClaims && c in done && Touched(g, c, frontier)
      invariant forall y :: y in next <==> exists c :: c in done && Touched(g, c, frontier) && y in Ends(g[c])
    {
      var c :| c in todo;
      var ids := Ends(g[c]);
      if exists x :: x in ids && x in frontier {
        next := next + ids;
        if c !in seen {
          var one := [Candidate(c, hop, g[c].subject)];
          assert Ids(one) == {c} by { assert one[0].claimId == c; }
          FreshAppend(level, one, hop);
          seen, collected, level := seen + {c}, collected + one, level + one;
        }
      }
      todo, done := todo - {c}, done + {c};
    }
    forall y ensures y in next <==> exists x :: x in frontier && Joined(g, x, y) {
      ClosedNext(g, frontier, next, y);
    }
  }

  lemma ClosedNext(g: Graph, frontier: set<EntityId>, next: set<EntityId>, y: EntityId)
    requires y in next <==> exists c :: c in g.Keys && Touched(g, c, frontier) && y in Ends(g[c])
    ensures y in next <==> exists x :: x in frontier && Joined(g, x, y)
  {
    if y in next {
      var c :| c in g.Keys && Touched(g, c, frontier) && y in Ends(g[c]);
      var x :| x in frontier && x in Ends(g[c]);
      assert Joined(g, x, y);
    }
    if x :| x in frontier && Joined(g, x, y) {
      var c :| c in g && x in Ends(g[c]) && y in Ends(g[c]);
      assert Touched(g, c, frontier);
    }
  }

  ghost predicate ClosedState(g: Graph, from: set<EntityId>, seeds: set<ClaimId>, h: nat, cs: seq<Candidate>,
                              frontier: set<EntityId>) {
    Ranked(g, from, seeds, h, cs) && forall x :: x in frontier <==> Within(g, from, x, h)
  }

  lemma WithinLevel(g: Graph, from: set<EntityId>, seeds: set<ClaimId>, h: nat, before: seq<Candidate>,
                    level: seq<Candidate>, frontier: set<EntityId>)
    requires h > 0 && ClosedState(g, from, seeds, h - 1, before, frontier) && Fresh(level, h)
    requires forall c :: c in Ids(level) <==> c !in seeds + Ids(before) && Touched(g, c, frontier)
    ensures Ranked(g, from, seeds, h, before + level)
    ensures Ids(before + level) == Ids(before) + Ids(level)
  {
    assert forall c :: Touched(g, c, frontier) <==> Near(g, from, c, h);
    LevelExtends(g, from, seeds, h, before, level);
    IdsAppend(before, level);
  }

  lemma ClosedStep(g: Graph, from: set<EntityId>, frontier: set<EntityId>, next: set<EntityId>, h: nat)
    requires h > 0 && forall s :: s in from ==> Covered(g, s)
    requires forall x :: x in frontier <==> Within(g, from, x, h - 1)
    requires forall y :: y in next <==> exists x :: x in frontier && Joined(g, x, y)
    ensures forall y :: y in next <==> Within(g, from, y, h)
  {
    forall y ensures y in next <==> Within(g, from, y, h) {
      ClosedFrontier(g, from, y, h - 1);
    }
  }

  method CanonicalGraphSearch(claims: Graph, seedClaimIds: seq<ClaimId>, hops: int, limit: nat)
    returns (r: seq<Candidate>)
    ensures BestFirst(claims, SeedEntities(claims, seedClaimIds), Seeds(seedClaimIds), Max0(hops), limit, r)
    ensures forall i :: 0 <= i < |r| ==> r[i].claimId in claims && r[i].route == claims[r[i].claimId].subject
  {
    var frontier := SeedGraphEntities(claims, seedClaimIds);
    ghost var from, seeds := SeedEntities(claims, seedClaimIds), Seeds(seedClaimIds);
    forall s | s in from ensures Covered(claims, s) {}
    var seen := Seeds(seedClaimIds);
    r := [];
    for hop := 1 to Max0(hops) + 1
      invariant ClosedState(claims, from, seeds, hop - 1, r, frontier)
      invariant seen == seeds + Ids(r)
      invariant forall i :: 0 <= i < |r| ==> r[i].claimId in claims && r[i].route == claims[r[i].claimId].subject
    {
      var found, next;
      ghost var level;
      seen, found, next, level := ExpandClosed(claims, frontier, hop, seen, r);
      WithinLevel(claims, from, seeds, hop, r, level, frontier);
      ClosedStep(claims, from, frontier, next, hop);
      r, frontier := found, next;
    }
    SliceBestFirst(claims, from, seeds, Max0(hops), Max0(hops), limit, r);
    r := Slice(r, limit);
  }

  // ----- in-process retrieval: a cumulative frontier over the hits found so far

  datatype Hit = Hit(link: Link, score: real, route: Option<EntityId>)

  type Hits = map<ClaimId, Hit>

  /** The better of two hits is kept, the older one of two equals. */
  function MergeHit(scored: Hits, id: ClaimId, hit: Hit): (r: Hits)
    ensures r.Keys == scored.Keys + {id} && forall c :: c in scored && c != id ==> r[c] == scored[c]
    ensures r[id].score >= hit.score && (id in scored ==> r[id].score >= scored[id].score)
    ensures id in scored && hit.score <= scored[id].score ==> r == scored
  {
    if id !in scored || hit.score > scored[id].score then scored[id := hit] else scored
  }

  function HitEntities(scored: Hits): set<EntityId> {
    set c, x | c in scored && x in Ends(scored[c].link) :: x
  }

  function GraphHit(link: Link, hop: nat): Hit
    requires hop > 0
  {
    Hit(link, 0.3 / hop as real, Some(link.subject))
  }

  /** Hits after exploring to hop `h`: the old ones untouched, new ones exactly at their hop. */
  ghost predicate Expanded(claims: Graph, scored: Hits, h: nat, r: Hits, hopOf: map<ClaimId, nat>) {
    && HitsAt(claims, scored, r, hopOf)
    && (forall c :: c in hopOf ==> hopOf[c] <= h && HopIs(claims, HitEntities(scored), c, hopOf[c]))
    && (forall c :: Near(claims, HitEntities(scored), c, h) ==> c in r)
  }

  ghost predicate HitsAt(claims: Graph, scored: Hits, r: Hits, hopOf: map<ClaimId, nat>) {
    && r.Keys == scored.Keys + hopOf.Keys && scored.Keys !! hopOf.Keys
    && (forall c :: c in scored ==> r[c] == scored[c])
    && (forall c :: c in hopOf ==> c in claims && hopOf[c] > 0 && r[c] == GraphHit(claims[c], hopOf[c]))
  }

  ghost predicate LevelSoFar(claims: Graph, frontier: set<EntityId>, done: set<ClaimId>, hop: nat, before: Hits,
                             r: Hits, added: set<ClaimId>)
    requires hop > 0 && done <= claims.Keys
  {
    && r.Keys == before.Keys + added && before.Keys !! added
    && (forall c :: c in before ==> r[c] == before[c])
    && (forall c :: c in added <==> c in done && c !in before && Touched(claims, c, frontier))
    && (forall c :: c in added ==> r[c] == GraphHit(claims[c], hop))
  }

  method ExpandHop(claims: Graph, frontier: set<EntityId>, hop: nat, scored: Hits)
    returns (r: Hits, next: set<EntityId>, ghost added: set<ClaimId>)
    requires hop > 0
    ensures LevelSoFar(claims, frontier, claims.Keys, hop, scored, r, added)
    ensures forall y :: y in next <==> y in frontier || exists x :: x in frontier && Joined(claims, x, y)
  {
    r, added := scored, {};
    var ends: set<EntityId> := {};
    var todo := claims.Keys;
    ghost var done: set<ClaimId> := {};
    while todo != {}
      invariant done !! todo && done + todo == claims.Keys
      invariant LevelSoFar(claims, frontier, done, hop, scored, r, added)
      invariant forall y :: y in ends <==> exists c :: c in done && Touched(claims, c, frontier) && y in Ends(claims[c])
    {
      var c :| c in todo;
      var ids := Ends(claims[c]);
      if exists x :: x in ids && x in frontier {
        ends := ends + ids;
        if c !in r {
          r := MergeHit(r, c, GraphHit(claims[c], hop));
          added := added + {c};
        }
      }
      todo, done := todo - {c}, done + {c};
    }
    next := frontier + ends;
    forall y { ClosedNext(claims, frontier, ends, y); }
  }

  lemma ExpandedComplete(claims: Graph, scored: Hits, h: nat, before: Hits, hopOf: map<ClaimId, nat>,
                         frontier: set<EntityId>, r: Hits, added: set<ClaimId>, c: ClaimId)
    requires h > 0 && Expanded(claims, scored, h - 1, before, hopOf)
    requires forall x :: x in frontier <==> Within(claims, HitEntities(scored), x, h - 1)
    requires LevelSoFar(claims, frontier, claims.Keys, h, before, r, added)
    ensures Near(claims, HitEntities(scored), c, h) ==> c in r
    ensures c in added ==> HopIs(claims, HitEntities(scored), c, h)
  {
    assert Touched(claims, c, frontier) <==> Near(claims, HitEntities(scored), c, h);
  }

  function AddHops(hopOf: map<ClaimId, nat>, added: set<ClaimId>, h: nat): map<ClaimId, nat> {
    map c | c in hopOf.Keys + added :: if c in added then h else hopOf[c]
  }

  lemma HitsAtLevel(claims: Graph, scored: Hits, h: nat, before: Hits, hopOf: map<ClaimId, nat>,
                    frontier: set<EntityId>, r: Hits, added: set<ClaimId>)
    requires h > 0 && HitsAt(claims, scored, before, hopOf)
    requires LevelSoFar(claims, frontier, claims.Keys, h, before, r, added)
    ensures HitsAt(claims, scored, r, AddHops(hopOf, added, h))
  {
    assert AddHops(hopOf, added, h).Keys == hopOf.Keys + added;
  }

  lemma ExpandedLevel(claims: Graph, scored: Hits, h: nat, before: Hits, hopOf: map<ClaimId, nat>,
                      frontier: set<EntityId>, r: Hits, added: set<ClaimId>)
    requires h > 0 && Expanded(claims, scored, h - 1, before, hopOf)
    requires forall x :: x in frontier <==> Within(claims, HitEntities(scored), x, h - 1)
    requires LevelSoFar(claims, frontier, claims.Keys, h, before, r, added)
    ensures Expanded(claims, scored, h, r, AddHops(hopOf, added, h))
  {
    var hops := AddHops(hopOf, added, h);
    HitsAtLevel(claims, scored, h, before, hopOf, frontier, r, added);
    forall c | Near(claims, HitEntities(scored), c, h) ensures c in r {
      ExpandedComplete(claims, scored, h, before, hopOf, frontier, r, added, c);
    }
    forall c | c in hops ensures hops[c] <= h && HopIs(claims, HitEntities(scored), c, hops[c]) {
      ExpandedComplete(claims, scored, h, before, hopOf, frontier, r, added, c);
    }
  }

  lemma CumulativeFrontier(g: Graph, from: set<EntityId>, frontier: set<EntityId>, next: set<EntityId>, k: nat)
    requires forall x :: x in frontier <==> Within(g, from, x, k)
    requires forall y :: y in next <==> y in frontier || exists x :: x in frontier && Joined(g, x, y)
    ensures forall y :: y in next <==> Within(g, from, y, k + 1)
  {}

  method ExpandGraphNeighborhood(claims: Graph, scored: Hits, hops: int)
    returns (r: Hits, ghost hopOf: map<ClaimId, nat>)
    ensures forall c :: c in r <==> c in scored || Near(claims, HitEntities(scored), c, Max0(hops))
    ensures forall c :: c in scored ==> c in r && r[c] == scored[c]
    ensures forall c, h :: c in r && c !in scored && HopIs(claims, HitEntities(scored), c, h) ==>
              r[c].link == claims[c] && r[c].score == 0.3 / h as real && r[c].route == Some(claims[c].subject)
    ensures Expanded(claims, scored, Max0(hops), r, hopOf)
  {
    r, hopOf := scored, map[];
    var frontier := HitEntities(scored);
    for hop := 0 to Max0(hops)
      invariant Expanded(claims, scored, hop, r, hopOf)
      invariant forall x :: x in frontier <==> Within(claims, HitEntities(scored), x, hop)
    {
      var found, next;
      ghost var added;
      found, next, added := ExpandHop(claims, frontier, hop + 1, r);
      ExpandedLevel(claims, scored, hop + 1, r, hopOf, frontier, found, added);
      CumulativeFrontier(claims, HitEntities(scored), frontier, next, hop);
      r, frontier, hopOf := found, next, AddHops(hopOf, added, hop + 1);
    }
    ExpandedHits(claims, scored, Max0(hops), r, hopOf);
  }

  lemma ExpandedHits(claims: Graph, scored: Hits, h: nat, r: Hits, hopOf: map<ClaimId, nat>)
    requires Expanded(claims, scored, h, r, hopOf)
    ensures forall c :: c in r <==> c in scored || Near(claims, HitEntities(scored), c, h)
    ensures forall c, i :: c in r && c !in scored && HopIs(claims, HitEntities(scored), c, i) ==>
              r[c] == GraphHit(claims[c], i)
  {
    forall c | c in hopOf ensures Near(claims, HitEntities(scored), c, h) {
      NearGrows(claims, HitEntities(scored), c, hopOf[c], h);
    }
    forall c, i | c in r && c !in scored && HopIs(claims, HitEntities(scored), c, i)
      ensures r[c] == GraphHit(claims[c], i)
    {
      HopUnique(claims, HitEntities(scored), c, i, hopOf[c]);
    }
  }

  // ----- the searches agree

  lemma Uncut(g: Graph, from: set<EntityId>, seeds: set<ClaimId>, hops: nat, limit: nat, r: seq<Candidate>, c: ClaimId)
    requires BestFirst(g, from, seeds, hops, limit, r) && |r| < limit
    ensures c in Ids(r) <==> Near(g, from, c, hops) && c !in seeds
  {
    if c in Ids(r) {
      var i := IdsAt(r, c);
      NearGrows(g, from, c, r[i].hop, hops);
    }
  }

  // ----- what a result says in terms of the claims

  /** A seed claim of the table shares an entity with the link. */
  ghost predicate MeetsSeed(table: Graph, seedClaimIds: seq<ClaimId>, link: Link) {
    exists s :: s in seedClaimIds && s in table && ShareEntity(table[s], link)
  }

  lemma NamesSeedIff(table: Graph, seedClaimIds: seq<ClaimId>, link: Link)
    ensures MeetsSeed(table, seedClaimIds, link) <==>
            exists x :: x in SeedEntities(table, seedClaimIds) && Names(link, x)
  {
    if MeetsSeed(table, seedClaimIds, link) {
      var s :| s in seedClaimIds && s in table && ShareEntity(table[s], link);
      var x :| Names(table[s], x) && Names(link, x);
      assert x in Ends(table[s]);
    }
    if x :| x in SeedEntities(table, seedClaimIds) && Names(link, x) {
      var s :| s in seedClaimIds && s in table && x in Ends(table[s]);
      assert Names(table[s], x);
    }
  }

  /** Claims in scope, the first sharing an entity with a seed claim of the table, in scope or not, and each with the
      one before. */
  ghost predicate SeedChain(table: Graph, inScope: set<ClaimId>, seedClaimIds: seq<ClaimId>, cs: seq<ClaimId>) {
    && cs != [] && (forall i :: 0 <= i < |cs| ==> cs[i] in table && cs[i] in inScope)
    && MeetsSeed(table, seedClaimIds, table[cs[0]])
    && forall i :: 0 < i < |cs| ==> ShareEntity(table[cs[i - 1]], table[cs[i]])
  }

  lemma SeedChainIff(table: Graph, inScope: set<ClaimId>, seedClaimIds: seq<ClaimId>, cs: seq<ClaimId>)
    ensures SeedChain(table, inScope, seedClaimIds, cs) <==>
            ClaimChain(Scoped(table, inScope), SeedEntities(table, seedClaimIds), cs)
  {
    if cs != [] && cs[0] in table {
      NamesSeedIff(table, seedClaimIds, table[cs[0]]);
    }
  }

  /** A candidate's hop is the length of such a chain that ends in it. */
  lemma CandidateEndsChain(table: Graph, inScope: set<ClaimId>, seedClaimIds: seq<ClaimId>, hops: nat, limit: nat,
                           r: seq<Candidate>, i: nat) returns (chain: seq<ClaimId>)
    requires BestFirst(Scoped(table, inScope), SeedEntities(table, seedClaimIds), Seeds(seedClaimIds), hops, limit, r)
    requires i < |r|
    ensures SeedChain(table, inScope, seedClaimIds, chain) && chain[|chain| - 1] == r[i].claimId
    ensures |chain| == r[i].hop <= hops && r[i].claimId !in seedClaimIds
  {
    var g, from := Scoped(table, inScope), SeedEntities(table, seedClaimIds);
    chain := ShortestChain(g, from, r[i].claimId, r[i].hop);
    SeedChainIff(table, inScope, seedClaimIds, chain);
  }

  /** No shorter chain ends in it; and the end of any chain of at most `hops` claims is a seed, a candidate, or crowded
      out by candidates whose chains are no longer. */
  lemma SearchFollowsChains(table: Graph, inScope: set<ClaimId>, seedClaimIds: seq<ClaimId>, hops: nat, limit: nat,
                            r: seq<Candidate>, cs: seq<ClaimId>)
    requires BestFirst(Scoped(table, inScope), SeedEntities(table, seedClaimIds), Seeds(seedClaimIds), hops, limit, r)
    ensures SeedChain(table, inScope, seedClaimIds, cs) ==>
              forall i :: 0 <= i < |r| && r[i].claimId == cs[|cs| - 1] ==> r[i].hop <= |cs|
    ensures SeedChain(table, inScope, seedClaimIds, cs) && |cs| <= hops && cs[|cs| - 1] !in seedClaimIds ==>
              || cs[|cs| - 1] in Ids(r)
              || (|r| == limit && forall i :: 0 <= i < |r| ==> r[i].hop <= |cs|)
  {
    var g, from := Scoped(table, inScope), SeedEntities(table, seedClaimIds);
    SeedChainIff(table, inScope, seedClaimIds, cs);
    if ClaimChain(g, from, cs) {
      ChainBoundsHops(g, from, Seeds(seedClaimIds), hops, limit, r, cs);
    }
  }

  lemma ShortestChain(g: Graph, from: set<EntityId>, c: ClaimId, h: nat) returns (chain: seq<ClaimId>)
    requires HopIs(g, from, c, h)
    ensures ClaimChain(g, from, chain) && chain[|chain| - 1] == c && |chain| == h
  {
    chain := NearHasChain(g, from, c, h);
    if |chain| < h {
      ChainIsNear(g, from, chain);
      NearGrows(g, from, c, |chain|, h - 1);
    }
  }

  lemma ChainBoundsHops(g: Graph, from: set<EntityId>, seeds: set<ClaimId>, hops: nat, limit: nat, r: seq<Candidate>,
                        cs: seq<ClaimId>)
    requires BestFirst(g, from, seeds, hops, limit, r) && ClaimChain(g, from, cs)
    ensures var c := cs[|cs| - 1];
            && (forall i :: 0 <= i < |r| && r[i].claimId == c ==> r[i].hop <= |cs|)
            && (|cs| <= hops && c !in seeds && c !in Ids(r) ==>
                  |r| == limit && forall i :: 0 <= i < |r| ==> r[i].hop <= |cs|)
  {
    var c := cs[|cs| - 1];
    ChainIsNear(g, from, cs);
    forall i | 0 <= i < |r| && r[i].hop > |cs| ensures Near(g, from, c, r[i].hop - 1) {
      NearGrows(g, from, c, |cs|, r[i].hop - 1);
    }
    if |cs| <= hops {
      NearGrows(g, from, c, |cs|, hops);
    }
  }

  /** Two searches no limit cuts find the same claims at the same hops. */
  lemma SearchesAgree(g: Graph, from: set<EntityId>, seeds: set<ClaimId>, hops: nat,
                      limit: nat, r: seq<Candidate>, limit': nat, r': seq<Candidate>)
    requires BestFirst(g, from, seeds, hops, limit, r) && |r| < limit
    requires BestFirst(g, from, seeds, hops, limit', r') && |r'| < limit'
    ensures Ids(r) == Ids(r') && |r| == |r'|
    ensures forall i, j :: 0 <= i < |r| && 0 <= j < |r'| && r[i].claimId == r'[j].claimId ==> r[i].hop == r'[j].hop
  {
    forall c ensures c in Ids(r) <==> c in Ids(r') {
      Uncut(g, from, seeds, hops, limit, r, c);
      Uncut(g, from, seeds, hops, limit', r', c);
    }
    IdsCount(r);
    IdsCount(r');
    forall i, j | 0 <= i < |r| && 0 <= j < |r'| && r[i].claimId == r'[j].claimId ensures r[i].hop == r'[j].hop {
      HopUnique(g, from, r[i].claimId, r[i].hop, r'[j].hop);
    }
  }

  lemma {:induction false} IdsCount(cs: seq<Candidate>)
    requires forall i, j :: 0 <= i < j < |cs| ==> cs[i].claimId != cs[j].claimId
    ensures |Ids(cs)| == |cs|
  {
    if cs != [] {
      var front, last := cs[..|cs| - 1], cs[|cs| - 1];
      IdsCount(front);
      assert cs == front + [last];
      IdsAppend(front, [last]);
      assert Ids([last]) == {last.claimId} by { assert [last][0].claimId == last.claimId; }
      forall c | c in Ids(front) ensures c != last.claimId {
        var i := IdsAt(front, c);
      }
    }
  }

  /** In-process expansion finds what an uncut search from the same seeds finds. */
  lemma ExpansionAgrees(claims: Graph, scored: Hits, hops: nat, hits: Hits, hopOf: map<ClaimId, nat>,
                        limit: nat, r: seq<Candidate>)
    requires Expanded(claims, scored, hops, hits, hopOf)
    requires BestFirst(claims, HitEntities(scored), scored.Keys, hops, limit, r) && |r| < limit
    ensures hits.Keys == scored.Keys + Ids(r)
    ensures forall i :: 0 <= i < |r| ==> r[i].claimId in hopOf && hopOf[r[i].claimId] == r[i].hop
  {
    var from := HitEntities(scored);
    forall c ensures c in hopOf <==> c in Ids(r) {
      Uncut(claims, from, scored.Keys, hops, limit, r, c);
      if c in hopOf { NearGrows(claims, from, c, hopOf[c], hops); }
    }
    forall i | 0 <= i < |r| ensures r[i].claimId in hopOf && hopOf[r[i].claimId] == r[i].hop {
      assert r[i].claimId in Ids(r);
      HopUnique(claims, from, r[i].claimId, hopOf[r[i].claimId], r[i].hop);
    }
  }

  // ----- searching resolved rows

  /** Every claim the canonical search finds, the projection over canonical ids finds at no greater hop, from the
      same seeds or more. */
  lemma ResolvedSearchFinds(g: Graph, m: RedirectMap, from: set<EntityId>, from': set<EntityId>, seeds: set<ClaimId>,
                            hops: nat, limit: nat, r: seq<Candidate>, limit': nat, r': seq<Candidate>, i: nat)
    returns (j: nat)
    requires BestFirst(g, from, seeds, hops, limit, r) && i < |r|
    requires ResolveAll(from, m) <= from'
    requires BestFirst(ResolveGraph(g, m), from', seeds, hops, limit', r') && |r'| < limit'
    ensures j < |r'| && r'[j].claimId == r[i].claimId && r'[j].hop <= r[i].hop
  {
    var c, g' := r[i].claimId, ResolveGraph(g, m);
    ResolvingNeverLengthens(g, m, from, c, r[i].hop);
    NearMoreSeeds(g', ResolveAll(from, m), from', c, r[i].hop);
    NearGrows(g', from', c, r[i].hop, hops);
    Uncut(g', from', seeds, hops, limit', r', c);
    j := IdsAt(r', c);
    var h := NearHasHop(g', from', c, r[i].hop);
    HopUnique(g', from', c, h, r'[j].hop);
  }

  lemma NearMoreSeeds(g: Graph, from: set<EntityId>, more: set<EntityId>, c: ClaimId, h: nat)
    requires from <= more && Near(g, from, c, h)
    ensures Near(g, more, c, h)
  {
    var k := h - 1;
    var x :| x in Ends(g[c]) && Within(g, from, x, k);
    MoreSeedsReachMore(g, from, more, x, k);
  }

  function ClaimGraph(claims: RP.Claims, ids: set<ClaimId>): Graph {
    map c | c in ids && c in claims && claims[c].status != Retracted ::
      Link(claims[c].subject, if claims[c].obj.EntityObject? then Some(claims[c].obj.entityId) else None)
  }

  function RowGraph(rows: RP.Rows): Graph {
    map c | c in rows :: Link(rows[c].subjectId, rows[c].objectEntityId)
  }

  /** A caught-up projection is the graph of the active claims over canonical ids. */
  lemma RowsAreResolvedClaims(claims: RP.Claims, log: Log, embed: RP.Embedder)
    requires DistinctIds(log)
    ensures RowGraph(RP.FullRows(claims, log, embed)) ==
            ResolveGraph(ClaimGraph(claims, RP.ClaimIds(log)), EntityIdentity.CanonicalRedirects(log))
  {
    EntityIdentity.ReadersShareRedirects(log);
  }

  /** The rows a search may expand: of its tenant, of its namespace if it names one, valid at its instant if it gives
      one. */
  function Expandable(rows: RP.Rows, tenant: nat, namespace: Option<nat>, validAt: Option<Timestamp>): set<ClaimId> {
    set c | c in rows && rows[c].scope.tenant == tenant &&
            (namespace.None? || rows[c].scope.namespace == namespace.value) && ValidRow(rows[c], validAt)
  }

  predicate ValidRow(row: RP.Row, validAt: Option<Timestamp>) {
    validAt.None? || (row.validFrom <= validAt.value && (row.validTo.None? || validAt.value < row.validTo.value))
  }

  /** A row of the tenant, of the namespace asked for and valid at the instant asked for, if any. */
  ghost predicate Asked(row: RP.Row, tenant: nat, namespace: Option<nat>, validAt: Option<Timestamp>) {
    && row.scope.tenant == tenant && (namespace.Some? ==> row.scope == Scope(tenant, namespace.value))
    && (validAt.Some? ==>
          row.validFrom <= validAt.value && (row.validTo.Some? ==> validAt.value < row.validTo.value))
  }

  /** The links of exactly the rows asked for. */
  ghost predicate LinksAsked(g: Graph, rows: RP.Rows, tenant: nat, namespace: Option<nat>,
                             validAt: Option<Timestamp>) {
    && (forall c :: c in g <==> c in rows && Asked(rows[c], tenant, namespace, validAt))
    && (forall c :: c in g ==> g[c] == Link(rows[c].subjectId, rows[c].objectEntityId))
  }

  lemma ExpandableIsAsked(rows: RP.Rows, tenant: nat, namespace: Option<nat>, validAt: Option<Timestamp>, g: Graph)
    requires LinksAsked(g, rows, tenant, namespace, validAt)
    ensures g == Scoped(RowGraph(rows), Expandable(rows, tenant, namespace, validAt))
  {}

  /** The projection's graph search over its rows. What it returns was asked for, and the claims it is measured by are
      those of all the rows asked for and no others; only seeds are read from the whole table. */
  method SearchProjection(rows: RP.Rows, tenant: nat, namespace: Option<nat>, validAt: Option<Timestamp>,
                          seedClaimIds: seq<ClaimId>, hops: int, limit: nat)
    returns (r: seq<Candidate>)
    ensures forall i :: 0 <= i < |r| ==> r[i].claimId in rows && Asked(rows[r[i].claimId], tenant, namespace, validAt)
    ensures forall g :: LinksAsked(g, rows, tenant, namespace, validAt) ==>
              BestFirst(g, SeedEntities(RowGraph(rows), seedClaimIds), Seeds(seedClaimIds), Max0(hops), limit, r)
  {
    r := SearchGraph(RowGraph(rows), Expandable(rows, tenant, namespace, validAt), seedClaimIds, hops, limit);
    forall g | LinksAsked(g, rows, tenant, namespace, validAt)
      ensures g == Scoped(RowGraph(rows), Expandable(rows, tenant, namespace, validAt))
    {
      ExpandableIsAsked(rows, tenant, namespace, validAt, g);
    }
  }

  lemma ResolvedEnd(link: Link, m: RedirectMap, y: EntityId) returns (x: EntityId)
    requires y in Ends(ResolveLink(link, m))
    ensures x in Ends(link) && y == Chase(m, x)
  {
    if y == Chase(m, link.subject) {
      x := link.subject;
    } else {
      x := link.obj.value;
    }
  }

  lemma SeedsResolve(g: Graph, m: RedirectMap, seedClaimIds: seq<ClaimId>)
    ensures SeedEntities(ResolveGraph(g, m), seedClaimIds) == ResolveAll(SeedEntities(g, seedClaimIds), m)
  {
    var a, b := SeedEntities(ResolveGraph(g, m), seedClaimIds), ResolveAll(SeedEntities(g, seedClaimIds), m);
    forall y | y in a ensures y in b {
      var c :| c in seedClaimIds && c in g && y in Ends(ResolveLink(g[c], m));
      var x := ResolvedEnd(g[c], m, y);
      assert x in SeedEntities(g, seedClaimIds);
    }
    forall y | y in b ensures y in a {
      var x :| x in SeedEntities(g, seedClaimIds) && y == Chase(m, x);
      var c :| c in seedClaimIds && c in g && x in Ends(g[c]);
      assert y in Ends(ResolveGraph(g, m)[c]);
    }
  }

  /** Resolving and scoping commute; the projection's seeds, read from the whole table, include those of the
      canonical search. */
  lemma ScopedResolves(g: Graph, m: RedirectMap, inScope: set<ClaimId>, seedClaimIds: seq<ClaimId>)
    ensures Scoped(ResolveGraph(g, m), inScope) == ResolveGraph(Scoped(g, inScope), m)
    ensures ResolveAll(SeedEntities(Scoped(g, inScope), seedClaimIds), m) <=
            SeedEntities(ResolveGraph(g, m), seedClaimIds)
  {
    SeedsResolve(g, m, seedClaimIds);
    var few, all := SeedEntities(Scoped(g, inScope), seedClaimIds), SeedEntities(g, seedClaimIds);
    forall x | x in few ensures x in all {
      var c :| c in seedClaimIds && c in Scoped(g, inScope) && x in Ends(Scoped(g, inScope)[c]);
      assert c in g && x in Ends(g[c]);
    }
  }

  /** End to end: over the rows of a caught-up projection an uncut search finds, at the same or a smaller hop,
      every claim the canonical search finds over the canonical claims, for the same claims in scope and the same
      seed claims, in scope or not. */
  lemma CaughtUpSearchFinds(claims: RP.Claims, log: Log, embed: RP.Embedder, inScope: set<ClaimId>,
                            seedClaimIds: seq<ClaimId>, hops: nat, limit: nat, r: seq<Candidate>,
                            limit': nat, r': seq<Candidate>, i: nat) returns (j: nat)
    requires DistinctIds(log)
    requires var g := Scoped(ClaimGraph(claims, RP.ClaimIds(log)), inScope);
             BestFirst(g, SeedEntities(g, seedClaimIds), Seeds(seedClaimIds), hops, limit, r) && i < |r|
    requires var table := RowGraph(RP.FullRows(claims, log, embed));
             && BestFirst(Scoped(table, inScope), SeedEntities(table, seedClaimIds), Seeds(seedClaimIds), hops, limit',
                          r')
             && |r'| < limit'
    ensures j < |r'| && r'[j].claimId == r[i].claimId && r'[j].hop <= r[i].hop
  {
    var g, m := ClaimGraph(claims, RP.ClaimIds(log)), EntityIdentity.CanonicalRedirects(log);
    RowsAreResolvedClaims(claims, log, embed);
    ScopedResolves(g, m, inScope, seedClaimIds);
    j := ResolvedSearchFinds(Scoped(g, inScope), m, SeedEntities(Scoped(g, inScope), seedClaimIds),
                             SeedEntities(ResolveGraph(g, m), seedClaimIds), Seeds(seedClaimIds), hops, limit, r,
                             limit', r', i);
  }
}
