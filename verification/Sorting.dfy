/** The stable sort of the source's runtime (`Array.prototype.sort`), as insertion from the right,
    with the facts every caller needs: it permutes, it orders, and when the order is antisymmetric on
    the elements its result is the only ordered permutation. */
module Sorting {

  function Insert<T>(x: T, s: seq<T>, leq: (T, T) -> bool): seq<T> {
    if s == [] then [x]
    else if leq(s[|s| - 1], x) then s + [x]
    else Insert(x, s[..|s| - 1], leq) + [s[|s| - 1]]
  }

  function SortBy<T>(s: seq<T>, leq: (T, T) -> bool): seq<T> {
    if s == [] then [] else Insert(s[|s| - 1], SortBy(s[..|s| - 1], leq), leq)
  }

  ghost predicate Ordered<T>(s: seq<T>, leq: (T, T) -> bool) {
    forall i, j :: 0 <= i < j < |s| ==> leq(s[i], s[j])
  }

  ghost predicate TotalPreorder<T(!new)>(leq: (T, T) -> bool) {
    && (forall a, b :: leq(a, b) || leq(b, a))
    && (forall a, b, c :: leq(a, b) && leq(b, c) ==> leq(a, c))
  }

  /** No two different elements of `s` are equivalent under the order. */
  ghost predicate Antisymmetric<T>(s: seq<T>, leq: (T, T) -> bool) {
    forall a, b :: a in s && b in s && leq(a, b) && leq(b, a) ==> a == b
  }

  lemma {:induction false} InsertPermutes<T>(x: T, s: seq<T>, leq: (T, T) -> bool)
    ensures multiset(Insert(x, s, leq)) == multiset(s) + multiset{x}
  {
    if s != [] {
      var n := |s| - 1;
      assert s == s[..n] + [s[n]];
      if !leq(s[n], x) {
        InsertPermutes(x, s[..n], leq);
      }
    }
  }

  lemma {:induction false} InsertOrders<T(!new)>(x: T, s: seq<T>, leq: (T, T) -> bool)
    requires TotalPreorder(leq) && Ordered(s, leq)
    ensures Ordered(Insert(x, s, leq), leq)
  {
    if s != [] {
      var n := |s| - 1;
      if leq(s[n], x) {
        forall i | 0 <= i < n ensures leq(s[i], x) {
          assert leq(s[i], s[n]);
        }
      } else {
        var front := Insert(x, s[..n], leq);
        InsertOrders(x, s[..n], leq);
        InsertPermutes(x, s[..n], leq);
        forall i | 0 <= i < |front| ensures leq(front[i], s[n]) {
          assert front[i] in multiset(front);
          assert front[i] == x || front[i] in s[..n];
        }
      }
    }
  }

  lemma SplitLast<T>(s: seq<T>)
    requires s != []
    ensures multiset(s) == multiset(s[..|s| - 1]) + multiset{s[|s| - 1]}
  {
    assert s == s[..|s| - 1] + [s[|s| - 1]];
  }

  lemma SplitFirst<T>(s: seq<T>)
    requires s != []
    ensures multiset(s[1..]) == multiset(s) - multiset{s[0]}
  {
    assert s == [s[0]] + s[1..];
  }

  lemma {:induction false} SortPermutes<T>(s: seq<T>, leq: (T, T) -> bool)
    ensures multiset(SortBy(s, leq)) == multiset(s)
  {
    if s != [] {
      var front, last := s[..|s| - 1], s[|s| - 1];
      SortPermutes(front, leq);
      InsertPermutes(last, SortBy(front, leq), leq);
      SplitLast(s);
    }
  }

  lemma {:induction false} SortOrders<T(!new)>(s: seq<T>, leq: (T, T) -> bool)
    requires TotalPreorder(leq)
    ensures Ordered(SortBy(s, leq), leq)
  {
    if s != [] {
      var n := |s| - 1;
      SortOrders(s[..n], leq);
      InsertOrders(s[n], SortBy(s[..n], leq), leq);
    }
  }

  /** Membership survives sorting. */
  lemma SortMembers<T>(s: seq<T>, leq: (T, T) -> bool)
    ensures |SortBy(s, leq)| == |s|
    ensures forall x :: x in SortBy(s, leq) <==> x in s
  {
    SortPermutes(s, leq);
    assert |multiset(SortBy(s, leq))| == |multiset(s)|;
    forall x ensures x in SortBy(s, leq) <==> x in s {
      assert x in SortBy(s, leq) <==> x in multiset(SortBy(s, leq));
      assert x in s <==> x in multiset(s);
    }
  }

  /** An element counted once differs from every later element. */
  lemma CountedOnceDiffers<T>(s: seq<T>, i: nat, j: nat)
    requires i < j < |s| && multiset(s)[s[i]] <= 1
    ensures s[i] != s[j]
  {
    assert s == s[..i] + [s[i]] + s[i + 1..];
    assert s[j] == s[i + 1..][j - i - 1];
    assert s[j] in s[i + 1..];
  }

  lemma OrderedHeads<T>(a: seq<T>, b: seq<T>, leq: (T, T) -> bool)
    requires a != [] && b != []
    requires Ordered(a, leq) && Ordered(b, leq) && multiset(a) == multiset(b) && Antisymmetric(a, leq)
    ensures a[0] == b[0]
  {
    assert a[0] in multiset(b) && b[0] in multiset(a);
    var i :| 0 <= i < |b| && b[i] == a[0];
    var j :| 0 <= j < |a| && a[j] == b[0];
    if i != 0 && j != 0 {
      assert leq(b[0], b[i]) && leq(a[0], a[j]);
      assert a[0] in a && a[j] in a;
    }
  }

  lemma TailFacts<T>(a: seq<T>, leq: (T, T) -> bool)
    requires a != [] && Ordered(a, leq) && Antisymmetric(a, leq)
    ensures Ordered(a[1..], leq) && Antisymmetric(a[1..], leq)
  {
    forall x | x in a[1..] ensures x in a {}
  }

  lemma SameLength<T>(a: seq<T>, b: seq<T>)
    requires multiset(a) == multiset(b)
    ensures |a| == |b|
  {
    assert |multiset(a)| == |multiset(b)|;
  }

  /** Two ordered permutations of one collection are the same sequence. */
  lemma {:induction false} OrderedUnique<T>(a: seq<T>, b: seq<T>, leq: (T, T) -> bool)
    requires Ordered(a, leq) && Ordered(b, leq) && multiset(a) == multiset(b) && Antisymmetric(a, leq)
    ensures a == b
    decreases |a|
  {
    SameLength(a, b);
    if a != [] {
      OrderedHeads(a, b, leq);
      SplitFirst(a);
      SplitFirst(b);
      TailFacts(a, leq);
      OrderedTail(b, leq);
      OrderedUnique(a[1..], b[1..], leq);
      assert a == [a[0]] + a[1..] && b == [b[0]] + b[1..];
    }
  }

  lemma OrderedTail<T>(b: seq<T>, leq: (T, T) -> bool)
    requires b != [] && Ordered(b, leq)
    ensures Ordered(b[1..], leq)
  {}

  /** Sorting forgets the order its input came in. */
  lemma SortForgetsOrder<T(!new)>(a: seq<T>, b: seq<T>, leq: (T, T) -> bool)
    requires TotalPreorder(leq) && multiset(a) == multiset(b) && Antisymmetric(a, leq)
    ensures SortBy(a, leq) == SortBy(b, leq)
  {
    SortPermutes(a, leq);
    SortPermutes(b, leq);
    SortOrders(a, leq);
    SortOrders(b, leq);
    SortMembers(a, leq);
    OrderedUnique(SortBy(a, leq), SortBy(b, leq), leq);
  }

  function Filter<T(!new)>(s: seq<T>, keep: T -> bool): (r: seq<T>)
    ensures forall x :: x in r <==> x in s && keep(x)
  {
    if s == [] then []
    else
      var front := Filter(s[..|s| - 1], keep);
      if keep(s[|s| - 1]) then front + [s[|s| - 1]] else front
  }

  lemma {:induction false} FilterAppend<T(!new)>(s: seq<T>, t: seq<T>, keep: T -> bool)
    ensures Filter(s + t, keep) == Filter(s, keep) + Filter(t, keep)
  {
    if t == [] {
      assert s + t == s;
    } else {
      var n := |t| - 1;
      assert (s + t)[..|s + t| - 1] == s + t[..n];
      FilterAppend(s, t[..n], keep);
    }
  }

  lemma {:induction false} FilterCounts<T(!new)>(s: seq<T>, keep: T -> bool, x: T)
    ensures multiset(Filter(s, keep))[x] == if keep(x) then multiset(s)[x] else 0
  {
    if s != [] {
      var n := |s| - 1;
      FilterCounts(s[..n], keep, x);
      assert s == s[..n] + [s[n]];
    }
  }

  lemma {:induction false} FilterOrdered<T(!new)>(s: seq<T>, keep: T -> bool, leq: (T, T) -> bool)
    requires Ordered(s, leq)
    ensures Ordered(Filter(s, keep), leq)
  {
    if s != [] {
      var n := |s| - 1;
      FilterOrdered(s[..n], keep, leq);
      forall x | x in Filter(s[..n], keep) ensures leq(x, s[n]) {
        var i :| 0 <= i < n && s[i] == x;
      }
    }
  }

  lemma {:induction false} FilterAgree<T(!new)>(s: seq<T>, keep: T -> bool, other: T -> bool)
    requires forall x :: x in s ==> keep(x) == other(x)
    ensures Filter(s, keep) == Filter(s, other)
  {
    if s != [] {
      var front := s[..|s| - 1];
      assert forall x :: x in front ==> x in s;
      assert s[|s| - 1] in s;
      FilterAgree(front, keep, other);
    }
  }

  lemma {:induction false} FilterNone<T(!new)>(s: seq<T>, keep: T -> bool)
    requires forall x :: x in s ==> !keep(x)
    ensures Filter(s, keep) == []
  {
    if s != [] {
      assert s[|s| - 1] in s && forall x :: x in s[..|s| - 1] ==> x in s;
      FilterNone(s[..|s| - 1], keep);
    }
  }

  /** Two filters in a row keep what satisfies both. */
  lemma {:induction false} FilterNested<T(!new)>(s: seq<T>, keep: T -> bool, also: T -> bool, both: T -> bool)
    requires forall x :: x in s ==> (both(x) <==> keep(x) && also(x))
    ensures Filter(Filter(s, keep), also) == Filter(s, both)
  {
    if s != [] {
      var front, last := s[..|s| - 1], s[|s| - 1];
      assert forall x :: x in front ==> x in s;
      assert last in s;
      FilterNested(front, keep, also, both);
      var kept := Filter(front, keep);
      assert (kept + [last])[..|kept|] == kept;
    }
  }

  /** Filtering after sorting and sorting after filtering agree. */
  lemma FilterSortCommute<T(!new)>(s: seq<T>, keep: T -> bool, leq: (T, T) -> bool)
    requires TotalPreorder(leq) && Antisymmetric(s, leq)
    ensures Filter(SortBy(s, leq), keep) == SortBy(Filter(s, keep), leq)
  {
    var a, b := Filter(SortBy(s, leq), keep), SortBy(Filter(s, keep), leq);
    SortPermutes(s, leq);
    SortPermutes(Filter(s, keep), leq);
    SortOrders(s, leq);
    SortOrders(Filter(s, keep), leq);
    FilterOrdered(SortBy(s, leq), keep, leq);
    forall x ensures multiset(a)[x] == multiset(b)[x] {
      FilterCounts(SortBy(s, leq), keep, x);
      FilterCounts(s, keep, x);
    }
    SortMembers(s, leq);
    OrderedUnique(a, b, leq);
  }

  /** The stable sort ends with the last of the greatest elements. */
  lemma SortLast<T>(s: seq<T>, x: T, leq: (T, T) -> bool)
    ensures |SortBy(s, leq)| == |s|
    ensures var r := SortBy(s + [x], leq);
            |r| == |s| + 1 &&
            r[|s|] == if s == [] || leq(SortBy(s, leq)[|s| - 1], x) then x else SortBy(s, leq)[|s| - 1]
  {
    SortMembers(s, leq);
    SortMembers(s + [x], leq);
    assert (s + [x])[..|s|] == s;
  }
}
