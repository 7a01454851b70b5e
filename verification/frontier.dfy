/**
 Advancing the breadth-first front of the bubble detector.

 A front is kept sorted by handle integer and free of duplicates, which is
 the same as strictly increasing. The next front keeps only the neighbours
 whose integer is strictly larger than the integer of the handle they were
 reached from, so the traversal never goes "backward".
 */
module Frontier {
  import opened HandleGraph

  predicate StrictlyIncreasing(s: seq<Handle>)
  {
    forall i, j :: 0 <= i < j < |s| ==> s[i] < s[j]
  }

  /** The elements of `xs` strictly above `h`, in their original order. */
  function KeepAbove(xs: seq<Handle>, h: Handle): seq<Handle>
  {
    if xs == [] then []
    else (if xs[0] > h then [xs[0]] else []) + KeepAbove(xs[1..], h)
  }

  /** Filtering keeps every element above `h` with its multiplicity, and nothing else. */
  lemma {:induction false} KeepAboveSpec(xs: seq<Handle>, h: Handle)
    ensures forall x :: multiset(KeepAbove(xs, h))[x] == if x > h then multiset(xs)[x] else 0
    ensures forall x :: x in KeepAbove(xs, h) <==> x in xs && x > h
  {
    if xs != [] {
      KeepAboveSpec(xs[1..], h);
      assert xs == [xs[0]] + xs[1..];
    }
  }

  /** The right-direction neighbours of `h` that lie strictly above `h`. */
  function FindNeighborsToAdd(g: Graph, h: Handle): seq<Handle>
  {
    KeepAbove(RightNeighbors(g, h), h)
  }

  /** The kept neighbours are exactly the right neighbours above `h`, each as often
      as it occurs in the edge list. */
  lemma FindNeighborsToAddSpec(g: Graph, h: Handle)
    ensures forall x :: x in FindNeighborsToAdd(g, h) <==> x in RightNeighbors(g, h) && x > h
    ensures forall x ::
      multiset(FindNeighborsToAdd(g, h))[x] == if x > h then multiset(RightNeighbors(g, h))[x] else 0
  {
    KeepAboveSpec(RightNeighbors(g, h), h);
  }

  /** The concatenation of the kept neighbours of every member of the front. */
  function Gather(g: Graph, front: seq<Handle>): seq<Handle>
  {
    if front == [] then []
    else FindNeighborsToAdd(g, front[0]) + Gather(g, front[1..])
  }

  lemma {:induction false} GatherSpec(g: Graph, front: seq<Handle>)
    ensures forall y :: y in Gather(g, front) <==> exists x :: x in front && y in FindNeighborsToAdd(g, x)
  {
    if front != [] {
      GatherSpec(g, front[1..]);
      assert forall x :: x in front <==> x == front[0] || x in front[1..];
    }
  }

  /** Inserts `x` into a sorted, duplicate-free sequence, unless it is already there. */
  function Insert(s: seq<Handle>, x: Handle): seq<Handle>
  {
    if s == [] then [x]
    else if x < s[0] then [x] + s
    else if x == s[0] then s
    else [s[0]] + Insert(s[1..], x)
  }

  lemma {:induction false} InsertSpec(s: seq<Handle>, x: Handle)
    requires StrictlyIncreasing(s)
    ensures StrictlyIncreasing(Insert(s, x))
    ensures forall y :: y in Insert(s, x) <==> y in s || y == x
  {
    if s != [] && x > s[0] {
      InsertSpec(s[1..], x);
      var rest := Insert(s[1..], x);
      assert forall y :: y in rest ==> s[0] < y;
    }
  }

  /** Sorts `xs` and drops repeated elements. */
  function SortDedup(xs: seq<Handle>): seq<Handle>
  {
    if xs == [] then [] else Insert(SortDedup(xs[1..]), xs[0])
  }

  lemma {:induction false} SortDedupSpec(xs: seq<Handle>)
    ensures StrictlyIncreasing(SortDedup(xs))
    ensures forall y :: y in SortDedup(xs) <==> y in xs
  {
    if xs != [] {
      SortDedupSpec(xs[1..]);
      InsertSpec(SortDedup(xs[1..]), xs[0]);
      assert forall y :: y in xs <==> y == xs[0] || y in xs[1..];
    }
  }

  /** The next front: the sorted, duplicate-free union of the kept neighbours of
      every member of `front`. */
  function AdvanceBfs(g: Graph, front: seq<Handle>): seq<Handle>
  {
    SortDedup(Gather(g, front))
  }

  /** The advanced front is sorted and duplicate-free, and holds exactly the right
      neighbours lying above the member of `front` they were reached from; an empty
      front advances to an empty one. */
  lemma AdvanceBfsSpec(g: Graph, front: seq<Handle>)
    ensures StrictlyIncreasing(AdvanceBfs(g, front))
    ensures forall y :: y in AdvanceBfs(g, front) <==> exists x :: x in front && y in FindNeighborsToAdd(g, x)
    ensures front == [] ==> AdvanceBfs(g, front) == []
  {
    GatherSpec(g, front);
    SortDedupSpec(Gather(g, front));
  }

  /** A sorted, duplicate-free sequence is determined by its elements. */
  lemma {:induction false} StrictlyIncreasingUnique(a: seq<Handle>, b: seq<Handle>)
    requires StrictlyIncreasing(a) && StrictlyIncreasing(b)
    requires forall y :: y in a <==> y in b
    ensures a == b
  {
    assert a != [] ==> a[0] in b;
    assert b != [] ==> b[0] in a;
    if a != [] {
      assert a[0] == b[0];
      forall y
        ensures y in a[1..] <==> y in b[1..]
      {
        assert y in a[1..] <==> y in a && y != a[0];
        assert y in b[1..] <==> y in b && y != b[0];
      }
      StrictlyIncreasingUnique(a[1..], b[1..]);
      assert a == [a[0]] + a[1..];
      assert b == [b[0]] + b[1..];
    }
  }

  /** Any sorted, duplicate-free sequence holding exactly the kept neighbours of the
      front's members is the advanced front: the result depends on the front's
      elements only. */
  lemma AdvanceCharacterized(g: Graph, front: seq<Handle>, s: seq<Handle>)
    requires StrictlyIncreasing(s)
    requires forall y :: y in s <==> exists x :: x in front && y in FindNeighborsToAdd(g, x)
    ensures AdvanceBfs(g, front) == s
  {
    AdvanceBfsSpec(g, front);
    StrictlyIncreasingUnique(AdvanceBfs(g, front), s);
  }

  /** Two fronts with the same members advance to the same front. */
  lemma AdvanceIgnoresOrder(g: Graph, f1: seq<Handle>, f2: seq<Handle>)
    requires forall x :: x in f1 <==> x in f2
    ensures AdvanceBfs(g, f1) == AdvanceBfs(g, f2)
  {
    AdvanceBfsSpec(g, f1);
    AdvanceCharacterized(g, f2, AdvanceBfs(g, f1));
  }

  /** Two graphs whose edge lists hold the same neighbours, in whatever order and
      with whatever repetitions, advance every front to the same front. */
  lemma AdvanceIgnoresEdgeOrder(g1: Graph, g2: Graph, front: seq<Handle>)
    requires forall h, x :: x in RightNeighbors(g1, h) <==> x in RightNeighbors(g2, h)
    ensures AdvanceBfs(g1, front) == AdvanceBfs(g2, front)
  {
    AdvanceBfsSpec(g1, front);
    forall x | x in front
      ensures forall y :: y in FindNeighborsToAdd(g1, x) <==> y in FindNeighborsToAdd(g2, x)
    {
      FindNeighborsToAddSpec(g1, x);
      FindNeighborsToAddSpec(g2, x);
    }
    AdvanceCharacterized(g2, front, AdvanceBfs(g1, front));
  }

  /** Every member of the advanced front is an edge target lying strictly above
      the least member of a non-empty, sorted front. */
  lemma AdvanceAboveMin(g: Graph, front: seq<Handle>, y: Handle)
    requires StrictlyIncreasing(front) && front != []
    requires y in AdvanceBfs(g, front)
    ensures y in Targets(g)
    ensures y > front[0]
  {
    AdvanceBfsSpec(g, front);
    var x :| x in front && y in FindNeighborsToAdd(g, x);
    FindNeighborsToAddSpec(g, x);
    NeighborIsTarget(g, x, y);
    var i :| 0 <= i < |front| && front[i] == x;
    assert i == 0 || front[0] < front[i];
  }
}
