/**
 The breadth-first fronts and their widths, as the bubble detector builds them.

 The traversal starts from the least handle. The front after the root is
 recorded whether or not it is empty; every later front is recorded only when
 it is non-empty, and the traversal stops at the first empty one.
 */
module Widths {
  import opened HandleGraph
  import opened Frontier

  /** The edge targets strictly above `lo`. */
  ghost function Ahead(g: Graph, lo: Handle): set<Handle>
  {
    set t | t in Targets(g) && t > lo
  }

  /** Termination measure of the traversal: the number of edge targets still above
      the front's least member (0 for an empty front). */
  ghost function Progress(g: Graph, front: seq<Handle>): nat
  {
    if front == [] then 0 else |Ahead(g, front[0])| + 1
  }

  /** Advancing a sorted, non-empty front strictly lowers the measure: the least
      member of a non-empty next front is an edge target above the old least member. */
  lemma AdvanceMakesProgress(g: Graph, front: seq<Handle>)
    requires StrictlyIncreasing(front) && front != []
    ensures Progress(g, AdvanceBfs(g, front)) < Progress(g, front)
  {
    var next := AdvanceBfs(g, front);
    if next != [] {
      AdvanceAboveMin(g, front, next[0]);
      forall t | t in Ahead(g, next[0])
        ensures t in Ahead(g, front[0])
      {
      }
      var big, small := Ahead(g, front[0]), Ahead(g, next[0]);
      assert big == small + (big - small);
      assert next[0] in big - small;
      assert |big - small| >= 1;
    }
  }

  /** The non-empty fronts that follow `front`, each the advance of the one before,
      up to (not including) the first empty one. */
  function FrontsAfter(g: Graph, front: seq<Handle>): seq<seq<Handle>>
    requires StrictlyIncreasing(front)
    decreases Progress(g, front)
  {
    var next := AdvanceBfs(g, front);
    if next == [] then []
    else
      AdvanceBfsSpec(g, front);
      AdvanceMakesProgress(g, front);
      [next] + FrontsAfter(g, next)
  }

  /** One unfolding of `FrontsAfter`: an empty advance ends the fronts, a non-empty
      one is recorded before the fronts that follow it. */
  lemma FrontsAfterUnfold(g: Graph, front: seq<Handle>)
    requires StrictlyIncreasing(front)
    ensures AdvanceBfs(g, front) == [] ==> FrontsAfter(g, front) == []
    ensures StrictlyIncreasing(AdvanceBfs(g, front))
    ensures AdvanceBfs(g, front) != [] ==>
      FrontsAfter(g, front) == [AdvanceBfs(g, front)] + FrontsAfter(g, AdvanceBfs(g, front))
  {
    AdvanceBfsSpec(g, front);
  }

  /** A front whose advance is empty has no fronts after it. */
  lemma FrontsAfterEnd(g: Graph, front: seq<Handle>)
    requires StrictlyIncreasing(front) && AdvanceBfs(g, front) == []
    ensures FrontsAfter(g, front) == []
  {
    FrontsAfterUnfold(g, front);
  }

  /** A front whose advance `next` is non-empty is followed by `next` and then by
      the fronts after `next`. */
  lemma FrontsAfterCons(g: Graph, front: seq<Handle>, next: seq<Handle>, rest: seq<seq<Handle>>)
    requires StrictlyIncreasing(front) && StrictlyIncreasing(next)
    requires AdvanceBfs(g, front) == next && next != []
    requires FrontsAfter(g, next) == rest
    ensures FrontsAfter(g, front) == [next] + rest
  {
    FrontsAfterUnfold(g, front);
  }

  /** The `fronts` vector of the detector: the root, its advance (even if empty),
      and then every non-empty front that follows. Empty for a graph without handles. */
  function BfsFronts(g: Graph): seq<seq<Handle>>
  {
    if g.handles == [] then []
    else
      var first := AdvanceBfs(g, [Root(g)]);
      AdvanceBfsSpec(g, [Root(g)]);
      [[Root(g)], first] + FrontsAfter(g, first)
  }

  /** The sizes of a sequence of fronts. */
  function Lengths(fronts: seq<seq<Handle>>): seq<nat>
  {
    if fronts == [] then []
    else Lengths(fronts[..|fronts| - 1]) + [|fronts[|fronts| - 1]|]
  }

  /** Recording one more front records its size after the earlier ones. */
  lemma LengthsAppend(fronts: seq<seq<Handle>>, front: seq<Handle>)
    ensures Lengths(fronts + [front]) == Lengths(fronts) + [|front|]
  {
    assert (fronts + [front])[..|fronts|] == fronts;
  }

  /** Entry i of the sizes is the size of front i. */
  lemma {:induction false} LengthsSpec(fronts: seq<seq<Handle>>)
    ensures |Lengths(fronts)| == |fronts|
    ensures forall i :: 0 <= i < |fronts| ==> Lengths(fronts)[i] == |fronts[i]|
  {
    if fronts != [] {
      var init := fronts[..|fronts| - 1];
      LengthsSpec(init);
      assert forall i :: 0 <= i < |init| ==> fronts[i] == init[i];
    }
  }

  /** The `bfs_tree_widths` vector of the detector. */
  function BfsWidths(g: Graph): seq<nat>
  {
    Lengths(BfsFronts(g))
  }

  /** Each front in `c` is the advance of the one before it. */
  ghost predicate Chained(g: Graph, c: seq<seq<Handle>>)
  {
    forall i {:trigger AdvanceBfs(g, c[i])} :: 0 <= i < |c| - 1 ==> c[i + 1] == AdvanceBfs(g, c[i])
  }

  /** A front followed by a chain that starts with its advance is again a chain,
      with the same last front. */
  lemma ChainedCons(g: Graph, front: seq<Handle>, tail: seq<seq<Handle>>)
    requires Chained(g, tail) && tail != [] && tail[0] == AdvanceBfs(g, front)
    ensures Chained(g, [front] + tail)
    ensures ([front] + tail)[|tail|] == tail[|tail| - 1]
  {
    var c := [front] + tail;
    forall i | 0 <= i < |c| - 1
      ensures c[i + 1] == AdvanceBfs(g, c[i])
    {
      if i > 0 {
        assert c[i + 1] == tail[i] && c[i] == tail[i - 1];
      }
    }
  }

  /** The fronts after `front` form a chain of advances that ends in an empty advance. */
  lemma {:induction false} FrontsAfterChain(g: Graph, front: seq<Handle>)
    requires StrictlyIncreasing(front)
    ensures Chained(g, [front] + FrontsAfter(g, front))
    ensures var c := [front] + FrontsAfter(g, front); AdvanceBfs(g, c[|c| - 1]) == []
    decreases Progress(g, front)
  {
    var next := AdvanceBfs(g, front);
    FrontsAfterUnfold(g, front);
    if next != [] {
      AdvanceMakesProgress(g, front);
      FrontsAfterChain(g, next);
      ChainedCons(g, front, [next] + FrontsAfter(g, next));
    }
  }

  /** Every front after `front` is non-empty, sorted and duplicate-free. */
  lemma {:induction false} FrontsAfterSorted(g: Graph, front: seq<Handle>)
    requires StrictlyIncreasing(front)
    ensures forall i :: 0 <= i < |FrontsAfter(g, front)| ==>
      FrontsAfter(g, front)[i] != [] && StrictlyIncreasing(FrontsAfter(g, front)[i])
    decreases Progress(g, front)
  {
    var next := AdvanceBfs(g, front);
    if next != [] {
      AdvanceBfsSpec(g, front);
      AdvanceMakesProgress(g, front);
      FrontsAfterSorted(g, next);
      var r, rest := FrontsAfter(g, front), FrontsAfter(g, next);
      assert r == [next] + rest;
      forall i | 0 <= i < |r|
        ensures r[i] != [] && StrictlyIncreasing(r[i])
      {
        if i > 0 {
          assert r[i] == rest[i - 1];
        }
      }
    }
  }

  /** The shape of the recorded fronts: none without handles; otherwise the root
      alone, then its advance, then only non-empty fronts, all of them sorted and
      duplicate-free. */
  lemma BfsFrontsShape(g: Graph)
    ensures var f := BfsFronts(g);
      && (g.handles == [] <==> f == [])
      && (g.handles != [] ==> |f| >= 2 && f[0] == [Root(g)] && f[1] == AdvanceBfs(g, [Root(g)]))
      && (forall i :: 0 <= i < |f| ==> StrictlyIncreasing(f[i]))
      && (forall i :: 2 <= i < |f| ==> f[i] != [])
  {
    if g.handles != [] {
      var first := AdvanceBfs(g, [Root(g)]);
      AdvanceBfsSpec(g, [Root(g)]);
      FrontsAfterSorted(g, first);
      var f, rest := BfsFronts(g), FrontsAfter(g, first);
      assert f == [[Root(g)], first] + rest;
      forall i | 0 <= i < |f|
        ensures StrictlyIncreasing(f[i])
        ensures i >= 2 ==> f[i] != []
      {
        if i >= 2 {
          assert f[i] == rest[i - 2];
        }
      }
    }
  }

  /** Each recorded front is the advance of the one before it, and the last
      recorded front advances to nothing: the traversal stops exactly at the
      first empty front after the root's advance. */
  lemma FrontsChain(g: Graph)
    ensures Chained(g, BfsFronts(g))
    ensures var f := BfsFronts(g); f != [] ==> AdvanceBfs(g, f[|f| - 1]) == []
  {
    var f := BfsFronts(g);
    if f != [] {
      var first := AdvanceBfs(g, [Root(g)]);
      AdvanceBfsSpec(g, [Root(g)]);
      FrontsAfterChain(g, first);
      var c := [first] + FrontsAfter(g, first);
      assert f == [[Root(g)]] + c;
      forall i | 0 <= i < |f| - 1
        ensures f[i + 1] == AdvanceBfs(g, f[i])
      {
        if i > 0 {
          assert f[i] == c[i - 1] && f[i + 1] == c[i];
        }
      }
      assert f[|f| - 1] == c[|c| - 1];
    }
  }

  /** The traversal only moves forward: every member of a front after the root is
      an edge target lying strictly above the least member of the front before it,
      so the least members of the recorded fronts strictly increase. */
  lemma FrontsMoveForward(g: Graph)
    ensures var f := BfsFronts(g);
      forall i, y :: 1 <= i < |f| && y in f[i] ==>
        f[i - 1] != [] && y in Targets(g) && y > f[i - 1][0]
  {
    var f := BfsFronts(g);
    FrontsChain(g);
    BfsFrontsShape(g);
    forall i, y | 1 <= i < |f| && y in f[i]
      ensures f[i - 1] != [] && y in Targets(g) && y > f[i - 1][0]
    {
      AdvanceAboveMin(g, f[i - 1], y);
    }
  }

  /** The shape of the width sequence: empty without handles; otherwise it starts
      with 1 and the width of the root's advance, so it has at least two entries;
      every later entry is positive; every entry but the last is positive; and
      entry i is the size of front i. */
  lemma WidthsShape(g: Graph)
    ensures var w, f := BfsWidths(g), BfsFronts(g);
      && |w| == |f|
      && (forall i :: 0 <= i < |w| ==> w[i] == |f[i]|)
      && (g.handles == [] ==> w == [])
      && (g.handles != [] ==> |w| >= 2 && w[0] == 1 && w[1] == |AdvanceBfs(g, [Root(g)])|)
      && (forall i :: 2 <= i < |w| ==> w[i] > 0)
      && (forall i :: 0 <= i < |w| - 1 ==> w[i] > 0)
  {
    var w, f := BfsWidths(g), BfsFronts(g);
    FrontsChain(g);
    BfsFrontsShape(g);
    LengthsSpec(f);
    forall i | 0 <= i < |w| - 1
      ensures w[i] > 0
    {
      if i == 1 {
        assert f[2] == AdvanceBfs(g, f[1]);
      }
    }
  }
}
