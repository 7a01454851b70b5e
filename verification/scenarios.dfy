/**
 The detector traced on the repository's two test graphs and on small inputs
 that show its edge cases. Node i in forward orientation has handle integer 2i.
 Each traversal step is its own small lemma.
 */
module Scenarios {
  import opened HandleGraph
  import opened Frontier
  import opened Widths
  import opened Matcher
  import opened Bubbles

  /** Nodes 1 -> {2, 3} -> 4, enumerated out of order. */
  function Diamond(): Graph
  {
    Graph([6, 2, 8, 4], map[2 := [4, 6], 4 := [8], 6 := [8], 8 := []])
  }

  /** Nodes 1 -> {2, 3}; 2 -> {4, 5} -> 6 -> 7; 3 -> 7. */
  function Superbubble(): Graph
  {
    Graph([2, 4, 6, 8, 10, 12, 14],
          map[2 := [4, 6], 4 := [8, 10], 6 := [14], 8 := [12], 10 := [12], 12 := [14], 14 := []])
  }

  // The diamond, one front at a time.

  lemma DiamondFirstStep()
    ensures Root(Diamond()) == 2
    ensures AdvanceBfs(Diamond(), [2]) == [4, 6]
  {
    var g := Diamond();
    assert FindNeighborsToAdd(g, 2) == [4, 6] by {
      assert KeepAbove([6], 2) == [6];
    }
    assert Gather(g, [2]) == [4, 6];
    assert SortDedup([6]) == [6];
  }

  lemma DiamondSecondStep()
    ensures AdvanceBfs(Diamond(), [4, 6]) == [8]
  {
    var g := Diamond();
    assert FindNeighborsToAdd(g, 4) == [8];
    assert FindNeighborsToAdd(g, 6) == [8];
    assert Gather(g, [6]) == [8];
    assert Gather(g, [4, 6]) == [8, 8];
    assert SortDedup([8]) == [8];
  }

  lemma DiamondLastStep()
    ensures AdvanceBfs(Diamond(), [8]) == []
  {
    assert FindNeighborsToAdd(Diamond(), 8) == [];
  }

  lemma DiamondMatch()
    ensures MatchBubbles([1, 2, 1]) == [Bubble(2, 8, Simple)]
  {
    var w := [1, 2, 1];
    CounterStep(w, 0);
    CounterStep(w, 1);
    assert Opens(w, 2) == [2];
    assert Closes(w, 2) == [8];
  }

  /** Any graph rooted at 2 whose advances are those of the diamond has the
      diamond's fronts ... */
  lemma DiamondFrontsOf(g: Graph)
    requires g.handles != [] && Root(g) == 2
    requires AdvanceBfs(g, [2]) == [4, 6]
    requires AdvanceBfs(g, [4, 6]) == [8]
    requires AdvanceBfs(g, [8]) == []
    ensures BfsFronts(g) == [[2], [4, 6], [8]]
  {
    FrontsAfterEnd(g, [8]);
    FrontsAfterCons(g, [4, 6], [8], []);
  }

  /** ... and its widths ... */
  lemma DiamondWidthsOf(g: Graph)
    requires BfsFronts(g) == [[2], [4, 6], [8]]
    ensures BfsWidths(g) == [1, 2, 1]
  {
    LengthsSpec([[2], [4, 6], [8]]);
  }

  /** ... and its bubble. */
  lemma DiamondBubbleOf(g: Graph)
    requires g.handles != [] && BfsWidths(g) == [1, 2, 1]
    ensures BubblesOf(g) == [Bubble(2, 8, Simple)]
  {
    DiamondMatch();
  }

  /** On the diamond the widths are [1, 2, 1] and the one bubble runs from 2 to 8. */
  lemma DiamondBubble()
    ensures BfsFronts(Diamond()) == [[2], [4, 6], [8]]
    ensures BfsWidths(Diamond()) == [1, 2, 1]
    ensures BubblesOf(Diamond()) == [Bubble(2, 8, Simple)]
  {
    DiamondFirstStep();
    DiamondSecondStep();
    DiamondLastStep();
    DiamondFrontsOf(Diamond());
    DiamondWidthsOf(Diamond());
    DiamondBubbleOf(Diamond());
  }

  // The nested test graph, one front at a time.

  lemma SuperbubbleRoot()
    ensures Root(Superbubble()) == 2
  {
  }

  lemma SuperbubbleFirstStep()
    ensures AdvanceBfs(Superbubble(), [2]) == [4, 6]
  {
    var g := Superbubble();
    assert FindNeighborsToAdd(g, 2) == [4, 6] by {
      assert KeepAbove([6], 2) == [6];
    }
    assert Gather(g, [2]) == [4, 6];
    assert SortDedup([6]) == [6];
  }

  lemma SuperbubbleSecondStep()
    ensures AdvanceBfs(Superbubble(), [4, 6]) == [8, 10, 14]
  {
    var g := Superbubble();
    assert FindNeighborsToAdd(g, 4) == [8, 10] by {
      assert KeepAbove([10], 4) == [10];
    }
    assert FindNeighborsToAdd(g, 6) == [14];
    assert Gather(g, [6]) == [14];
    assert Gather(g, [4, 6]) == [8, 10, 14];
    assert SortDedup([14]) == [14];
    assert SortDedup([10, 14]) == [10, 14];
  }

  lemma SuperbubbleThirdStep()
    ensures AdvanceBfs(Superbubble(), [8, 10, 14]) == [12]
  {
    var g := Superbubble();
    assert FindNeighborsToAdd(g, 8) == [12];
    assert FindNeighborsToAdd(g, 10) == [12];
    assert FindNeighborsToAdd(g, 14) == [];
    assert Gather(g, [14]) == [];
    assert Gather(g, [10, 14]) == [12];
    assert Gather(g, [8, 10, 14]) == [12, 12];
    assert SortDedup([12]) == [12];
  }

  lemma SuperbubbleFourthStep()
    ensures AdvanceBfs(Superbubble(), [12]) == [14]
  {
    var g := Superbubble();
    assert FindNeighborsToAdd(g, 12) == [14];
    assert Gather(g, [12]) == [14];
  }

  lemma SuperbubbleLastStep()
    ensures AdvanceBfs(Superbubble(), [14]) == []
  {
    assert FindNeighborsToAdd(Superbubble(), 14) == [];
  }

  lemma SuperbubbleMatch()
    ensures MatchBubbles([1, 2, 3, 1, 1]) == [Bubble(4, 14, Simple)]
  {
    var w := [1, 2, 3, 1, 1];
    CounterStep(w, 0);
    CounterStep(w, 1);
    CounterStep(w, 2);
    assert Opens(w, 4) == [4, 2];
    assert Closes(w, 4) == [14];
  }

  /** Any graph whose last three advances are those of the nested test graph ends
      its traversal with the fronts [12] and [14] ... */
  lemma SuperbubbleTailOf(g: Graph)
    requires AdvanceBfs(g, [8, 10, 14]) == [12]
    requires AdvanceBfs(g, [12]) == [14]
    requires AdvanceBfs(g, [14]) == []
    ensures FrontsAfter(g, [8, 10, 14]) == [[12], [14]]
  {
    FrontsAfterEnd(g, [14]);
    FrontsAfterCons(g, [12], [14], []);
    FrontsAfterCons(g, [8, 10, 14], [12], [[14]]);
  }

  /** ... and, rooted at 2 with the same first two advances, has all its fronts ... */
  lemma SuperbubbleFrontsOf(g: Graph)
    requires g.handles != [] && Root(g) == 2
    requires AdvanceBfs(g, [2]) == [4, 6]
    requires AdvanceBfs(g, [4, 6]) == [8, 10, 14]
    requires FrontsAfter(g, [8, 10, 14]) == [[12], [14]]
    ensures BfsFronts(g) == [[2], [4, 6], [8, 10, 14], [12], [14]]
  {
    FrontsAfterCons(g, [4, 6], [8, 10, 14], [[12], [14]]);
  }

  /** ... and its widths ... */
  lemma SuperbubbleWidthsOf(g: Graph)
    requires BfsFronts(g) == [[2], [4, 6], [8, 10, 14], [12], [14]]
    ensures BfsWidths(g) == [1, 2, 3, 1, 1]
  {
    LengthsSpec([[2], [4, 6], [8, 10, 14], [12], [14]]);
  }

  /** ... and its bubble. */
  lemma SuperbubbleBubbleOf(g: Graph)
    requires g.handles != [] && BfsWidths(g) == [1, 2, 3, 1, 1]
    ensures BubblesOf(g) == [Bubble(4, 14, Simple)]
  {
    SuperbubbleMatch();
  }

  /** On the nested test graph the widths are [1, 2, 3, 1, 1]: two opens (2, then 4)
      and one close (14), so the single bubble pairs the most recent open, 4, with 14. */
  lemma SuperbubbleBubble()
    ensures BfsFronts(Superbubble()) == [[2], [4, 6], [8, 10, 14], [12], [14]]
    ensures BfsWidths(Superbubble()) == [1, 2, 3, 1, 1]
    ensures BubblesOf(Superbubble()) == [Bubble(4, 14, Simple)]
  {
    SuperbubbleRoot();
    SuperbubbleFirstStep();
    SuperbubbleSecondStep();
    SuperbubbleThirdStep();
    SuperbubbleFourthStep();
    SuperbubbleLastStep();
    SuperbubbleTailOf(Superbubble());
    SuperbubbleFrontsOf(Superbubble());
    SuperbubbleWidthsOf(Superbubble());
    SuperbubbleBubbleOf(Superbubble());
  }

  // Edge cases.

  lemma LoneRootStep()
    ensures Root(Graph([2], map[])) == 2
    ensures AdvanceBfs(Graph([2], map[]), [2]) == []
  {
    assert FindNeighborsToAdd(Graph([2], map[]), 2) == [];
  }

  lemma LoneRootFrontsOf(g: Graph)
    requires g.handles != [] && Root(g) == 2
    requires AdvanceBfs(g, [2]) == []
    ensures BfsFronts(g) == [[2], []]
  {
    AdvanceBfsSpec(g, []);
    FrontsAfterEnd(g, []);
  }

  lemma LoneRootBubblesOf(g: Graph)
    requires g.handles != [] && BfsFronts(g) == [[2], []]
    ensures BfsWidths(g) == [1, 0]
    ensures BubblesOf(g) == []
  {
    LengthsSpec([[2], []]);
    assert Opens([1, 0], 1) == [];
  }

  /** A root without forward neighbours still records its empty advance: the widths
      are [1, 0], and the single shrinking level yields a close but no bubble. */
  lemma LoneRoot()
    ensures BfsFronts(Graph([2], map[])) == [[2], []]
    ensures BfsWidths(Graph([2], map[])) == [1, 0]
    ensures BubblesOf(Graph([2], map[])) == []
  {
    LoneRootStep();
    LoneRootFrontsOf(Graph([2], map[]));
    LoneRootBubblesOf(Graph([2], map[]));
  }

  /** Three increases and one decrease give one bubble: the most recent open (8)
      with the only close (22); the opens 4 and 2 are dropped. */
  lemma TruncatingZip()
    ensures MatchBubbles([1, 2, 3, 4, 1]) == [Bubble(8, 22, Simple)]
  {
    var w := [1, 2, 3, 4, 1];
    CounterStep(w, 0);
    CounterStep(w, 1);
    CounterStep(w, 2);
    CounterStep(w, 3);
    assert Opens(w, 4) == [8, 4, 2];
    assert Closes(w, 4) == [22];
  }

  /** Pairing the most recent open with the most recent close can produce a bubble
      whose start lies after its end. */
  lemma StartAfterEnd()
    ensures MatchBubbles([1, 2, 1, 1, 2]) == [Bubble(10, 8, Simple)]
  {
    var w := [1, 2, 1, 1, 2];
    CounterStep(w, 0);
    CounterStep(w, 1);
    CounterStep(w, 2);
    CounterStep(w, 3);
    assert Opens(w, 4) == [10, 2];
    assert Closes(w, 4) == [8];
  }
}
