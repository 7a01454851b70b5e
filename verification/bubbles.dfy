/**
 The bubble detector: a breadth-first traversal from the least handle that
 records the width of every front, followed by the matcher over those widths.
 */
module Bubbles {
  import opened HandleGraph
  import opened Frontier
  import opened Widths
  import opened Matcher

  /** The bubbles the detector reports for `g`: none for a graph without handles. */
  function BubblesOf(g: Graph): seq<Bubble>
  {
    if g.handles == [] then [] else MatchBubbles(BfsWidths(g))
  }

  /** Runs the detector: the traversal, then the matcher over its widths. */
  method FindBubbles(g: Graph) returns (bubbles: seq<Bubble>)
    ensures bubbles == BubblesOf(g)
  {
    bubbles := [];
    if g.handles != [] {
      var fronts, widths := TraverseWidths(g);
      var opens, closes := RecordOpensCloses(widths);
      bubbles := ZipBubbles(opens, closes);
    }
  }

  /** The traversal loop: starts from the least handle, records the root front with
      width 1 and its advance unconditionally, then keeps advancing and recording
      non-empty fronts until one comes back empty. */
  method TraverseWidths(g: Graph) returns (fronts: seq<seq<Handle>>, widths: seq<nat>)
    requires g.handles != []
    ensures fronts == BfsFronts(g)
    ensures widths == BfsWidths(g)
  {
    widths := [1];
    var firstFront := [Root(g)];
    fronts := [firstFront];
    assert widths == Lengths(fronts) by {
      LengthsAppend([], firstFront);
    }

    var newFront := AdvanceBfs(g, firstFront);
    AdvanceBfsSpec(g, firstFront);
    LengthsAppend(fronts, newFront);
    widths := widths + [|newFront|];
    fronts := fronts + [newFront];

    while newFront != []
      invariant StrictlyIncreasing(newFront)
      invariant fronts + FrontsAfter(g, newFront) == BfsFronts(g)
      invariant widths == Lengths(fronts)
      decreases Progress(g, newFront)
    {
      TraversalStep(g, fronts, newFront);
      newFront := AdvanceBfs(g, newFront);
      if newFront != [] {
        LengthsAppend(fronts, newFront);
        fronts := fronts + [newFront];
        widths := widths + [|newFront|];
      }
    }
  }

  /** One turn of the traversal loop keeps the recorded fronts a prefix of the
      traversal and lowers the termination measure. */
  lemma TraversalStep(g: Graph, fronts: seq<seq<Handle>>, front: seq<Handle>)
    requires StrictlyIncreasing(front) && front != []
    requires fronts + FrontsAfter(g, front) == BfsFronts(g)
    ensures var next := AdvanceBfs(g, front);
      && StrictlyIncreasing(next)
      && Progress(g, next) < Progress(g, front)
      && (next != [] ==> (fronts + [next]) + FrontsAfter(g, next) == BfsFronts(g))
      && (next == [] ==> fronts + FrontsAfter(g, next) == BfsFronts(g))
  {
    var next := AdvanceBfs(g, front);
    AdvanceBfsSpec(g, front);
    AdvanceMakesProgress(g, front);
    AdvanceBfsSpec(g, []);
    assert FrontsAfter(g, []) == [];
    if next != [] {
      assert FrontsAfter(g, front) == [next] + FrontsAfter(g, next);
    }
  }

  /** The level loop of the matcher: the running identifier starts at 2; a growing
      level pushes the identifier to the front of the opens, a shrinking level
      pushes the identifier plus twice its width to the front of the closes, and
      every level adds twice its width to the identifier. */
  method RecordOpensCloses(widths: seq<nat>) returns (opens: seq<nat>, closes: seq<nat>)
    requires widths != []
    ensures opens == Opens(widths, |widths| - 1)
    ensures closes == Closes(widths, |widths| - 1)
  {
    opens, closes := [], [];
    var counter: nat := 2;
    for level := 0 to |widths| - 1
      invariant counter == Counter(widths, level)
      invariant opens == Opens(widths, level)
      invariant closes == Closes(widths, level)
    {
      var widthI := widths[level];
      var widthJ := widths[level + 1];
      if widthJ > widthI {
        opens := [counter] + opens;
      } else if widthJ < widthI {
        closes := [counter + 2 * widthI] + closes;
      }
      CounterStep(widths, level);
      counter := counter + 2 * widthI;
    }
  }

  /** The zip of the two deques from the front: one `Simple` bubble per pair, as many
      as the shorter deque holds. */
  method ZipBubbles(opens: seq<nat>, closes: seq<nat>) returns (bubbles: seq<Bubble>)
    ensures |bubbles| == if |opens| <= |closes| then |opens| else |closes|
    ensures forall k :: 0 <= k < |bubbles| ==> bubbles[k] == Bubble(opens[k], closes[k], Simple)
    ensures bubbles == PairUp(opens, closes)
  {
    bubbles := [];
    var pairs := if |opens| <= |closes| then |opens| else |closes|;
    for i := 0 to pairs
      invariant |bubbles| == i
      invariant forall k :: 0 <= k < i ==> bubbles[k] == Bubble(opens[k], closes[k], Simple)
    {
      bubbles := bubbles + [Bubble(opens[i], closes[i], Simple)];
    }
    ghost var zipped := PairUp(opens, closes);
    assert forall k :: 0 <= k < |bubbles| ==> bubbles[k] == zipped[k];
  }

  /** What the detector reports: nothing for a graph without handles; otherwise one
      bubble for each of the min(#increases, #decreases) most recent opens and
      closes of its width sequence, most recent first (starts and ends both
      strictly decrease), every one `Simple` with even start and end of at least 2. */
  lemma BubblesOfSpec(g: Graph)
    ensures g.handles == [] ==> BubblesOf(g) == []
    ensures g.handles != [] ==>
      var w, r := BfsWidths(g), BubblesOf(g);
      var inc, dec := |Increases(w, |w| - 1)|, |Decreases(w, |w| - 1)|;
      && |r| == (if inc <= dec then inc else dec)
      && (forall b :: b in r ==> b.bubbleType == Simple)
      && (forall b :: b in r ==> b.start % 2 == 0 && b.start >= 2 && b.end % 2 == 0 && b.end >= 2)
      && (forall i, j :: 0 <= i < j < |r| ==> r[i].start > r[j].start && r[i].end > r[j].end)
  {
    if g.handles != [] {
      var w := BfsWidths(g);
      WidthsShape(g);
      MatchBubblesSpec(w);
      MatchBubblesMostRecentFirst(w);
    }
  }
}
