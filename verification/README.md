# Bubble detection on a handle graph

This project models the bubble detector of `pgbh-variant-caller`. A bubble is a
place where a genome variation graph splits into alternative paths and then joins
again. The detector is a heuristic with two phases:

1. **Breadth-first widths.** It starts from the least handle of the graph. It
   repeatedly advances a *front*: for every handle in the front, it keeps the
   right-direction neighbours whose integer is strictly larger than that handle's
   integer. The union of these neighbours, sorted and without duplicates, is the
   next front. The root front (width 1) and its first advance are always recorded,
   even when the advance is empty. After that, only non-empty fronts are recorded,
   and the traversal stops at the first empty one. The sizes of the recorded fronts
   form the width sequence.
2. **Matcher.** This phase looks only at the widths. A running identifier starts
   at 2 and grows by twice the width of each level.
   - A level whose next width is larger pushes the identifier onto the front of the
     *open* deque.
   - A level whose next width is smaller pushes the identifier plus twice the level's
     width onto the front of the *close* deque.
   - The two deques are zipped from the front into `Simple` bubbles. Whatever the
     longer deque has left over is dropped.

A handle is modelled by its integer value: the node id shifted left by one, with
the orientation in the low bit. That is why the identifier grows in steps of 2.

The graph is reduced to the two queries the detector makes:

- `Graph.handles` is the enumeration of all handles, in any order.
- `Graph.right` maps a handle to its right-direction edge list. A handle missing
  from the map has no edges.

No closure property is assumed. Termination is measured by the number of edge
targets lying above the front's least member (`Widths.Progress`), and that number
strictly falls at every advance.

Modules:

- `HandleGraph`: the graph view and the root.
- `Frontier`: `find_neighbors_to_add` and `advance_bfs`, as functions with their
  properties as lemmas.
- `Widths`: the sequence of fronts and widths as a functional specification.
- `Matcher`: the bubble records and the open/close/zip matcher, as functions.
- `Bubbles`: `find_bubbles` as methods with loops, each proved equal to the
  functional specification, plus the end-to-end properties.
- `Scenarios`: the repository's two test graphs and a few edge cases, traced
  front by front.

Two consequences of the code are worth stating:

- **Root with no forward neighbours.** The first advance is pushed unconditionally
  (src/bubbles.rs:59-61), so such a graph has widths `[1, 0]` (`Scenarios.LoneRoot`).
- **Diamond test graph.** It yields the single bubble `(2, 8)`
  (`Scenarios.DiamondBubble`).

Pairing the most recent open with the most recent close is a heuristic. It can
give a bubble whose start lies after its end (`Scenarios.StartAfterEnd`). The
model keeps this behaviour.

## Model

| member | source | states |
|---|---|---|
| HandleGraph.RootIsLeast | src/bubbles.rs:46-55 | `Root` (models `handles_iter().sorted().first()`): the first handle of the sorted enumeration is a handle of the graph and no handle lies below it |
| Frontier.FindNeighborsToAddSpec | src/bubbles.rs:21-30 | `FindNeighborsToAdd` (models `find_neighbors_to_add`): `x` is kept iff it is a right neighbour of `h` with a strictly larger integer; each kept neighbour occurs as often as in the edge list, and no other element occurs |
| Frontier.GatherSpec | src/bubbles.rs:34-36 | the flat-mapped sequence holds exactly the kept neighbours of some member of the front |
| Frontier.SortDedupSpec | src/bubbles.rs:37-38 | sorting then dropping duplicates gives a strictly increasing sequence with the same elements |
| Frontier.AdvanceBfsSpec | src/bubbles.rs:33-40 | `AdvanceBfs` (models `advance_bfs`): the next front is strictly increasing; `y` is in it iff `y` is a kept neighbour of some member of the front; an empty front advances to an empty front |
| Frontier.AdvanceCharacterized | src/bubbles.rs:33-40 | every strictly increasing sequence holding exactly the kept neighbours of the front equals the advance, so the advance is determined by the front's elements |
| Frontier.AdvanceIgnoresOrder | src/bubbles.rs:33-40 | two fronts with the same members advance to the same front, whatever the order or repetition of the front's members |
| Frontier.AdvanceIgnoresEdgeOrder | src/bubbles.rs:21-40 | two graphs whose edge lists hold the same neighbours for every handle, in any order and with any repetition, advance every front to the same front |
| Frontier.AdvanceAboveMin | src/bubbles.rs:21-40 | every member of the advance of a sorted non-empty front is an edge target strictly above the front's least member |
| Widths.AdvanceMakesProgress | src/bubbles.rs:63-69 | advancing a sorted non-empty front strictly lowers the count of edge targets above the front's minimum, so the `while` loop terminates |
| Widths.FrontsAfterSorted | src/bubbles.rs:63-69 | every front the loop records is non-empty, sorted and duplicate-free |
| Widths.FrontsAfterChain | src/bubbles.rs:63-69 | each front recorded by the loop is the advance of the one before it, and the last one advances to nothing |
| Widths.BfsFrontsShape | src/bubbles.rs:50-69 | `BfsFronts` (models the `fronts` vector): no handles gives no fronts; otherwise the fronts start with the root alone and then its advance (at least two fronts), every front is sorted, and every front after the second is non-empty |
| Widths.FrontsChain | src/bubbles.rs:52-69 | each recorded front is the advance of the previous one, and the last recorded front advances to the empty front, so the loop stops at the first empty front |
| Widths.FrontsMoveForward | src/bubbles.rs:63-69 | every member of a front after the root is an edge target strictly above the least member of the previous front |
| Widths.WidthsShape | src/bubbles.rs:52-69 | `BfsWidths` (models `bfs_tree_widths`): width `i` is the size of front `i`; no handles gives `[]`; otherwise the widths start `[1, advance-of-root size]` (length at least 2, so `len() - 1` cannot underflow); every width after the second is positive and so is every width but the last |
| Matcher.PairUp | src/bubbles.rs:94-100 | the front-first zip has as many bubbles as the shorter deque, and bubble `i` is `Simple` with start `opens[i]` and end `closes[i]` |
| Matcher.CounterStep | src/bubbles.rs:76-87 | passing level `k` adds `2 * w[k]` to the identifier, whose closed form is `2 + 2 * sum(w[..k])` |
| Matcher.CounterGrows | src/bubbles.rs:76-87 | the identifier is even and at least 2, never decreases, and strictly increases over levels of positive width |
| Matcher.OpensAre | src/bubbles.rs:76-88 | `Opens` (models `bubble_open`): there is exactly one open per level at which the width grows, and the opens are the identifiers of those levels |
| Matcher.ClosesAre | src/bubbles.rs:76-88 | `Closes` (models `bubble_close`): there is exactly one close per level at which the width shrinks, and the closes are the identifiers after those levels |
| Matcher.OpensInOrder | src/bubbles.rs:76-88 | the open of every growing level is entry `i` of the open deque, where `i` is the number of growing levels after it: with `OpensAre`, entry `i` is the open of the `(i+1)`-th most recent growing level, whatever the widths |
| Matcher.ClosesInOrder | src/bubbles.rs:76-88 | the close of every shrinking level is entry `i` of the close deque, where `i` is the number of shrinking levels after it |
| Matcher.OpensMostRecentFirst | src/bubbles.rs:74-88 | over positive widths the open deque is strictly decreasing: `push_front` puts the most recent open at the head |
| Matcher.ClosesMostRecentFirst | src/bubbles.rs:74-88 | over positive widths the close deque is strictly decreasing, with the most recent close at the head |
| Matcher.MatchBubblesSpec | src/bubbles.rs:74-100 | `MatchBubbles` (models the matcher): the bubble count is min(#increases, #decreases); bubble `i` pairs the `i`-th open with the `i`-th close; every bubble is `Simple` with even start and end of at least 2 |
| Matcher.MatchBubblesMostRecentFirst | src/bubbles.rs:94-100 | when every width but the last is positive, the starts and the ends of the bubbles both strictly decrease along the list |
| Bubbles.FindBubbles | src/bubbles.rs:42-111 | the detector returns exactly `BubblesOf(g)`: nothing for a graph without handles, otherwise the matcher applied to the traversal's widths |
| Bubbles.TraverseWidths | src/bubbles.rs:46-69 | the traversal loop's `fronts` and `bfs_tree_widths` equal the specified fronts and their sizes |
| Bubbles.TraversalStep | src/bubbles.rs:63-69 | one loop turn keeps the recorded fronts a prefix of the traversal, keeps the front sorted and lowers the termination measure |
| Bubbles.RecordOpensCloses | src/bubbles.rs:74-88 | the level loop leaves the open and close deques equal to the specified ones |
| Bubbles.ZipBubbles | src/bubbles.rs:93-100 | the zip loop emits `min(|opens|, |closes|)` bubbles, bubble `k` being `Simple` from `opens[k]` to `closes[k]` |
| Bubbles.BubblesOfSpec | src/bubbles.rs:42-111 | `BubblesOf` (models what `find_bubbles` returns): no handles gives no bubbles; otherwise there are min(#increases, #decreases) bubbles, all `Simple` with even start and end of at least 2, most recent first |
| Scenarios.DiamondBubble | src/bubbles.rs:125-149 | on the diamond 1 -> {2, 3} -> 4 the fronts are `[2], [4, 6], [8]`, the widths are `[1, 2, 1]` and the only bubble is `(2, 8, Simple)` |
| Scenarios.SuperbubbleBubble | src/bubbles.rs:152-175 | on the nested test graph the widths are `[1, 2, 3, 1, 1]` and the only bubble is `(4, 14, Simple)` |
| Scenarios.LoneRoot | src/bubbles.rs:59-69 | a root without forward neighbours records its empty advance: the widths are `[1, 0]` and there is no bubble |
| Scenarios.TruncatingZip | src/bubbles.rs:94-100 | three opens and one close give one bubble, from the most recent open 8 to the close 22; the other opens are dropped |
| Scenarios.StartAfterEnd | src/bubbles.rs:74-100 | the widths `[1, 2, 1, 1, 2]` give the single bubble `(10, 8)`, whose start lies after its end |

## Left out

- The `println!` diagnostics and the edge dump (src/bubbles.rs:71-72, 90-91, 102, 104-106) are output only and do not affect the result.
- The `handlegraph` library is not part of this model. `handles_iter`, `handle_edges_iter` and `Handle::from_integer`/`as_integer` are replaced by `Graph.handles`, `Graph.right` and plain `nat` handles. Node sequences, paths and left-direction edges play no part in the detector.
- `curr_handle_id` is a `u64` and the widths are `usize`; the model uses unbounded `nat`, so it does not model overflow.
- `Complex` is declared but never built. The model keeps the tag, and every bubble is `Simple`.
- src/main.rs (directory scanning, GFA loading, graph ids) and src/io.rs (CSV output) are I/O plumbing and are not part of this model.
- The test graph builders are modelled only by their handles and right-direction edges. Their node sequences and paths are not modelled. The repository's tests only run the detector; the scenario lemmas state what it returns.
- `find_bubbles` is modelled as `Bubbles.FindBubbles` calling three methods, one per loop of the source. The `fronts` vector holds front values, so cloning a front is not modelled.
