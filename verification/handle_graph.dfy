/**
 The read-only view of a handle graph that the bubble detector consumes.

 A handle is an oriented node identifier, represented by its integer value
 (the node id shifted left by one, with the orientation in the low bit).
 The graph provider is reduced to the two queries the detector makes:
 the enumeration of all handles, in the provider's own (unspecified) order,
 and the list of right-direction neighbours of a handle.
 */
module HandleGraph {

  type Handle = nat

  /** `handles` is what the provider enumerates, in any order; `right[h]` is the
      right-direction edge list of `h`, and a handle with no entry has no edges. */
  datatype Graph = Graph(handles: seq<Handle>, right: map<Handle, seq<Handle>>)

  /** The right-direction neighbours of `h`, in the provider's order. */
  function RightNeighbors(g: Graph, h: Handle): seq<Handle>
  {
    if h in g.right then g.right[h] else []
  }

  /** Every handle that is the target of some right-direction edge: a finite set. */
  ghost function Targets(g: Graph): set<Handle>
  {
    set h, t | h in g.right.Keys && t in g.right[h] :: t
  }

  lemma NeighborIsTarget(g: Graph, h: Handle, t: Handle)
    requires t in RightNeighbors(g, h)
    ensures t in Targets(g)
  {
  }

  /** The first handle of the sorted enumeration: the least handle of the graph. */
  function Root(g: Graph): Handle
    requires g.handles != []
  {
    Least(g.handles)
  }

  function Least(s: seq<Handle>): Handle
    requires s != []
  {
    if |s| == 1 then s[0]
    else if s[0] <= Least(s[1..]) then s[0]
    else Least(s[1..])
  }

  lemma {:induction false} LeastIsLeast(s: seq<Handle>)
    requires s != []
    ensures Least(s) in s
    ensures forall x :: x in s ==> Least(s) <= x
  {
    if |s| > 1 {
      LeastIsLeast(s[1..]);
      assert forall x :: x in s ==> x == s[0] || x in s[1..];
    }
  }

  /** The root is one of the graph's handles and no handle lies below it. */
  lemma RootIsLeast(g: Graph)
    requires g.handles != []
    ensures Root(g) in g.handles
    ensures forall h :: h in g.handles ==> Root(g) <= h
  {
    LeastIsLeast(g.handles);
  }
}
