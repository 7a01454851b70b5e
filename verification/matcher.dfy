/**
 The bubble records and the matcher that turns a width sequence into bubbles.

 The matcher never looks at the graph again. A running identifier starts at 2
 and grows by twice the width of every level it passes (handle integers carry
 the orientation in their low bit, hence the factor 2). A level whose next
 width is larger opens a bubble at the current identifier; a level whose next
 width is smaller closes one at the identifier after the level. Opens and
 closes are each pushed to the front of their own deque, and the two deques
 are then zipped from the front, dropping whatever the longer one has left.
 */
module Matcher {

  /** `Complex` is a reserved tag: the matcher only ever produces `Simple`. */
  datatype BubbleType = Simple | Complex

  datatype Bubble = Bubble(start: nat, end: nat, bubbleType: BubbleType)

  function Sum(s: seq<nat>): nat
  {
    if s == [] then 0 else Sum(s[..|s| - 1]) + s[|s| - 1]
  }

  /** The width grows from level k to level k + 1. */
  predicate Grows(w: seq<nat>, k: nat)
    requires k + 1 < |w|
  {
    w[k] < w[k + 1]
  }

  /** The width shrinks from level k to level k + 1. */
  predicate Shrinks(w: seq<nat>, k: nat)
    requires k + 1 < |w|
  {
    w[k] > w[k + 1]
  }

  /** The running identifier before level `k` is processed. */
  function Counter(w: seq<nat>, k: nat): nat
    requires k <= |w|
  {
    2 + 2 * Sum(w[..k])
  }

  /** The identifier a close at level k records: the running identifier plus
      twice the width of level k. */
  function CloseId(w: seq<nat>, k: nat): nat
    requires k < |w|
  {
    Counter(w, k) + 2 * w[k]
  }

  /** The `bubble_open` deque once levels 0 .. n-1 are processed. */
  function Opens(w: seq<nat>, n: nat): seq<nat>
    requires n < |w|
  {
    if n == 0 then []
    else if Grows(w, n - 1) then [Counter(w, n - 1)] + Opens(w, n - 1)
    else Opens(w, n - 1)
  }

  /** The `bubble_close` deque once levels 0 .. n-1 are processed. */
  function Closes(w: seq<nat>, n: nat): seq<nat>
    requires n < |w|
  {
    if n == 0 then []
    else if Shrinks(w, n - 1) then [CloseId(w, n - 1)] + Closes(w, n - 1)
    else Closes(w, n - 1)
  }

  /** Front-first zip of the two deques; the surplus of the longer one is dropped. */
  function PairUp(opens: seq<nat>, closes: seq<nat>): (r: seq<Bubble>)
    ensures |r| == if |opens| <= |closes| then |opens| else |closes|
    ensures forall i :: 0 <= i < |r| ==> r[i] == Bubble(opens[i], closes[i], Simple)
  {
    if opens == [] || closes == [] then []
    else [Bubble(opens[0], closes[0], Simple)] + PairUp(opens[1..], closes[1..])
  }

  /** The bubbles the matcher emits for a (non-empty) width sequence. */
  function MatchBubbles(w: seq<nat>): seq<Bubble>
    requires w != []
  {
    PairUp(Opens(w, |w| - 1), Closes(w, |w| - 1))
  }

  /** The levels, among the first `n`, at which the width grows. */
  ghost function Increases(w: seq<nat>, n: nat): set<nat>
    requires n < |w|
  {
    set k | 0 <= k < n && Grows(w, k)
  }

  /** The levels, among the first `n`, at which the width shrinks. */
  ghost function Decreases(w: seq<nat>, n: nat): set<nat>
    requires n < |w|
  {
    set k | 0 <= k < n && Shrinks(w, k)
  }

  /** Closed form of the identifier: passing level k adds twice its width. */
  lemma CounterStep(w: seq<nat>, k: nat)
    requires k < |w|
    ensures Counter(w, k + 1) == Counter(w, k) + 2 * w[k]
  {
    assert w[..k + 1][..k] == w[..k];
  }

  /** The identifier is even, at least 2, and never decreases; over levels of
      positive width it strictly increases. */
  lemma {:induction false} CounterGrows(w: seq<nat>, j: nat, k: nat)
    requires j <= k <= |w|
    ensures Counter(w, j) % 2 == 0 && Counter(w, j) >= 2
    ensures Counter(w, j) <= Counter(w, k)
    ensures j < k && (forall l :: j <= l < k ==> w[l] > 0) ==> Counter(w, j) < Counter(w, k)
    decreases k - j
  {
    if j < k {
      CounterGrows(w, j, k - 1);
      CounterStep(w, k - 1);
    }
  }

  /** Exactly one open per level at which the width grows, with the identifier of
      that level. */
  lemma {:induction false} OpensAre(w: seq<nat>, n: nat)
    requires n < |w|
    ensures |Opens(w, n)| == |Increases(w, n)|
    ensures forall x :: x in Opens(w, n) <==> exists k :: k in Increases(w, n) && x == Counter(w, k)
  {
    if n > 0 {
      OpensAre(w, n - 1);
      if Grows(w, n - 1) {
        assert Increases(w, n) == Increases(w, n - 1) + {n - 1};
      } else {
        assert Increases(w, n) == Increases(w, n - 1);
      }
    } else {
      assert Increases(w, n) == {};
    }
  }

  /** Exactly one close per level at which the width shrinks, with the identifier
      reached after that level. */
  lemma {:induction false} ClosesAre(w: seq<nat>, n: nat)
    requires n < |w|
    ensures |Closes(w, n)| == |Decreases(w, n)|
    ensures forall x :: x in Closes(w, n) <==> exists k :: k in Decreases(w, n) && x == CloseId(w, k)
  {
    if n > 0 {
      ClosesAre(w, n - 1);
      if Shrinks(w, n - 1) {
        assert Decreases(w, n) == Decreases(w, n - 1) + {n - 1};
      } else {
        assert Decreases(w, n) == Decreases(w, n - 1);
      }
    } else {
      assert Decreases(w, n) == {};
    }
  }

  /** The levels after `k`, among the first `n`, at which the width grows. */
  ghost function GrowingAfter(w: seq<nat>, n: nat, k: nat): set<nat>
    requires n < |w|
  {
    set l | k < l < n && Grows(w, l)
  }

  /** The levels after `k`, among the first `n`, at which the width shrinks. */
  ghost function ShrinkingAfter(w: seq<nat>, n: nat, k: nat): set<nat>
    requires n < |w|
  {
    set l | k < l < n && Shrinks(w, l)
  }

  /** The open of growing level k sits in the deque behind the opens of the growing
      levels after k. */
  lemma {:induction false} OpenIndex(w: seq<nat>, n: nat, k: nat)
    requires k < n < |w| && Grows(w, k)
    ensures |GrowingAfter(w, n, k)| < |Opens(w, n)|
    ensures Opens(w, n)[|GrowingAfter(w, n, k)|] == Counter(w, k)
  {
    if k == n - 1 {
      assert GrowingAfter(w, n, k) == {};
    } else {
      OpenIndex(w, n - 1, k);
      if Grows(w, n - 1) {
        assert GrowingAfter(w, n, k) == GrowingAfter(w, n - 1, k) + {n - 1};
      } else {
        assert GrowingAfter(w, n, k) == GrowingAfter(w, n - 1, k);
      }
    }
  }

  /** The close of shrinking level k sits in the deque behind the closes of the
      shrinking levels after k. */
  lemma {:induction false} CloseIndex(w: seq<nat>, n: nat, k: nat)
    requires k < n < |w| && Shrinks(w, k)
    ensures |ShrinkingAfter(w, n, k)| < |Closes(w, n)|
    ensures Closes(w, n)[|ShrinkingAfter(w, n, k)|] == CloseId(w, k)
  {
    if k == n - 1 {
      assert ShrinkingAfter(w, n, k) == {};
    } else {
      CloseIndex(w, n - 1, k);
      if Shrinks(w, n - 1) {
        assert ShrinkingAfter(w, n, k) == ShrinkingAfter(w, n - 1, k) + {n - 1};
      } else {
        assert ShrinkingAfter(w, n, k) == ShrinkingAfter(w, n - 1, k);
      }
    }
  }

  /** The open deque in order: the open of every growing level is entry i of the
      deque, where i is the number of growing levels after it. With `OpensAre`,
      entry i is the open of the (i+1)-th most recent growing level. */
  lemma OpensInOrder(w: seq<nat>, n: nat)
    requires n < |w|
    ensures forall k: nat :: k < n && Grows(w, k) ==>
      |GrowingAfter(w, n, k)| < |Opens(w, n)| && Opens(w, n)[|GrowingAfter(w, n, k)|] == Counter(w, k)
  {
    forall k: nat | k < n && Grows(w, k)
      ensures |GrowingAfter(w, n, k)| < |Opens(w, n)| && Opens(w, n)[|GrowingAfter(w, n, k)|] == Counter(w, k)
    {
      OpenIndex(w, n, k);
    }
  }

  /** The close deque in order: the close of every shrinking level is entry i of
      the deque, where i is the number of shrinking levels after it. */
  lemma ClosesInOrder(w: seq<nat>, n: nat)
    requires n < |w|
    ensures forall k: nat :: k < n && Shrinks(w, k) ==>
      |ShrinkingAfter(w, n, k)| < |Closes(w, n)| && Closes(w, n)[|ShrinkingAfter(w, n, k)|] == CloseId(w, k)
  {
    forall k: nat | k < n && Shrinks(w, k)
      ensures |ShrinkingAfter(w, n, k)| < |Closes(w, n)| && Closes(w, n)[|ShrinkingAfter(w, n, k)|] == CloseId(w, k)
    {
      CloseIndex(w, n, k);
    }
  }

  predicate StrictlyDecreasing(s: seq<nat>)
  {
    forall i, j :: 0 <= i < j < |s| ==> s[i] > s[j]
  }

  /** Pushing a value above every element to the front keeps a deque strictly decreasing. */
  lemma PushAbove(x: nat, s: seq<nat>)
    requires StrictlyDecreasing(s)
    requires forall y :: y in s ==> y < x
    ensures StrictlyDecreasing([x] + s)
  {
    var t := [x] + s;
    forall i, j | 0 <= i < j < |t|
      ensures t[i] > t[j]
    {
      assert t[j] == s[j - 1] && s[j - 1] in s;
      if i > 0 {
        assert t[i] == s[i - 1];
      }
    }
  }

  /** Over levels of positive width, every open recorded so far lies below the
      running identifier. */
  lemma OpensBelow(w: seq<nat>, n: nat)
    requires n < |w|
    requires forall k :: 0 <= k < n ==> w[k] > 0
    ensures forall x :: x in Opens(w, n) ==> x < Counter(w, n)
  {
    OpensAre(w, n);
    forall x | x in Opens(w, n)
      ensures x < Counter(w, n)
    {
      var k :| k in Increases(w, n) && x == Counter(w, k);
      CounterGrows(w, k, n);
    }
  }

  /** Every close recorded so far is at most the running identifier. */
  lemma ClosesBelow(w: seq<nat>, n: nat)
    requires n < |w|
    ensures forall x :: x in Closes(w, n) ==> x <= Counter(w, n)
  {
    ClosesAre(w, n);
    forall x | x in Closes(w, n)
      ensures x <= Counter(w, n)
    {
      var k :| k in Decreases(w, n) && x == CloseId(w, k);
      CounterStep(w, k);
      CounterGrows(w, k + 1, n);
    }
  }

  /** When the processed levels all have positive width, the open deque is strictly
      decreasing: its head is the most recent open. */
  lemma {:induction false} OpensMostRecentFirst(w: seq<nat>, n: nat)
    requires n < |w|
    requires forall k :: 0 <= k < n ==> w[k] > 0
    ensures StrictlyDecreasing(Opens(w, n))
  {
    if n > 0 {
      OpensMostRecentFirst(w, n - 1);
      if Grows(w, n - 1) {
        OpensBelow(w, n - 1);
        PushAbove(Counter(w, n - 1), Opens(w, n - 1));
      }
    }
  }

  /** Likewise the close deque is strictly decreasing: its head is the most
      recent close. */
  lemma {:induction false} ClosesMostRecentFirst(w: seq<nat>, n: nat)
    requires n < |w|
    requires forall k :: 0 <= k < n ==> w[k] > 0
    ensures StrictlyDecreasing(Closes(w, n))
  {
    if n > 0 {
      ClosesMostRecentFirst(w, n - 1);
      if Shrinks(w, n - 1) {
        ClosesBelow(w, n - 1);
        CounterStep(w, n - 1);
        PushAbove(CloseId(w, n - 1), Closes(w, n - 1));
      }
    }
  }

  /** What the matcher emits: one bubble per pair of the i-th most recent open and
      the i-th most recent close, as many as the smaller of the number of width
      increases and of width decreases; every bubble is `Simple`, and its start and
      end are even identifiers of at least 2. */
  lemma MatchBubblesSpec(w: seq<nat>)
    requires w != []
    ensures var r, n := MatchBubbles(w), |w| - 1;
      && |r| == (if |Increases(w, n)| <= |Decreases(w, n)| then |Increases(w, n)| else |Decreases(w, n)|)
      && (forall i :: 0 <= i < |r| ==> r[i].start == Opens(w, n)[i] && r[i].end == Closes(w, n)[i])
      && (forall b :: b in r ==> b.bubbleType == Simple)
      && (forall b :: b in r ==> b.start % 2 == 0 && b.start >= 2 && b.end % 2 == 0 && b.end >= 2)
  {
    var r, n := MatchBubbles(w), |w| - 1;
    OpensAre(w, n);
    ClosesAre(w, n);
    forall b | b in r
      ensures b.bubbleType == Simple
      ensures b.start % 2 == 0 && b.start >= 2 && b.end % 2 == 0 && b.end >= 2
    {
      var i :| 0 <= i < |r| && r[i] == b;
      assert b.start in Opens(w, n);
      assert b.end in Closes(w, n);
      var k :| k in Increases(w, n) && b.start == Counter(w, k);
      CounterGrows(w, k, k);
      var l :| l in Decreases(w, n) && b.end == CloseId(w, l);
      CounterStep(w, l);
      CounterGrows(w, l + 1, l + 1);
    }
  }

  /** When every level but the last has positive width (as for the traversal's
      widths), the bubbles come most recent first: both their starts and their
      ends strictly decrease along the list. */
  lemma MatchBubblesMostRecentFirst(w: seq<nat>)
    requires w != []
    requires forall k :: 0 <= k < |w| - 1 ==> w[k] > 0
    ensures var r := MatchBubbles(w);
      forall i, j :: 0 <= i < j < |r| ==> r[i].start > r[j].start && r[i].end > r[j].end
  {
    OpensMostRecentFirst(w, |w| - 1);
    ClosesMostRecentFirst(w, |w| - 1);
  }
}
