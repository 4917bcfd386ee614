/** The order `BoundsTree::insert` promises, stated on the list of inserted bounds alone. */
module PaintOrder {
  import opened Geometry

  function Max(a: nat, b: nat): nat {
    if a >= b then a else b
  }

  /** The naive scan: the largest order among the listed bounds that intersect `query`. */
  function MaxHit(boxes: seq<Bounds>, orders: seq<nat>, query: Bounds): nat
    requires |boxes| == |orders|
  {
    if boxes == [] then 0
    else
      var n := |boxes| - 1;
      var rest := MaxHit(boxes[..n], orders[..n], query);
      if boxes[n].Intersects(query) then Max(rest, orders[n]) else rest
  }

  /** The orders given to a whole sequence of inserts. */
  function Orders(boxes: seq<Bounds>): (orders: seq<nat>)
    ensures |orders| == |boxes|
  {
    if boxes == [] then []
    else
      var n := |boxes| - 1;
      var before := Orders(boxes[..n]);
      before + [1 + MaxHit(boxes[..n], before, boxes[n])]
  }

  /** The scan returns a maximum: nothing that intersects exceeds it and, unless it is 0, something attains it. */
  lemma {:induction false} MaxHitIsMaximum(boxes: seq<Bounds>, orders: seq<nat>, query: Bounds)
    requires |boxes| == |orders|
    ensures forall k :: 0 <= k < |boxes| && boxes[k].Intersects(query) ==> orders[k] <= MaxHit(boxes, orders, query)
    ensures MaxHit(boxes, orders, query) == 0
            || exists k :: 0 <= k < |boxes| && boxes[k].Intersects(query) && orders[k] == MaxHit(boxes, orders, query)
  {
    if boxes != [] {
      var n := |boxes| - 1;
      MaxHitIsMaximum(boxes[..n], orders[..n], query);
      var rest := MaxHit(boxes[..n], orders[..n], query);
      if rest != 0 {
        var k :| 0 <= k < n && boxes[..n][k].Intersects(query) && orders[..n][k] == rest;
        assert boxes[k].Intersects(query) && orders[k] == rest;
      }
      forall k | 0 <= k < |boxes| && boxes[k].Intersects(query)
        ensures orders[k] <= MaxHit(boxes, orders, query)
      {
        if k < n {
          assert boxes[..n][k].Intersects(query);
          assert orders[..n][k] <= rest;
        }
      }
    }
  }

  /** A number that bounds every hit and is attained (or 0) is what the scan returns. */
  lemma MaxHitUnique(boxes: seq<Bounds>, orders: seq<nat>, query: Bounds, m: nat)
    requires |boxes| == |orders|
    requires forall k :: 0 <= k < |boxes| && boxes[k].Intersects(query) ==> orders[k] <= m
    requires m <= MaxHit(boxes, orders, query)
    ensures m == MaxHit(boxes, orders, query)
  {
    MaxHitIsMaximum(boxes, orders, query);
  }

  /** Later inserts never change an order: entry `k` is decided by the boxes before it. */
  lemma {:induction false} OrdersPrefix(boxes: seq<Bounds>, n: nat)
    requires n <= |boxes|
    ensures Orders(boxes)[..n] == Orders(boxes[..n])
  {
    if n < |boxes| {
      var m := |boxes| - 1;
      OrdersPrefix(boxes[..m], n);
      assert boxes[..m][..n] == boxes[..n];
      assert Orders(boxes)[..n] == Orders(boxes[..m])[..n];
    } else {
      assert boxes[..n] == boxes;
    }
  }

  lemma OrderAt(boxes: seq<Bounds>, k: nat)
    requires k < |boxes|
    ensures Orders(boxes)[k] == 1 + MaxHit(boxes[..k], Orders(boxes)[..k], boxes[k])
  {
    OrdersPrefix(boxes, k + 1);
    OrdersPrefix(boxes, k);
    assert Orders(boxes)[k] == Orders(boxes)[..k + 1][k];
    assert boxes[..k + 1][..k] == boxes[..k];
  }

  /** Painting in increasing order is right: of two intersecting bounds the later has the larger order. */
  lemma LaterIntersectingIsAbove(boxes: seq<Bounds>, i: nat, j: nat)
    requires i < j < |boxes| && boxes[i].Intersects(boxes[j])
    ensures Orders(boxes)[i] < Orders(boxes)[j]
  {
    OrderAt(boxes, j);
    MaxHitIsMaximum(boxes[..j], Orders(boxes)[..j], boxes[j]);
    assert boxes[..j][i].Intersects(boxes[j]);
    assert Orders(boxes)[i] == Orders(boxes)[..j][i];
  }

  /** An order above 1 has a reason: an earlier intersecting bounds exactly one below. */
  lemma OrderHasPredecessor(boxes: seq<Bounds>, k: nat) returns (i: nat)
    requires k < |boxes| && Orders(boxes)[k] > 1
    ensures i < k && boxes[i].Intersects(boxes[k]) && Orders(boxes)[i] + 1 == Orders(boxes)[k]
  {
    OrderAt(boxes, k);
    MaxHitIsMaximum(boxes[..k], Orders(boxes)[..k], boxes[k]);
    var m := Orders(boxes)[k] - 1;
    i :| 0 <= i < k && boxes[..k][i].Intersects(boxes[k]) && Orders(boxes)[..k][i] == m;
  }

  /** A chain: indices in insertion order, each bounds intersecting the next. */
  ghost predicate IsChain(boxes: seq<Bounds>, chain: seq<nat>) {
    && chain != []
    && (forall i :: 0 <= i < |chain| ==> chain[i] < |boxes|)
    && forall i :: 0 <= i < |chain| - 1 ==>
        chain[i] < chain[i + 1] && boxes[chain[i]].Intersects(boxes[chain[i + 1]])
  }

  lemma {:induction false} ChainIsNoLonger(boxes: seq<Bounds>, chain: seq<nat>)
    requires IsChain(boxes, chain)
    ensures |chain| <= Orders(boxes)[chain[|chain| - 1]]
  {
    var n := |chain| - 1;
    if n == 0 {
      OrderAt(boxes, chain[0]);
    } else {
      assert IsChain(boxes, chain[..n]);
      ChainIsNoLonger(boxes, chain[..n]);
      assert chain[n - 1] < chain[n] && boxes[chain[n - 1]].Intersects(boxes[chain[n]]);
      LaterIntersectingIsAbove(boxes, chain[n - 1], chain[n]);
    }
  }

  lemma {:induction false} ChainOfFullLength(boxes: seq<Bounds>, k: nat) returns (chain: seq<nat>)
    requires k < |boxes|
    ensures IsChain(boxes, chain) && chain[|chain| - 1] == k && |chain| == Orders(boxes)[k]
    decreases k
  {
    OrderAt(boxes, k);
    if Orders(boxes)[k] == 1 {
      chain := [k];
    } else {
      var i := OrderHasPredecessor(boxes, k);
      var shorter := ChainOfFullLength(boxes, i);
      chain := shorter + [k];
    }
  }

  /** The order of a bounds is the length of the longest chain of intersecting bounds ending at it. */
  lemma OrderIsLongestChain(boxes: seq<Bounds>, k: nat)
    requires k < |boxes|
    ensures exists chain :: IsChain(boxes, chain) && chain[|chain| - 1] == k && |chain| == Orders(boxes)[k]
    ensures forall chain :: IsChain(boxes, chain) && chain[|chain| - 1] == k ==> |chain| <= Orders(boxes)[k]
  {
    var longest := ChainOfFullLength(boxes, k);
    forall chain | IsChain(boxes, chain) && chain[|chain| - 1] == k
      ensures |chain| <= Orders(boxes)[k]
    {
      ChainIsNoLonger(boxes, chain);
    }
  }

  /** An assignment that paints correctly: positive, and larger for a later intersecting bounds. */
  ghost predicate PaintsCorrectly(boxes: seq<Bounds>, f: seq<nat>) {
    && |f| == |boxes|
    && (forall i :: 0 <= i < |f| ==> f[i] >= 1)
    && forall i, j :: 0 <= i < j < |f| && boxes[i].Intersects(boxes[j]) ==> f[i] < f[j]
  }

  /** The orders paint correctly, and no correct assignment uses a smaller number anywhere. */
  lemma {:induction false} OrdersAreLeast(boxes: seq<Bounds>)
    ensures PaintsCorrectly(boxes, Orders(boxes))
    ensures forall f, k :: PaintsCorrectly(boxes, f) && 0 <= k < |boxes| ==> Orders(boxes)[k] <= f[k]
  {
    forall i | 0 <= i < |boxes|
      ensures Orders(boxes)[i] >= 1
    {
      OrderAt(boxes, i);
    }
    forall i, j | 0 <= i < j < |boxes| && boxes[i].Intersects(boxes[j])
      ensures Orders(boxes)[i] < Orders(boxes)[j]
    {
      LaterIntersectingIsAbove(boxes, i, j);
    }
    forall f, k | PaintsCorrectly(boxes, f) && 0 <= k < |boxes|
      ensures Orders(boxes)[k] <= f[k]
    {
      OrderIsLeast(boxes, f, k);
    }
  }

  lemma {:induction false} OrderIsLeast(boxes: seq<Bounds>, f: seq<nat>, k: nat)
    requires PaintsCorrectly(boxes, f) && k < |boxes|
    ensures Orders(boxes)[k] <= f[k]
    decreases k
  {
    if Orders(boxes)[k] > 1 {
      var i := OrderHasPredecessor(boxes, k);
      OrderIsLeast(boxes, f, i);
    }
  }

  /** No order exceeds the number of inserts, so a 32-bit order cannot overflow before 2^32 inserts. */
  lemma {:induction false} OrderAtMostPosition(boxes: seq<Bounds>, k: nat)
    requires k < |boxes|
    ensures 1 <= Orders(boxes)[k] <= k + 1
    decreases k
  {
    OrderAt(boxes, k);
    if Orders(boxes)[k] > 1 {
      var i := OrderHasPredecessor(boxes, k);
      OrderAtMostPosition(boxes, i);
    }
  }
}
