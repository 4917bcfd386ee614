/**
 The flat node vector of `BoundsTree`, its invariants, and what follows from them.

 Child indices are not ordered against parent indices, so the links are certified by ghost data:
 the parent of every node and its distance from the root, which is bounded.
 */
module TreeShape {
  import opened Common
  import opened Geometry
  import opened PaintOrder

  datatype NodeKind = Leaf(order: nat) | Internal(children: seq<nat>)

  datatype Node = Node(bounds: Bounds, maxOrder: nat, kind: NodeKind)

  datatype Links = Links(parent: seq<nat>, depth: seq<nat>, height: nat)

  // ---------------------------------------------------------------- child arrays

  /** `indices.swap(i, j)` */
  function Swap(s: seq<nat>, i: nat, j: nat): (r: seq<nat>)
    requires i < |s| && j < |s|
    ensures |r| == |s|
  {
    s[i := s[j]][j := s[i]]
  }

  ghost predicate SameElements(s: seq<nat>, t: seq<nat>) {
    forall x :: x in s <==> x in t
  }

  lemma SwapPermutes(s: seq<nat>, i: nat, j: nat)
    requires i < |s| && j < |s|
    ensures SameElements(s, Swap(s, i, j))
    ensures Distinct(s) ==> Distinct(Swap(s, i, j))
  {
    var t := Swap(s, i, j);
    assert forall k :: 0 <= k < |s| ==> t[k] == s[if k == i then j else if k == j then i else k];
    forall x | x in s
      ensures x in t
    {
      var k :| 0 <= k < |s| && s[k] == x;
      assert t[if k == i then j else if k == j then i else k] == x;
    }
  }

  // ---------------------------------------------------------------- links

  ghost predicate Adopted(nodes: seq<Node>, l: Links, i: nat)
    requires |l.parent| == |l.depth| == |nodes| && i < |nodes|
  {
    && l.parent[i] < |nodes|
    && nodes[l.parent[i]].kind.Internal?
    && i in nodes[l.parent[i]].kind.children
    && l.depth[i] == l.depth[l.parent[i]] + 1
  }

  ghost predicate ChildrenLinked(nodes: seq<Node>, l: Links, root: nat, loose: int, cap: nat, p: nat)
    requires |l.parent| == |l.depth| == |nodes| && p < |nodes| && nodes[p].kind.Internal?
  {
    var ch := nodes[p].kind.children;
    && 2 <= |ch| <= cap
    && Distinct(ch)
    && forall c :: c in ch ==> c < |nodes| && c != root && c != loose && l.parent[c] == p
  }

  ghost predicate NodeLinked(nodes: seq<Node>, l: Links, root: nat, loose: int, cap: nat, i: nat)
    requires |l.parent| == |l.depth| == |nodes| && i < |nodes|
  {
    && l.depth[i] < l.height
    && (i != root && i != loose ==> Adopted(nodes, l, i))
    && (nodes[i].kind.Internal? ==> ChildrenLinked(nodes, l, root, loose, cap, i))
  }

  /** The nodes form a tree under `root`; node `loose`, if any, is a leaf not yet hung in it. */
  ghost predicate Linked(nodes: seq<Node>, l: Links, root: nat, loose: int, cap: nat) {
    && |l.parent| == |l.depth| == |nodes|
    && root < |nodes|
    && loose != root
    && l.depth[root] == 0
    && (0 <= loose < |nodes| ==> nodes[loose].kind.Leaf?)
    && forall i :: 0 <= i < |nodes| ==> NodeLinked(nodes, l, root, loose, cap, i)
  }

  const NO_NODE := -1

  /** `a` is `d` or lies on the path of parents from `d` to the root. */
  ghost predicate Ancestor(nodes: seq<Node>, l: Links, root: nat, cap: nat, a: nat, d: nat)
    requires Linked(nodes, l, root, NO_NODE, cap) && d < |nodes|
    decreases l.depth[d]
  {
    || a == d
    || (d != root && assert NodeLinked(nodes, l, root, NO_NODE, cap, d); Ancestor(nodes, l, root, cap, a, l.parent[d]))
  }

  // ---------------------------------------------------------------- boxes and maxima

  ghost predicate Holds(nodes: seq<Node>, ch: seq<nat>) {
    ch != [] && forall c :: c in ch ==> c < |nodes|
  }

  function Last(ch: seq<nat>): (c: nat)
    requires ch != []
    ensures c in ch
  {
    ch[|ch| - 1]
  }

  ghost predicate ChildWithin(nodes: seq<Node>, c: nat, box: Bounds, max: nat)
    requires c < |nodes|
  {
    Encloses(box, nodes[c].bounds) && nodes[c].maxOrder <= max
  }

  ghost predicate SideAttained(nodes: seq<Node>, ch: seq<nat>, box: Bounds, s: Side)
    requires Holds(nodes, ch)
  {
    exists c :: c in ch && nodes[c].bounds.Edge(s) == box.Edge(s)
  }

  /**
   A node's summary is exact. An internal node's box is the least one around its children, its
   `maxOrder` is the maximum of theirs, and the last child attains it.
   */
  ghost predicate Fits(nodes: seq<Node>, i: nat)
    requires i < |nodes|
  {
    match nodes[i].kind
    case Leaf(order) => nodes[i].maxOrder == order
    case Internal(ch) =>
      && Holds(nodes, ch)
      && (forall c :: c in ch ==> ChildWithin(nodes, c, nodes[i].bounds, nodes[i].maxOrder))
      && (forall s: Side :: SideAttained(nodes, ch, nodes[i].bounds, s))
      && nodes[Last(ch)].maxOrder == nodes[i].maxOrder
  }

  ghost predicate AllFit(nodes: seq<Node>) {
    forall i :: 0 <= i < |nodes| ==> Fits(nodes, i)
  }

  // ---------------------------------------------------------------- leaves

  /** Leaf `leafOf[k]` stores the `k`-th inserted bounds, and there are no other leaves. */
  ghost predicate LeavesMatch(nodes: seq<Node>, boxes: seq<Bounds>, leafOf: seq<nat>, boxOf: seq<nat>) {
    && |leafOf| == |boxes|
    && |boxOf| == |nodes|
    && (forall k :: 0 <= k < |boxes| ==> BoxStored(nodes, boxes, leafOf, boxOf, k))
    && forall i :: 0 <= i < |nodes| ==> LeafListed(nodes, boxes, leafOf, boxOf, i)
  }

  ghost predicate BoxStored(nodes: seq<Node>, boxes: seq<Bounds>, leafOf: seq<nat>, boxOf: seq<nat>, k: nat)
    requires k < |boxes| == |leafOf| && |boxOf| == |nodes|
  {
    && leafOf[k] < |nodes|
    && nodes[leafOf[k]] == Node(boxes[k], Orders(boxes)[k], Leaf(Orders(boxes)[k]))
    && boxOf[leafOf[k]] == k
  }

  ghost predicate LeafListed(nodes: seq<Node>, boxes: seq<Bounds>, leafOf: seq<nat>, boxOf: seq<nat>, i: nat)
    requires |boxes| == |leafOf| && i < |nodes| == |boxOf|
  {
    nodes[i].kind.Leaf? ==> boxOf[i] < |boxes| && leafOf[boxOf[i]] == i
  }

  /** `after` keeps every leaf of `before` and adds no leaf. */
  ghost predicate SameLeaves(before: seq<Node>, after: seq<Node>) {
    && |before| <= |after|
    && (forall i :: 0 <= i < |before| ==>
          if before[i].kind.Leaf? then after[i] == before[i] else after[i].kind.Internal?)
    && forall i :: |before| <= i < |after| ==> after[i].kind.Internal?
  }

  // ---------------------------------------------------------------- what the invariants mean

  /** Every node hangs below the root. */
  lemma {:induction false} RootReachesAll(nodes: seq<Node>, l: Links, root: nat, cap: nat, i: nat)
    requires Linked(nodes, l, root, NO_NODE, cap) && i < |nodes|
    ensures Ancestor(nodes, l, root, cap, root, i)
    decreases l.depth[i]
  {
    assert NodeLinked(nodes, l, root, NO_NODE, cap, i);
    if i != root {
      RootReachesAll(nodes, l, root, cap, l.parent[i]);
    }
  }

  /** No node is its own proper ancestor: walking towards the root strictly lowers the depth. */
  lemma {:induction false} AncestorIsHigher(nodes: seq<Node>, l: Links, root: nat, cap: nat, a: nat, d: nat)
    requires Linked(nodes, l, root, NO_NODE, cap) && d < |nodes|
    requires Ancestor(nodes, l, root, cap, a, d)
    ensures a < |nodes| && (a != d ==> l.depth[a] < l.depth[d])
    decreases l.depth[d]
  {
    assert NodeLinked(nodes, l, root, NO_NODE, cap, d);
    if a != d {
      AncestorIsHigher(nodes, l, root, cap, a, l.parent[d]);
    }
  }

  /** Each node is the child of exactly one internal node, at exactly one position; the root of none. */
  lemma ReachedOnce(nodes: seq<Node>, l: Links, root: nat, cap: nat, p: nat, j: nat, q: nat, k: nat)
    requires Linked(nodes, l, root, NO_NODE, cap)
    requires p < |nodes| && nodes[p].kind.Internal? && j < |nodes[p].kind.children|
    requires q < |nodes| && nodes[q].kind.Internal? && k < |nodes[q].kind.children|
    ensures nodes[p].kind.children[j] != root
    ensures nodes[p].kind.children[j] == nodes[q].kind.children[k] ==> p == q && j == k
  {
    assert NodeLinked(nodes, l, root, NO_NODE, cap, p) && NodeLinked(nodes, l, root, NO_NODE, cap, q);
    assert nodes[p].kind.children[j] in nodes[p].kind.children;
    assert nodes[q].kind.children[k] in nodes[q].kind.children;
  }

  /** An ancestor's box encloses, and its `maxOrder` bounds, everything below it. */
  lemma {:induction false} AncestorSummarises(nodes: seq<Node>, l: Links, root: nat, cap: nat, a: nat, d: nat)
    requires Linked(nodes, l, root, NO_NODE, cap) && AllFit(nodes) && d < |nodes|
    requires Ancestor(nodes, l, root, cap, a, d)
    ensures a < |nodes| && Encloses(nodes[a].bounds, nodes[d].bounds) && nodes[d].maxOrder <= nodes[a].maxOrder
    decreases l.depth[d]
  {
    if a != d {
      var p := l.parent[d];
      assert NodeLinked(nodes, l, root, NO_NODE, cap, d);
      AncestorSummarises(nodes, l, root, cap, a, p);
      assert Fits(nodes, p);
      assert ChildWithin(nodes, d, nodes[p].bounds, nodes[p].maxOrder);
      forall s: Side
        ensures nodes[a].bounds.Edge(s) <= nodes[d].bounds.Edge(s)
      {
        assert nodes[a].bounds.Edge(s) <= nodes[p].bounds.Edge(s);
        assert nodes[p].bounds.Edge(s) <= nodes[d].bounds.Edge(s);
      }
    }
  }

  lemma {:induction false} AncestorTransitive(nodes: seq<Node>, l: Links, root: nat, cap: nat, a: nat, b: nat, d: nat)
    requires Linked(nodes, l, root, NO_NODE, cap) && b < |nodes| && d < |nodes|
    requires Ancestor(nodes, l, root, cap, a, b) && Ancestor(nodes, l, root, cap, b, d)
    ensures Ancestor(nodes, l, root, cap, a, d)
    decreases l.depth[d]
  {
    if b != d {
      assert NodeLinked(nodes, l, root, NO_NODE, cap, d);
      AncestorTransitive(nodes, l, root, cap, a, b, l.parent[d]);
    }
  }

  lemma ParentIsAncestor(nodes: seq<Node>, l: Links, root: nat, cap: nat, p: nat, c: nat)
    requires Linked(nodes, l, root, NO_NODE, cap)
    requires p < |nodes| && nodes[p].kind.Internal? && c in nodes[p].kind.children
    ensures c < |nodes| && c != root && l.depth[c] == l.depth[p] + 1
    ensures Ancestor(nodes, l, root, cap, p, c)
  {
    assert NodeLinked(nodes, l, root, NO_NODE, cap, p);
    assert NodeLinked(nodes, l, root, NO_NODE, cap, c);
    assert Ancestor(nodes, l, root, cap, p, p);
  }

  /** A node's `maxOrder` is attained by a leaf below it, reached by following last children. */
  lemma {:induction false} MaximumAttained(nodes: seq<Node>, l: Links, root: nat, cap: nat, a: nat) returns (leaf: nat)
    requires Linked(nodes, l, root, NO_NODE, cap) && AllFit(nodes) && a < |nodes|
    ensures leaf < |nodes| && nodes[leaf].kind == Leaf(nodes[a].maxOrder)
    ensures Ancestor(nodes, l, root, cap, a, leaf)
    decreases l.height - l.depth[a]
  {
    assert Fits(nodes, a) && NodeLinked(nodes, l, root, NO_NODE, cap, a);
    match nodes[a].kind
    case Leaf(_) => leaf := a;
    case Internal(ch) =>
      var c := Last(ch);
      ParentIsAncestor(nodes, l, root, cap, a, c);
      assert NodeLinked(nodes, l, root, NO_NODE, cap, c);
      leaf := MaximumAttained(nodes, l, root, cap, c);
      AncestorTransitive(nodes, l, root, cap, a, c, leaf);
  }

  /** Each side of a node's box is a side of some leaf below it: the box is the least one around its leaves. */
  lemma {:induction false} SideAttainedByLeaf(nodes: seq<Node>, l: Links, root: nat, cap: nat, a: nat, s: Side)
    returns (leaf: nat)
    requires Linked(nodes, l, root, NO_NODE, cap) && AllFit(nodes) && a < |nodes|
    ensures leaf < |nodes| && nodes[leaf].kind.Leaf? && nodes[leaf].bounds.Edge(s) == nodes[a].bounds.Edge(s)
    ensures Ancestor(nodes, l, root, cap, a, leaf)
    decreases l.height - l.depth[a]
  {
    assert Fits(nodes, a) && NodeLinked(nodes, l, root, NO_NODE, cap, a);
    match nodes[a].kind
    case Leaf(_) => leaf := a;
    case Internal(ch) =>
      assert SideAttained(nodes, ch, nodes[a].bounds, s);
      var c :| c in ch && nodes[c].bounds.Edge(s) == nodes[a].bounds.Edge(s);
      ParentIsAncestor(nodes, l, root, cap, a, c);
      assert NodeLinked(nodes, l, root, NO_NODE, cap, c);
      leaf := SideAttainedByLeaf(nodes, l, root, cap, c, s);
      AncestorTransitive(nodes, l, root, cap, a, c, leaf);
  }
}
