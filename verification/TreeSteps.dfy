/** How each step of an insert changes the links, the summaries and the leaves of the node vector. */
module TreeSteps {
  import opened Common
  import opened Geometry
  import opened PaintOrder
  import opened TreeShape

  // ---------------------------------------------------------------- links

  lemma {:induction false} LeafRootIsAlone(nodes: seq<Node>, l: Links, root: nat, cap: nat, i: nat)
    requires Linked(nodes, l, root, NO_NODE, cap) && nodes[root].kind.Leaf? && i < |nodes|
    ensures i == root
    decreases l.depth[i]
  {
    assert NodeLinked(nodes, l, root, NO_NODE, cap, i);
    if i != root {
      LeafRootIsAlone(nodes, l, root, cap, l.parent[i]);
    }
  }

  lemma LeafRootOnly(nodes: seq<Node>, l: Links, root: nat, cap: nat)
    requires Linked(nodes, l, root, NO_NODE, cap) && nodes[root].kind.Leaf?
    ensures |nodes| == 1 && root == 0
  {
    LeafRootIsAlone(nodes, l, root, cap, |nodes| - 1);
    LeafRootIsAlone(nodes, l, root, cap, 0);
  }

  ghost function LinksWithFresh(l: Links): Links {
    Links(l.parent + [0], l.depth + [0], l.height)
  }

  lemma PushKeepsLinks(nodes: seq<Node>, l: Links, root: nat, cap: nat, leaf: Node)
    requires Linked(nodes, l, root, NO_NODE, cap) && leaf.kind.Leaf?
    ensures Linked(nodes + [leaf], LinksWithFresh(l), root, |nodes|, cap)
  {
    var nodes', l' := nodes + [leaf], LinksWithFresh(l);
    assert NodeLinked(nodes, l, root, NO_NODE, cap, root);
    forall i | 0 <= i < |nodes'|
      ensures NodeLinked(nodes', l', root, |nodes|, cap, i)
    {
      if i < |nodes| {
        assert NodeLinked(nodes, l, root, NO_NODE, cap, i);
        assert nodes'[i] == nodes[i];
      }
    }
  }

  lemma PermutingKeepsLinks(nodes: seq<Node>, l: Links, root: nat, loose: int, cap: nat, q: nat, node: Node)
    requires Linked(nodes, l, root, loose, cap)
    requires q < |nodes| && nodes[q].kind.Internal? && node.kind.Internal?
    requires SameElements(nodes[q].kind.children, node.kind.children)
    requires Distinct(node.kind.children) && |node.kind.children| == |nodes[q].kind.children|
    ensures Linked(nodes[q := node], l, root, loose, cap)
  {
    var nodes' := nodes[q := node];
    forall i | 0 <= i < |nodes'|
      ensures NodeLinked(nodes', l, root, loose, cap, i)
    {
      assert NodeLinked(nodes, l, root, loose, cap, i);
    }
  }

  ghost function LinksWithAttached(l: Links, p: nat, leaf: nat): Links
    requires |l.parent| == |l.depth| && p < |l.depth| && leaf < |l.depth|
  {
    Links(l.parent[leaf := p], l.depth[leaf := l.depth[p] + 1], l.height + 1)
  }

  lemma AttachingKeepsLinks(nodes: seq<Node>, l: Links, root: nat, leaf: nat, cap: nat, p: nat, node: Node)
    requires Linked(nodes, l, root, leaf, cap) && leaf < |nodes|
    requires p < |nodes| && nodes[p].kind.Internal? && node.kind.Internal?
    requires forall x :: x in node.kind.children <==> x in nodes[p].kind.children || x == leaf
    requires Distinct(node.kind.children) && 2 <= |node.kind.children| <= cap
    ensures Linked(nodes[p := node], LinksWithAttached(l, p, leaf), root, NO_NODE, cap)
  {
    var nodes', l' := nodes[p := node], LinksWithAttached(l, p, leaf);
    assert NodeLinked(nodes, l, root, leaf, cap, p);
    forall i | 0 <= i < |nodes'|
      ensures NodeLinked(nodes', l', root, NO_NODE, cap, i)
    {
      assert NodeLinked(nodes, l, root, leaf, cap, i);
      if nodes'[i].kind.Internal? {
        assert ChildrenLinked(nodes', l', root, NO_NODE, cap, i);
      }
    }
  }

  ghost function LinksWithSplit(l: Links, p: nat, best: nat, leaf: nat): Links
    requires |l.parent| == |l.depth| && p < |l.depth| && leaf < |l.depth| && best < |l.depth|
  {
    var m := |l.parent|;
    var d := l.depth[p];
    Links(l.parent[best := m][leaf := m] + [p], l.depth[best := d + 2][leaf := d + 2] + [d + 1], l.height + 2)
  }

  lemma SplittingKeepsLinks(nodes: seq<Node>, l: Links, root: nat, leaf: nat, cap: nat, p: nat, best: nat,
                            node: Node, pair: Node)
    requires cap >= 2
    requires Linked(nodes, l, root, leaf, cap) && leaf < |nodes|
    requires p < |nodes| && nodes[p].kind.Internal? && node.kind.Internal? && pair.kind.Internal?
    requires best in nodes[p].kind.children && best < |nodes| && nodes[best].kind.Leaf?
    requires forall x :: x in node.kind.children <==> (x in nodes[p].kind.children && x != best) || x == |nodes|
    requires Distinct(node.kind.children) && |node.kind.children| == |nodes[p].kind.children|
    requires pair.kind.children == [best, leaf] || pair.kind.children == [leaf, best]
    ensures Linked(nodes[p := node] + [pair], LinksWithSplit(l, p, best, leaf), root, NO_NODE, cap)
  {
    var nodes', l' := nodes[p := node] + [pair], LinksWithSplit(l, p, best, leaf);
    var m := |nodes|;
    assert NodeLinked(nodes, l, root, leaf, cap, p) && NodeLinked(nodes, l, root, leaf, cap, best);
    assert best != leaf && best != root && best != p;
    assert leaf in pair.kind.children && best in pair.kind.children;
    forall i | 0 <= i < |nodes'|
      ensures NodeLinked(nodes', l', root, NO_NODE, cap, i)
    {
      if i == m {
        assert ChildrenLinked(nodes', l', root, NO_NODE, cap, m);
        assert m in node.kind.children;
      } else {
        assert NodeLinked(nodes, l, root, leaf, cap, i);
        if nodes'[i].kind.Internal? {
          assert ChildrenLinked(nodes', l', root, NO_NODE, cap, i);
        }
      }
    }
  }

  // ---------------------------------------------------------------- leaves

  lemma SameLeavesTransitive(a: seq<Node>, b: seq<Node>, c: seq<Node>)
    requires SameLeaves(a, b) && SameLeaves(b, c)
    ensures SameLeaves(a, c)
  {
  }

  lemma SameLeavesKeepMatch(a: seq<Node>, b: seq<Node>, boxes: seq<Bounds>, leafOf: seq<nat>, boxOf: seq<nat>,
                            boxOf': seq<nat>)
    requires SameLeaves(a, b) && LeavesMatch(a, boxes, leafOf, boxOf)
    requires |boxOf'| == |b| && boxOf'[..|a|] == boxOf
    ensures LeavesMatch(b, boxes, leafOf, boxOf')
  {
    assert forall i :: 0 <= i < |a| ==> boxOf'[i] == boxOf[i];
    forall k | 0 <= k < |boxes|
      ensures BoxStored(b, boxes, leafOf, boxOf', k)
    {
      assert BoxStored(a, boxes, leafOf, boxOf, k);
    }
    forall i | 0 <= i < |b|
      ensures LeafListed(b, boxes, leafOf, boxOf', i)
    {
      assert i < |a| ==> LeafListed(a, boxes, leafOf, boxOf, i);
    }
  }

  lemma PushedLeafMatches(nodes: seq<Node>, boxes: seq<Bounds>, leafOf: seq<nat>, boxOf: seq<nat>, box: Bounds)
    requires LeavesMatch(nodes, boxes, leafOf, boxOf)
    ensures var order := 1 + MaxHit(boxes, Orders(boxes), box);
            LeavesMatch(nodes + [Node(box, order, Leaf(order))], boxes + [box], leafOf + [|nodes|], boxOf + [|boxes|])
  {
    var order := 1 + MaxHit(boxes, Orders(boxes), box);
    var nodes', boxes' := nodes + [Node(box, order, Leaf(order))], boxes + [box];
    var leafOf', boxOf' := leafOf + [|nodes|], boxOf + [|boxes|];
    OrdersPrefix(boxes', |boxes|);
    assert boxes'[..|boxes|] == boxes;
    assert Orders(boxes') == Orders(boxes) + [order];
    forall k | 0 <= k < |boxes'|
      ensures BoxStored(nodes', boxes', leafOf', boxOf', k)
    {
      assert k < |boxes| ==> BoxStored(nodes, boxes, leafOf, boxOf, k);
    }
    forall i | 0 <= i < |nodes'|
      ensures LeafListed(nodes', boxes', leafOf', boxOf', i)
    {
      assert i < |nodes| ==> LeafListed(nodes, boxes, leafOf, boxOf, i);
    }
  }

  /** After a leaf for `box` is pushed and placed, every bounds has its leaf again. */
  lemma NewLeafMatches(before: seq<Node>, after: seq<Node>, boxes: seq<Bounds>, leafOf: seq<nat>, boxOf: seq<nat>,
                       boxOf': seq<nat>, box: Bounds, order: nat)
    requires LeavesMatch(before, boxes, leafOf, boxOf) && order == 1 + MaxHit(boxes, Orders(boxes), box)
    requires SameLeaves(before + [Node(box, order, Leaf(order))], after)
    requires |boxOf'| == |after| && boxOf'[..|before| + 1] == boxOf + [|boxes|]
    ensures LeavesMatch(after, boxes + [box], leafOf + [|before|], boxOf')
  {
    PushedLeafMatches(before, boxes, leafOf, boxOf, box);
    SameLeavesKeepMatch(before + [Node(box, order, Leaf(order))], after, boxes + [box], leafOf + [|before|],
                        boxOf + [|boxes|], boxOf');
  }

  // ---------------------------------------------------------------- summaries

  /** The value `insert_leaf`'s upward pass gives a node on the insert path. */
  function Raised(node: Node, box: Bounds, order: nat, updated: Option<nat>): (r: Node)
    requires node.kind.Internal?
    ensures r.kind.Internal?
  {
    var ch := node.kind.children;
    var ch' :=
      if node.maxOrder < order && updated.Some? then
        match Position(ch, updated.value)
        case None => ch
        case Some(pos) => Swap(ch, pos, |ch| - 1)
      else ch;
    Node(node.bounds.Union(box), Max(node.maxOrder, order), Internal(ch'))
  }

  /** Children of `q` as the upward pass expects them before it raises `q` itself. */
  ghost predicate Ready(nodes: seq<Node>, q: nat, box: Bounds, order: nat, updated: Option<nat>)
    requires q < |nodes| && nodes[q].kind.Internal?
  {
    var ch := nodes[q].kind.children;
    var max := Max(nodes[q].maxOrder, order);
    && Holds(nodes, ch)
    && (forall c :: c in ch ==> ChildWithin(nodes, c, nodes[q].bounds.Union(box), max))
    && (forall s: Side :: SideAttained(nodes, ch, nodes[q].bounds.Union(box), s))
    && (order <= nodes[q].maxOrder || updated.None? ==> nodes[Last(ch)].maxOrder == max)
    && (order > nodes[q].maxOrder && updated.Some? ==> updated.value in ch && nodes[updated.value].maxOrder == max)
  }

  lemma RaisedPermutes(node: Node, box: Bounds, order: nat, updated: Option<nat>)
    requires node.kind.Internal? && Distinct(node.kind.children)
    ensures var ch := Raised(node, box, order, updated).kind.children;
            SameElements(node.kind.children, ch) && Distinct(ch) && |ch| == |node.kind.children|
  {
    var ch := node.kind.children;
    if node.maxOrder < order && updated.Some? && updated.value in ch {
      SwapPermutes(ch, Position(ch, updated.value).value, |ch| - 1);
    }
  }

  /** Raising a ready node makes its summary exact again. */
  lemma RaisedFits(nodes: seq<Node>, q: nat, box: Bounds, order: nat, updated: Option<nat>)
    requires q < |nodes| && nodes[q].kind.Internal? && Ready(nodes, q, box, order, updated)
    requires q !in nodes[q].kind.children && Distinct(nodes[q].kind.children)
    ensures Fits(nodes[q := Raised(nodes[q], box, order, updated)], q)
  {
    var node := Raised(nodes[q], box, order, updated);
    var ch, ch' := nodes[q].kind.children, node.kind.children;
    var nodes' := nodes[q := node];
    RaisedPermutes(nodes[q], box, order, updated);
    forall c | c in ch'
      ensures ChildWithin(nodes', c, node.bounds, node.maxOrder)
    {
      assert c in ch && ChildWithin(nodes, c, node.bounds, node.maxOrder);
    }
    forall s: Side
      ensures SideAttained(nodes', ch', node.bounds, s)
    {
      assert SideAttained(nodes, ch, node.bounds, s);
      var c :| c in ch && nodes[c].bounds.Edge(s) == node.bounds.Edge(s);
      assert c in ch' && nodes'[c] == nodes[c];
    }
    assert Last(ch') in ch;
  }

  /** Once a child has been raised, its parent, which fitted before, is ready. */
  lemma RaisedChildReadiesParent(nodes: seq<Node>, p: nat, c: nat, node: Node, box: Bounds, order: nat)
    requires p < |nodes| && nodes[p].kind.Internal? && Fits(nodes, p)
    requires p !in nodes[p].kind.children
    requires c in nodes[p].kind.children && c < |nodes|
    requires node.bounds == nodes[c].bounds.Union(box) && node.maxOrder == Max(nodes[c].maxOrder, order)
    ensures Ready(nodes[c := node], p, box, order, Some(c))
  {
    var nodes' := nodes[c := node];
    var ch := nodes[p].kind.children;
    var union, max := nodes[p].bounds.Union(box), Max(nodes[p].maxOrder, order);
    forall x | x in ch
      ensures ChildWithin(nodes', x, union, max)
    {
      assert ChildWithin(nodes, x, nodes[p].bounds, nodes[p].maxOrder);
      forall s: Side
        ensures union.Edge(s) <= nodes'[x].bounds.Edge(s)
      {
        UnionEdge(nodes[p].bounds, box, s);
        UnionEdge(nodes[c].bounds, box, s);
        assert nodes[p].bounds.Edge(s) <= nodes[x].bounds.Edge(s);
      }
    }
    forall s: Side
      ensures SideAttained(nodes', ch, union, s)
    {
      RaisedChildAttains(nodes, p, c, node, box, s);
    }
    assert ChildWithin(nodes, c, nodes[p].bounds, nodes[p].maxOrder);
  }

  lemma RaisedChildAttains(nodes: seq<Node>, p: nat, c: nat, node: Node, box: Bounds, s: Side)
    requires p < |nodes| && nodes[p].kind.Internal? && Fits(nodes, p)
    requires c in nodes[p].kind.children && c < |nodes|
    requires node.bounds == nodes[c].bounds.Union(box)
    ensures Holds(nodes[c := node], nodes[p].kind.children)
    ensures SideAttained(nodes[c := node], nodes[p].kind.children, nodes[p].bounds.Union(box), s)
  {
    var nodes', ch := nodes[c := node], nodes[p].kind.children;
    UnionEdge(nodes[p].bounds, box, s);
    UnionEdge(nodes[c].bounds, box, s);
    assert ChildWithin(nodes, c, nodes[p].bounds, nodes[p].maxOrder);
    assert nodes[p].bounds.Edge(s) <= nodes[c].bounds.Edge(s);
    assert SideAttained(nodes, ch, nodes[p].bounds, s);
    var d :| d in ch && nodes[d].bounds.Edge(s) == nodes[p].bounds.Edge(s);
    var attainer := if box.Edge(s) < nodes[p].bounds.Edge(s) then c else d;
    assert attainer in ch && nodes'[attainer].bounds.Edge(s) == nodes[p].bounds.Union(box).Edge(s);
  }

  /** A summary survives any change of nodes that are not children. */
  lemma FitsElsewhere(nodes: seq<Node>, i: nat, q: nat, node: Node)
    requires i < |nodes| && q < |nodes| && i != q && Fits(nodes, i)
    requires nodes[i].kind.Internal? ==> q !in nodes[i].kind.children
    ensures Fits(nodes[q := node], i)
  {
    var nodes' := nodes[q := node];
    if nodes[i].kind.Internal? {
      var ch := nodes[i].kind.children;
      assert forall c :: c in ch ==> nodes'[c] == nodes[c];
      forall c | c in ch
        ensures ChildWithin(nodes', c, nodes[i].bounds, nodes[i].maxOrder)
      {
        assert ChildWithin(nodes, c, nodes[i].bounds, nodes[i].maxOrder);
      }
      forall s: Side
        ensures SideAttained(nodes', ch, nodes[i].bounds, s)
      {
        assert SideAttained(nodes, ch, nodes[i].bounds, s);
      }
    }
  }

  /** A summary also survives a change of a child's own children. */
  lemma FitsWithSameSummary(nodes: seq<Node>, i: nat, q: nat, node: Node)
    requires i < |nodes| && q < |nodes| && i != q && Fits(nodes, i)
    requires node.bounds == nodes[q].bounds && node.maxOrder == nodes[q].maxOrder
    ensures Fits(nodes[q := node], i)
  {
    var nodes' := nodes[q := node];
    if nodes[i].kind.Internal? {
      var ch := nodes[i].kind.children;
      forall c | c in ch
        ensures ChildWithin(nodes', c, nodes[i].bounds, nodes[i].maxOrder)
      {
        assert ChildWithin(nodes, c, nodes[i].bounds, nodes[i].maxOrder);
      }
      forall s: Side
        ensures SideAttained(nodes', ch, nodes[i].bounds, s)
      {
        assert SideAttained(nodes, ch, nodes[i].bounds, s);
        var c :| c in ch && nodes[c].bounds.Edge(s) == nodes[i].bounds.Edge(s);
        assert nodes'[c].bounds.Edge(s) == nodes[i].bounds.Edge(s);
      }
    }
  }

  lemma FitsAfterPush(nodes: seq<Node>, i: nat, extra: Node)
    requires i < |nodes| && Fits(nodes, i)
    ensures Fits(nodes + [extra], i)
  {
    var nodes' := nodes + [extra];
    if nodes[i].kind.Internal? {
      var ch := nodes[i].kind.children;
      assert forall c :: c in ch ==> nodes'[c] == nodes[c];
      forall c | c in ch
        ensures ChildWithin(nodes', c, nodes[i].bounds, nodes[i].maxOrder)
      {
        assert ChildWithin(nodes, c, nodes[i].bounds, nodes[i].maxOrder);
      }
      forall s: Side
        ensures SideAttained(nodes', ch, nodes[i].bounds, s)
      {
        assert SideAttained(nodes, ch, nodes[i].bounds, s);
      }
    }
  }

  lemma PushedFits(nodes: seq<Node>, leaf: Node)
    requires AllFit(nodes) && leaf.kind == Leaf(leaf.maxOrder)
    ensures AllFit(nodes + [leaf])
  {
    forall i | 0 <= i < |nodes + [leaf]|
      ensures Fits(nodes + [leaf], i)
    {
      if i < |nodes| {
        FitsAfterPush(nodes, i, leaf);
      }
    }
  }

  /** Two leaves under a new internal node, the larger order last. */
  function Pair(nodes: seq<Node>, a: nat, b: nat): Node
    requires a < |nodes| && b < |nodes|
  {
    var order, sibling := nodes[b].maxOrder, nodes[a].maxOrder;
    Node(nodes[a].bounds.Union(nodes[b].bounds), Max(sibling, order),
         Internal(if order > sibling then [a, b] else [b, a]))
  }

  lemma PairFits(nodes: seq<Node>, a: nat, b: nat)
    requires a < |nodes| && b < |nodes|
    ensures Fits(nodes + [Pair(nodes, a, b)], |nodes|)
  {
    var pair := Pair(nodes, a, b);
    var nodes' := nodes + [pair];
    var ch := pair.kind.children;
    assert a in ch && b in ch && forall c :: c in ch ==> c == a || c == b;
    UnionIsLeastEnclosing(nodes[a].bounds, nodes[b].bounds);
    forall s: Side
      ensures SideAttained(nodes', ch, pair.bounds, s)
    {
      UnionEdge(nodes[a].bounds, nodes[b].bounds, s);
      if nodes[a].bounds.Edge(s) <= nodes[b].bounds.Edge(s) {
        assert nodes'[a].bounds.Edge(s) == pair.bounds.Edge(s);
      } else {
        assert nodes'[b].bounds.Edge(s) == pair.bounds.Edge(s);
      }
    }
  }

  /** The children after a new leaf joins a node that has room. */
  function Joined(ch: seq<nat>, leaf: nat, isMaximum: bool): (r: seq<nat>)
    requires ch != []
    ensures |r| == |ch| + 1
  {
    var pushed := ch + [leaf];
    if isMaximum then pushed else Swap(pushed, |ch| - 1, |ch|)
  }

  lemma JoinedElements(ch: seq<nat>, leaf: nat, isMaximum: bool)
    requires ch != [] && Distinct(ch) && leaf !in ch
    ensures Distinct(Joined(ch, leaf, isMaximum))
    ensures forall x :: x in Joined(ch, leaf, isMaximum) <==> x in ch || x == leaf
    ensures Last(Joined(ch, leaf, isMaximum)) == if isMaximum then leaf else Last(ch)
  {
    var pushed := ch + [leaf];
    assert Distinct(pushed);
    SwapPermutes(pushed, |ch| - 1, |ch|);
    assert forall x :: x in pushed <==> x in ch || x == leaf;
  }

  /** Raising the last node of the path once more changes nothing. */
  lemma RaisedTwice(node: Node, box: Bounds, order: nat)
    requires node.kind.Internal?
    ensures Raised(Raised(node, box, order, None), box, order, None) == Raised(node, box, order, None)
  {
  }

  /** With the new leaf among its children, and its summary still the old one, a node is ready to be raised. */
  lemma JoiningReadies(nodes: seq<Node>, p: nat, leaf: nat, order: nat, node: Node)
    requires p < |nodes| && nodes[p].kind.Internal? && Fits(nodes, p)
    requires p !in nodes[p].kind.children && Distinct(nodes[p].kind.children)
    requires leaf < |nodes| && leaf != p && leaf !in nodes[p].kind.children && nodes[leaf].maxOrder == order
    requires node == nodes[p].(kind := Internal(Joined(nodes[p].kind.children, leaf, order > nodes[p].maxOrder)))
    ensures Ready(nodes[p := node], p, nodes[leaf].bounds, order, None)
  {
    var nodes' := nodes[p := node];
    var ch, ch' := nodes[p].kind.children, node.kind.children;
    var box := nodes[leaf].bounds;
    var union, max := nodes[p].bounds.Union(box), Max(nodes[p].maxOrder, order);
    JoinedElements(ch, leaf, order > nodes[p].maxOrder);
    forall s: Side
      ensures union.Edge(s) == MinReal(nodes[p].bounds.Edge(s), box.Edge(s))
    {
      UnionEdge(nodes[p].bounds, box, s);
    }
    forall c | c in ch'
      ensures ChildWithin(nodes', c, union, max)
    {
      if c in ch {
        assert ChildWithin(nodes, c, nodes[p].bounds, nodes[p].maxOrder);
        forall s: Side
          ensures union.Edge(s) <= nodes'[c].bounds.Edge(s)
        {
          assert nodes[p].bounds.Edge(s) <= nodes[c].bounds.Edge(s);
        }
      }
    }
    forall s: Side
      ensures SideAttained(nodes', ch', union, s)
    {
      assert SideAttained(nodes, ch, nodes[p].bounds, s);
      var d :| d in ch && nodes[d].bounds.Edge(s) == nodes[p].bounds.Edge(s);
      var attainer := if box.Edge(s) < nodes[p].bounds.Edge(s) then leaf else d;
      assert attainer in ch' && nodes'[attainer].bounds.Edge(s) == union.Edge(s);
    }
  }

  /** The children after the leaf at `pos` is replaced by the internal node `pair`. */
  function Replaced(ch: seq<nat>, pos: nat, pair: nat, isMaximum: bool): (r: seq<nat>)
    requires pos < |ch|
    ensures |r| == |ch|
  {
    var replaced := ch[pos := pair];
    if isMaximum then Swap(replaced, pos, |ch| - 1) else replaced
  }

  lemma ReplacedElements(ch: seq<nat>, pos: nat, pair: nat, isMaximum: bool)
    requires pos < |ch| && Distinct(ch) && pair !in ch
    ensures Distinct(Replaced(ch, pos, pair, isMaximum))
    ensures forall x :: x in Replaced(ch, pos, pair, isMaximum) <==> (x in ch && x != ch[pos]) || x == pair
    ensures isMaximum ==> Last(Replaced(ch, pos, pair, isMaximum)) == pair
    ensures !isMaximum ==> Last(Replaced(ch, pos, pair, isMaximum)) == if pos == |ch| - 1 then pair else Last(ch)
  {
    var replaced := ch[pos := pair];
    assert replaced[pos] == pair;
    assert forall k :: 0 <= k < |ch| && k != pos ==> replaced[k] == ch[k];
    forall x | x in ch && x != ch[pos]
      ensures x in replaced
    {
      var k :| 0 <= k < |ch| && ch[k] == x;
      assert replaced[k] == x;
    }
    SwapPermutes(replaced, pos, |ch| - 1);
  }

  /** After a full node's leaf child has been split in two, the upward pass finds the node ready. */
  lemma SplittingReadies(nodes: seq<Node>, p: nat, pos: nat, leaf: nat, order: nat, node: Node)
    requires p < |nodes| && nodes[p].kind.Internal? && Fits(nodes, p)
    requires p !in nodes[p].kind.children && Distinct(nodes[p].kind.children) && pos < |nodes[p].kind.children|
    requires leaf < |nodes| && nodes[leaf].maxOrder == order
    requires var best := nodes[p].kind.children[pos];
             best < |nodes|
             && node == nodes[p].(kind := Internal(Replaced(nodes[p].kind.children, pos, |nodes|,
                                                            Max(nodes[best].maxOrder, order) > nodes[p].maxOrder)))
    ensures var best := nodes[p].kind.children[pos];
            Ready(nodes[p := node] + [Pair(nodes, best, leaf)], p, nodes[leaf].bounds, order, None)
  {
    var ch, ch' := nodes[p].kind.children, node.kind.children;
    var best, box := ch[pos], nodes[leaf].bounds;
    var pair := Pair(nodes, best, leaf);
    var nodes' := nodes[p := node] + [pair];
    var union, max := nodes[p].bounds.Union(box), Max(nodes[p].maxOrder, order);
    assert forall c :: c in ch ==> c < |nodes|;
    ReplacedElements(ch, pos, |nodes|, pair.maxOrder > nodes[p].maxOrder);
    assert best in ch && ChildWithin(nodes, best, nodes[p].bounds, nodes[p].maxOrder);
    forall s: Side
      ensures union.Edge(s) == MinReal(nodes[p].bounds.Edge(s), box.Edge(s))
      ensures pair.bounds.Edge(s) == MinReal(nodes[best].bounds.Edge(s), box.Edge(s))
      ensures nodes[p].bounds.Edge(s) <= nodes[best].bounds.Edge(s)
    {
      UnionEdge(nodes[p].bounds, box, s);
      UnionEdge(nodes[best].bounds, box, s);
    }
    forall c | c in ch'
      ensures c < |nodes'| && ChildWithin(nodes', c, union, max)
    {
      if c != |nodes| {
        assert c in ch && ChildWithin(nodes, c, nodes[p].bounds, nodes[p].maxOrder);
        forall s: Side
          ensures union.Edge(s) <= nodes'[c].bounds.Edge(s)
        {
          assert nodes[p].bounds.Edge(s) <= nodes[c].bounds.Edge(s);
        }
      }
    }
    forall s: Side
      ensures SideAttained(nodes', ch', union, s)
    {
      assert SideAttained(nodes, ch, nodes[p].bounds, s);
      var d :| d in ch && nodes[d].bounds.Edge(s) == nodes[p].bounds.Edge(s);
      var attainer := if box.Edge(s) < nodes[p].bounds.Edge(s) || d == best then |nodes| else d;
      assert attainer in ch' && nodes'[attainer].bounds.Edge(s) == union.Edge(s);
    }
  }

  // ---------------------------------------------------------------- where children go

  /** A leaf joins behind all children when it is the new maximum, else just before the last; the others stay in order. */
  lemma JoinedInOrder(ch: seq<nat>, leaf: nat, isMaximum: bool)
    requires ch != []
    ensures Joined(ch, leaf, isMaximum) == if isMaximum then ch + [leaf] else ch[..|ch| - 1] + [leaf, Last(ch)]
  {
  }

  /** The pair takes the place of the child it replaces, or, as the new maximum, the last place, whose child takes its. */
  lemma ReplacedInPlace(ch: seq<nat>, pos: nat, pair: nat, isMaximum: bool, i: nat)
    requires pos < |ch| && i < |ch|
    ensures Replaced(ch, pos, pair, isMaximum)[i]
            == if isMaximum then (if i == |ch| - 1 then pair else if i == pos then Last(ch) else ch[i])
               else if i == pos then pair else ch[i]
  {
  }

  /** Raising moves a child only when the maximum grows: then the child that grew it changes places with the last. */
  lemma RaisedMovesOneChild(node: Node, box: Bounds, order: nat, child: nat, pos: nat, i: nat)
    requires node.kind.Internal? && Distinct(node.kind.children)
    requires i < |node.kind.children| && pos < |node.kind.children| && node.kind.children[pos] == child
    ensures var ch, ch' := node.kind.children, Raised(node, box, order, Some(child)).kind.children;
      && |ch'| == |ch|
      && ch'[i] == if order <= node.maxOrder then ch[i]
                   else if i == |ch| - 1 then child else if i == pos then Last(ch) else ch[i]
    ensures Raised(node, box, order, None).kind == node.kind
  {
    var first := Position(node.kind.children, child).value;
    assert first == pos;
  }
}
