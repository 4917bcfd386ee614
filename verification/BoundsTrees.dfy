/** The spatial tree of `bounds_tree.rs`: a flat node vector updated in place. */
module BoundsTrees {
  import opened Common
  import opened Geometry
  import opened PaintOrder
  import opened TreeShape
  import opened TreeSteps
  import opened TreeSearch

  const MAX_CHILDREN: nat := 12

  class BoundsTree {
    /** Branching factor: `MAX_CHILDREN` in the source; every proof here holds from 2 on. */
    const maxChildren: nat
    var nodes: seq<Node>
    var root: Option<nat>
    var maxLeaf: Option<nat>
    var insertPath: seq<nat>
    var searchStack: seq<nat>

    /** The bounds inserted since the last clear, in order. */
    ghost var boxes: seq<Bounds>
    ghost var links: Links
    ghost var leafOf: seq<nat>
    ghost var boxOf: seq<nat>

    ghost predicate Valid()
      reads this
    {
      && maxChildren >= 2
      && (root.None? ==> nodes == [] && boxes == [] && maxLeaf == None)
      && (root.Some? ==>
            && Linked(nodes, links, root.value, NO_NODE, maxChildren)
            && AllFit(nodes)
            && boxes != [] && |nodes| <= 2 * |boxes| - 1
            && maxLeaf.Some? && MaximalLeaf(nodes, boxes, maxLeaf.value))
      && LeavesMatch(nodes, boxes, leafOf, boxOf)
    }

    constructor (branching: nat := MAX_CHILDREN)
      requires branching >= 2
      ensures Valid() && boxes == [] && maxChildren == branching
    {
      maxChildren := branching;
      nodes, root, maxLeaf, insertPath, searchStack := [], None, None, [], [];
      boxes, links, leafOf, boxOf := [], Links([], [], 0), [], [];
    }

    method Clear()
      requires Valid()
      modifies this
      ensures Valid() && boxes == []
    {
      nodes := [];
      root := None;
      maxLeaf := None;
      insertPath := [];
      searchStack := [];
      boxes, leafOf, boxOf := [], [], [];
    }

    /** The order is one more than the largest order of an earlier bounds that intersects the new one. */
    method Insert(newBounds: Bounds) returns (ordering: nat)
      requires Valid()
      modifies this
      ensures Valid()
      ensures boxes == old(boxes) + [newBounds]
      ensures ordering == 1 + MaxHit(old(boxes), Orders(old(boxes)), newBounds)
      ensures ordering == Orders(boxes)[|old(boxes)|]
      ensures maxLeaf == if old(maxLeaf).Some? && old(nodes)[old(maxLeaf).value].maxOrder >= ordering then old(maxLeaf)
                         else Some(|old(nodes)|)
    {
      var maxIntersecting := FindMaxOrdering(newBounds);
      ordering := maxIntersecting + 1;
      ghost var before, nodesBefore := boxes, nodes;
      LastOrder(boxes, newBounds);

      var newLeaf := InsertLeaf(newBounds, ordering);

      MaximalAfterInsert(nodesBefore, nodes, before, newBounds, ordering, maxLeaf);
      if maxLeaf.None? {
        maxLeaf := Some(newLeaf);
      } else if nodes[maxLeaf.value].maxOrder < ordering {
        maxLeaf := Some(newLeaf);
      }
    }

    /** The fast path and the pruned search both return what the naive scan returns. */
    method FindMaxOrdering(query: Bounds) returns (found: nat)
      requires Valid()
      modifies this`searchStack
      ensures found == MaxHit(boxes, Orders(boxes), query)
    {
      if root.None? {
        return 0;
      }
      MaxHitIsMaximum(boxes, Orders(boxes), query);
      if maxLeaf.Some? {
        var maxNode := nodes[maxLeaf.value];
        if query.Intersects(maxNode.bounds) {
          LeafBoundsFound(nodes, boxes, leafOf, boxOf, maxLeaf.value, query);
          return maxNode.maxOrder;
        }
      }
      found := Search(query);
    }

    /** Each iteration visits a node never visited before, so no node is popped twice. */
    method Search(query: Bounds) returns (found: nat)
      requires root.Some? && Linked(nodes, links, root.value, NO_NODE, maxChildren) && AllFit(nodes)
      requires LeavesMatch(nodes, boxes, leafOf, boxOf)
      modifies this`searchStack
      ensures found == MaxHit(boxes, Orders(boxes), query)
    {
      searchStack := [];
      searchStack := searchStack + [root.value];
      found := 0;
      ghost var visited: set<nat> := {};

      while searchStack != []
        invariant Frontier(nodes, root.value, query, found, visited, searchStack)
        invariant StackOk(nodes, links, root.value, visited, searchStack)
        invariant found <= MaxHit(boxes, Orders(boxes), query)
        decreases Indices(|nodes|) - visited
      {
        ghost var stack, foundBefore := searchStack, found;
        var top := |searchStack| - 1;
        var nodeIdx := searchStack[top];
        assert nodeIdx in searchStack;
        searchStack := searchStack[..top];
        assert nodeIdx in Indices(|nodes|) && nodeIdx !in visited;

        if nodes[nodeIdx].maxOrder <= found || !query.Intersects(nodes[nodeIdx].bounds) {
          // Neither a smaller maximum nor a box the query misses can improve the result.
        } else if nodes[nodeIdx].kind.Leaf? {
          LeafBoundsFound(nodes, boxes, leafOf, boxOf, nodeIdx, query);
          found := Max(found, nodes[nodeIdx].kind.order);
          assert Fits(nodes, nodeIdx);
        } else {
          PushPromising(nodeIdx, found);
        }
        VisitStep(nodes, links, root.value, maxChildren, query, foundBefore, found, visited, stack, searchStack);
        visited := visited + {nodeIdx};
      }
      assert searchStack == [];
      SearchIsComplete(nodes, links, root.value, maxChildren, query, found, visited, boxes, leafOf, boxOf);
      MaxHitUnique(boxes, Orders(boxes), query, found);
    }

    /** Pushes the children that could still raise the result, in order, so the last is popped first. */
    method PushPromising(nodeIdx: nat, found: nat)
      requires root.Some? && Linked(nodes, links, root.value, NO_NODE, maxChildren)
      requires nodeIdx < |nodes| && nodes[nodeIdx].kind.Internal?
      modifies this`searchStack
      ensures searchStack == old(searchStack) + Promising(nodes, nodes[nodeIdx].kind.children, found)
    {
      var children := nodes[nodeIdx].kind.children;
      assert NodeLinked(nodes, links, root.value, NO_NODE, maxChildren, nodeIdx);
      for j := 0 to |children|
        invariant searchStack == old(searchStack) + Promising(nodes, children[..j], found)
      {
        var child := children[j];
        assert child in children;
        assert children[..j + 1][..j] == children[..j];
        if nodes[child].maxOrder > found {
          searchStack := searchStack + [child];
        }
      }
      assert children[..|children|] == children;
    }

    // -------------------------------------------------------------- insertion

    /** Stores the bounds in a new leaf and hangs it in the tree. */
    method InsertLeaf(bounds: Bounds, order: nat) returns (newLeaf: nat)
      requires Valid()
      requires order == 1 + MaxHit(boxes, Orders(boxes), bounds)
      modifies this
      ensures boxes == old(boxes) + [bounds]
      ensures root.Some? && Linked(nodes, links, root.value, NO_NODE, maxChildren) && AllFit(nodes)
      ensures LeavesMatch(nodes, boxes, leafOf, boxOf)
      ensures |nodes| <= 2 * |boxes| - 1
      ensures maxLeaf == old(maxLeaf)
      ensures SameLeaves(old(nodes) + [Node(bounds, order, Leaf(order))], nodes)
      ensures newLeaf == |old(nodes)|
    {
      newLeaf := |nodes|;
      ghost var before, boxOfBefore := nodes, boxOf;
      nodes := nodes + [Node(bounds, order, Leaf(order))];
      boxOf := boxOf + [|boxes|];
      PlaceLeaf(before, newLeaf);
      NewLeafMatches(before, nodes, boxes, leafOf, boxOfBefore, boxOf, bounds, order);
      boxes, leafOf := boxes + [bounds], leafOf + [newLeaf];
    }

    /** The pushed leaf becomes the root of an empty tree, or is attached to the tree there is. */
    method PlaceLeaf(ghost before: seq<Node>, newLeaf: nat)
      requires maxChildren >= 2 && newLeaf == |before| && |nodes| == newLeaf + 1 && nodes == before + [nodes[newLeaf]]
      requires nodes[newLeaf].kind == Leaf(nodes[newLeaf].maxOrder)
      requires if root.Some? then Linked(before, links, root.value, NO_NODE, maxChildren) && AllFit(before) else before == []
      modifies this`nodes, this`root, this`links, this`boxOf, this`insertPath
      ensures root.Some? && Linked(nodes, links, root.value, NO_NODE, maxChildren) && AllFit(nodes)
      ensures SameLeaves(old(nodes), nodes) && |nodes| <= |old(nodes)| + 1
      ensures old(root).None? ==> |nodes| == 1
      ensures boxOf == old(boxOf) + seq(|nodes| - |old(nodes)|, _ => 0)
    {
      if root.None? {
        Plant(newLeaf);
      } else {
        Attach(before, newLeaf);
      }
    }

    /** The tree was empty: the pushed leaf is the root. */
    method Plant(newLeaf: nat)
      requires root.None? && newLeaf == 0 && |nodes| == 1 && nodes[0].kind == Leaf(nodes[0].maxOrder)
      modifies this`root, this`links
      ensures root == Some(newLeaf) && Linked(nodes, links, newLeaf, NO_NODE, maxChildren) && AllFit(nodes)
    {
      root := Some(newLeaf);
      links := Links([0], [0], 1);
      assert NodeLinked(nodes, links, newLeaf, NO_NODE, maxChildren, newLeaf);
      assert Fits(nodes, newLeaf);
    }

    /** The tree is not empty: the pushed leaf joins a lone leaf under a new root, or is hung below the root. */
    method Attach(ghost before: seq<Node>, newLeaf: nat)
      requires maxChildren >= 2 && root.Some? && newLeaf == |before| && AllFit(before)
      requires Linked(before, links, root.value, NO_NODE, maxChildren)
      requires |nodes| == newLeaf + 1 && nodes == before + [nodes[newLeaf]]
      requires nodes[newLeaf].kind == Leaf(nodes[newLeaf].maxOrder)
      modifies this`nodes, this`root, this`links, this`boxOf, this`insertPath
      ensures root.Some? && Linked(nodes, links, root.value, NO_NODE, maxChildren) && AllFit(nodes)
      ensures SameLeaves(old(nodes), nodes) && |nodes| <= |old(nodes)| + 1
      ensures boxOf == old(boxOf) + seq(|nodes| - |old(nodes)|, _ => 0)
    {
      PushedFits(before, nodes[newLeaf]);
      if nodes[root.value].kind.Leaf? {
        LeafRootOnly(before, links, root.value, maxChildren);
        SplitRoot(newLeaf);
      } else {
        PushKeepsLinks(before, links, root.value, maxChildren, nodes[newLeaf]);
        links := LinksWithFresh(links);
        HangLeaf(newLeaf);
      }
    }

    /** The root was a lone leaf: both leaves go under a new root. */
    method SplitRoot(newLeaf: nat)
      requires maxChildren >= 2 && AllFit(nodes)
      requires |nodes| == 2 && root == Some(0) && newLeaf == 1 && nodes[0].kind.Leaf? && nodes[1].kind.Leaf?
      modifies this`nodes, this`root, this`links, this`boxOf
      ensures root.Some? && Linked(nodes, links, root.value, NO_NODE, maxChildren) && AllFit(nodes)
      ensures SameLeaves(old(nodes), nodes) && |nodes| == |old(nodes)| + 1
      ensures boxOf == old(boxOf) + [0]
      ensures nodes == old(nodes) + [Pair(old(nodes), 0, 1)] && root == Some(2)
    {
      var rootIdx := root.value;
      var rootBounds, rootOrder := nodes[rootIdx].bounds, nodes[rootIdx].maxOrder;
      var bounds, order := nodes[newLeaf].bounds, nodes[newLeaf].maxOrder;
      var children := if order > rootOrder then [rootIdx, newLeaf] else [newLeaf, rootIdx];
      var newRoot := |nodes|;
      ghost var before := nodes;
      nodes := nodes + [Node(rootBounds.Union(bounds), Max(rootOrder, order), Internal(children))];
      root := Some(newRoot);
      links, boxOf := Links([2, 2, 0], [1, 1, 0], 2), boxOf + [0];
      PairFits(before, rootIdx, newLeaf);
      FitsAfterPush(before, 0, nodes[2]);
      FitsAfterPush(before, 1, nodes[2]);
      assert 0 in children && 1 in children;
    }

    /** Finds a node whose cheapest child is a leaf, adds the new leaf there and updates the path to the root. */
    method HangLeaf(newLeaf: nat)
      requires maxChildren >= 2 && root.Some? && newLeaf < |nodes| && AllFit(nodes)
      requires Linked(nodes, links, root.value, newLeaf, maxChildren) && nodes[root.value].kind.Internal?
      modifies this`nodes, this`links, this`boxOf, this`insertPath
      ensures Linked(nodes, links, root.value, NO_NODE, maxChildren) && AllFit(nodes)
      ensures SameLeaves(old(nodes), nodes) && |nodes| <= |old(nodes)| + 1
      ensures boxOf == old(boxOf) + seq(|nodes| - |old(nodes)|, _ => 0)
    {
      var bounds, order := nodes[newLeaf].bounds, nodes[newLeaf].maxOrder;
      var current, bestPos := Descend(bounds, newLeaf);
      assert NodeLinked(nodes, links, root.value, newLeaf, maxChildren, current);
      assert Fits(nodes, current);
      ghost var view := AddLeaf(current, bestPos, newLeaf);
      Propagate(bounds, order, view);
      SameLeavesTransitive(old(nodes), view, nodes);
    }

    /** Adds the leaf to `current` if it has room, else beside its leaf child at `bestPos`. */
    method AddLeaf(current: nat, bestPos: nat, newLeaf: nat) returns (ghost view: seq<Node>)
      requires maxChildren >= 2 && root.Some? && newLeaf < |nodes| && AllFit(nodes)
      requires Linked(nodes, links, root.value, newLeaf, maxChildren)
      requires PathTo(nodes, links, root.value, insertPath, current)
      requires bestPos < |nodes[current].kind.children| && nodes[current].kind.children[bestPos] < |nodes|
      requires nodes[nodes[current].kind.children[bestPos]].kind.Leaf?
      modifies this`nodes, this`links, this`boxOf
      ensures Linked(view, links, root.value, NO_NODE, maxChildren)
      ensures PathTo(view, links, root.value, insertPath, current)
      ensures FitsExcept(view, current)
      ensures Ready(view, current, old(nodes[newLeaf].bounds), old(nodes[newLeaf].maxOrder), None)
      ensures SameLeaves(old(nodes), view) && |old(nodes)| <= |view| <= |old(nodes)| + 1
      ensures |view| == |old(nodes)| <==> |old(nodes[current].kind.children)| < maxChildren
      ensures nodes == if |view| == |old(nodes)|
                       then view[current := Raised(view[current], old(nodes[newLeaf].bounds), old(nodes[newLeaf].maxOrder), None)]
                       else view
      ensures boxOf == old(boxOf) + seq(|view| - |old(nodes)|, _ => 0)
    {
      if |nodes[current].kind.children| < maxChildren {
        view := JoinNode(current, newLeaf);
      } else {
        SplitChild(current, bestPos, newLeaf);
        view := nodes;
      }
    }

    /** Walks down the cheapest children, recording the internal nodes passed. */
    method Descend(bounds: Bounds, newLeaf: nat) returns (current: nat, bestPos: nat)
      requires root.Some? && AllFit(nodes)
      requires Linked(nodes, links, root.value, newLeaf, maxChildren) && nodes[root.value].kind.Internal?
      modifies this`insertPath
      ensures PathTo(nodes, links, root.value, insertPath, current)
      ensures bestPos < |nodes[current].kind.children| && nodes[current].kind.children[bestPos] < |nodes|
      ensures nodes[nodes[current].kind.children[bestPos]].kind.Leaf?
      ensures Cheapest(nodes, bounds, current, bestPos)
      ensures AlwaysCheapest(nodes, bounds, insertPath)
    {
      insertPath := [];
      current := root.value;
      while true
        invariant current < |nodes| && nodes[current].kind.Internal?
        invariant links.depth[current] == |insertPath|
        invariant insertPath == [] ==> current == root.value
        invariant insertPath != [] ==>
            PathTo(nodes, links, root.value, insertPath, Last(insertPath)) && links.parent[current] == Last(insertPath)
            && DescendsTo(nodes, bounds, Last(insertPath), current)
        invariant AlwaysCheapest(nodes, bounds, insertPath)
        decreases links.height - links.depth[current]
      {
        PathExtends(nodes, links, root.value, insertPath, current);
        insertPath := insertPath + [current];
        bestPos := BestChild(bounds, current, newLeaf);
        var bestChild := nodes[current].kind.children[bestPos];
        if nodes[bestChild].kind.Leaf? {
          break;
        }
        current := bestChild;
      }
    }

    method BestChild(bounds: Bounds, current: nat, ghost newLeaf: nat) returns (bestPos: nat)
      requires root.Some? && Linked(nodes, links, root.value, newLeaf, maxChildren)
      requires current < |nodes| && nodes[current].kind.Internal?
      ensures Cheapest(nodes, bounds, current, bestPos)
      ensures var best := nodes[current].kind.children[bestPos];
        links.parent[best] == current && links.depth[current] < links.depth[best] == links.depth[current] + 1 <= links.height
    {
      var children := nodes[current].kind.children;
      assert NodeLinked(nodes, links, root.value, newLeaf, maxChildren, current);
      assert forall j :: 0 <= j < |children| ==> children[j] in children;
      bestPos := CheapestChild(nodes, children, bounds);
      assert children[bestPos] in children;
      assert NodeLinked(nodes, links, root.value, newLeaf, maxChildren, children[bestPos]);
    }

    /**
     There is room: the leaf becomes a child of `current`, whose summary is brought up to date at once.
     `view` is the vector before that last update, in which only `current` has a stale summary.
     */
    method JoinNode(current: nat, newLeaf: nat) returns (ghost view: seq<Node>)
      requires maxChildren >= 2 && root.Some? && newLeaf < |nodes| && AllFit(nodes)
      requires Linked(nodes, links, root.value, newLeaf, maxChildren)
      requires PathTo(nodes, links, root.value, insertPath, current) && |nodes[current].kind.children| < maxChildren
      modifies this`nodes, this`links
      ensures Linked(view, links, root.value, NO_NODE, maxChildren)
      ensures PathTo(view, links, root.value, insertPath, current)
      ensures FitsExcept(view, current)
      ensures Ready(view, current, old(nodes[newLeaf].bounds), old(nodes[newLeaf].maxOrder), None)
      ensures nodes == view[current := Raised(view[current], old(nodes[newLeaf].bounds), old(nodes[newLeaf].maxOrder), None)]
      ensures SameLeaves(old(nodes), view) && |view| == |old(nodes)|
      ensures var node := old(nodes[current]);
        node.kind.Internal? && node.kind.children != []
        && view == old(nodes)[current := node.(kind := Internal(Joined(node.kind.children, newLeaf,
                                                                       old(nodes[newLeaf].maxOrder) > node.maxOrder)))]
    {
      var bounds, order := nodes[newLeaf].bounds, nodes[newLeaf].maxOrder;
      ghost var before := nodes;
      assert NodeLinked(nodes, links, root.value, newLeaf, maxChildren, current) && Fits(nodes, current);
      var node := nodes[current];
      var children := node.kind.children + [newLeaf];
      if order <= node.maxOrder {
        var last := |children| - 1;
        children := Swap(children, last - 1, last);
      }
      nodes := nodes[current := Node(node.bounds.Union(bounds), Max(node.maxOrder, order), Internal(children))];

      assert newLeaf !in node.kind.children && newLeaf != current;
      NotOwnChild(before, links, root.value, newLeaf, maxChildren, current);
      ghost var joined := node.(kind := Internal(children));
      view := before[current := joined];
      JoiningReadies(before, current, newLeaf, order, joined);
      JoinedElements(node.kind.children, newLeaf, order > node.maxOrder);
      AttachingKeepsLinks(before, links, root.value, newLeaf, maxChildren, current, joined);
      links := LinksWithAttached(links, current, newLeaf);
      JoiningFitsElsewhere(before, current, joined);
    }

    /** The node is full: its leaf child at `bestPos` makes way for an internal node over it and the new leaf. */
    method SplitChild(current: nat, bestPos: nat, newLeaf: nat)
      requires maxChildren >= 2 && root.Some? && newLeaf < |nodes| && AllFit(nodes)
      requires Linked(nodes, links, root.value, newLeaf, maxChildren)
      requires PathTo(nodes, links, root.value, insertPath, current)
      requires bestPos < |nodes[current].kind.children| && nodes[current].kind.children[bestPos] < |nodes|
      requires nodes[nodes[current].kind.children[bestPos]].kind.Leaf?
      modifies this`nodes, this`links, this`boxOf
      ensures Linked(nodes, links, root.value, NO_NODE, maxChildren)
      ensures PathTo(nodes, links, root.value, insertPath, current)
      ensures FitsExcept(nodes, current)
      ensures Ready(nodes, current, old(nodes[newLeaf].bounds), old(nodes[newLeaf].maxOrder), None)
      ensures SameLeaves(old(nodes), nodes) && |nodes| == |old(nodes)| + 1
      ensures boxOf == old(boxOf) + [0]
      ensures var node, best := old(nodes[current]), old(nodes[current].kind.children[bestPos]);
        var pair := Pair(old(nodes), best, newLeaf);
        nodes == old(nodes)[current := node.(kind := Internal(Replaced(node.kind.children, bestPos, |old(nodes)|,
                                                                       pair.maxOrder > node.maxOrder)))] + [pair]
    {
      var bounds, order := nodes[newLeaf].bounds, nodes[newLeaf].maxOrder;
      var bestChild := nodes[current].kind.children[bestPos];
      var siblingBounds, siblingOrder := nodes[bestChild].bounds, nodes[bestChild].maxOrder;
      var newChildren := if order > siblingOrder then [bestChild, newLeaf] else [newLeaf, bestChild];
      var newInternal := |nodes|;
      var newInternalMax := Max(siblingOrder, order);
      ghost var before := nodes;
      nodes := nodes + [Node(siblingBounds.Union(bounds), newInternalMax, Internal(newChildren))];

      var parent := nodes[current];
      var children := parent.kind.children;
      var childrenLen := |children|;
      children := children[bestPos := newInternal];
      if newInternalMax > parent.maxOrder {
        children := Swap(children, bestPos, childrenLen - 1);
      }
      nodes := nodes[current := parent.(kind := Internal(children))];

      ghost var pair := Pair(before, bestChild, newLeaf);
      assert nodes == before[current := nodes[current]] + [pair];
      SplitStep(before, links, root.value, newLeaf, maxChildren, current, bestPos, nodes[current], pair, insertPath);
      links := LinksWithSplit(links, current, bestChild, newLeaf);
      boxOf := boxOf + [0];
    }

    /** One node of the upward pass: its box, its maximum and, if that grew, the place of the child that grew it. */
    method RaiseNode(nodeIdx: nat, bounds: Bounds, order: nat, updatedChild: Option<nat>)
      requires nodeIdx < |nodes| && nodes[nodeIdx].kind.Internal?
      modifies this`nodes
      ensures nodes == old(nodes)[nodeIdx := Raised(old(nodes)[nodeIdx], bounds, order, updatedChild)]
    {
      var node := nodes[nodeIdx];
      var raised := node.(bounds := node.bounds.Union(bounds));
      if raised.maxOrder < order {
        raised := raised.(maxOrder := order);
        if updatedChild.Some? {
          var pos := Position(raised.kind.children, updatedChild.value);
          if pos.Some? {
            var last := |raised.kind.children| - 1;
            if pos.value != last {
              raised := raised.(kind := Internal(Swap(raised.kind.children, pos.value, last)));
            }
          }
        }
      }
      assert raised == Raised(node, bounds, order, updatedChild);
      nodes := nodes[nodeIdx := raised];
    }

    /** Walks the insert path upwards, widening boxes, raising maxima and moving raised children to the end. */
    method Propagate(bounds: Bounds, order: nat, ghost before: seq<Node>)
      requires root.Some? && Linked(before, links, root.value, NO_NODE, maxChildren)
      requires insertPath != [] && PathTo(before, links, root.value, insertPath, Last(insertPath))
      requires FitsExcept(before, Last(insertPath))
      requires Ready(before, Last(insertPath), bounds, order, None)
      requires nodes == before || nodes == before[Last(insertPath) := Raised(before[Last(insertPath)], bounds, order, None)]
      modifies this`nodes
      ensures Linked(nodes, links, root.value, NO_NODE, maxChildren) && AllFit(nodes)
      ensures SameLeaves(before, nodes) && |nodes| == |before|
    {
      var updatedChild: Option<nat> := None;
      var k := |insertPath|;
      ghost var view := before;
      while k > 0
        invariant 0 <= k <= |insertPath|
        invariant Linked(view, links, root.value, NO_NODE, maxChildren)
        invariant PathTo(view, links, root.value, insertPath, Last(insertPath))
        invariant if k > 0 then FitsExcept(view, insertPath[k - 1]) else AllFit(view)
        invariant k > 0 ==> Ready(view, insertPath[k - 1], bounds, order, updatedChild)
        invariant SameLeaves(before, view) && |view| == |before|
        invariant if k == |insertPath| then updatedChild.None? && view == before && nodes == old(nodes) else nodes == view
      {
        k := k - 1;
        var nodeIdx := insertPath[k];
        RaisedAgain(view, nodes, nodeIdx, bounds, order, updatedChild);
        RaiseNode(nodeIdx, bounds, order, updatedChild);

        RaisingOnPath(view, links, root.value, maxChildren, insertPath, k, bounds, order, updatedChild);
        view := view[nodeIdx := Raised(view[nodeIdx], bounds, order, updatedChild)];
        updatedChild := Some(nodeIdx);
      }
    }
  }

  /** A whole run from an empty tree returns exactly the orders the specification assigns. */
  method InsertAll(tree: BoundsTree, bounds: seq<Bounds>) returns (orders: seq<nat>)
    requires tree.Valid() && tree.boxes == []
    modifies tree
    ensures tree.Valid() && tree.boxes == bounds
    ensures orders == Orders(bounds)
  {
    orders := [];
    for i := 0 to |bounds|
      invariant tree.Valid() && tree.boxes == bounds[..i]
      invariant orders == Orders(bounds[..i])
    {
      var order := tree.Insert(bounds[i]);
      assert bounds[..i + 1] == bounds[..i] + [bounds[i]];
      LastOrder(bounds[..i], bounds[i]);
      orders := orders + [order];
    }
    assert bounds[..|bounds|] == bounds;
  }

  /** The first child whose box grows to the least half-perimeter. */
  method CheapestChild(nodes: seq<Node>, children: seq<nat>, bounds: Bounds) returns (bestPos: nat)
    requires children != [] && forall j :: 0 <= j < |children| ==> children[j] < |nodes|
    ensures bestPos < |children|
    ensures forall j :: 0 <= j < |children| ==> Cost(nodes, bounds, children[bestPos]) <= Cost(nodes, bounds, children[j])
    ensures forall j :: 0 <= j < bestPos ==> Cost(nodes, bounds, children[bestPos]) < Cost(nodes, bounds, children[j])
  {
    bestPos := 0;
    var bestCost := Cost(nodes, bounds, children[0]);
    for pos := 1 to |children|
      invariant bestPos < pos && bestCost == Cost(nodes, bounds, children[bestPos])
      invariant forall j :: 0 <= j < pos ==> bestCost <= Cost(nodes, bounds, children[j])
      invariant forall j :: 0 <= j < bestPos ==> bestCost < Cost(nodes, bounds, children[j])
    {
      var cost := Cost(nodes, bounds, children[pos]);
      if cost < bestCost {
        bestCost, bestPos := cost, pos;
      }
    }
  }

  /** The child at `pos` is the first of the cheapest children of node `p`. */
  ghost predicate Cheapest(nodes: seq<Node>, bounds: Bounds, p: nat, pos: nat) {
    && p < |nodes| && nodes[p].kind.Internal? && pos < |nodes[p].kind.children|
    && (forall j :: 0 <= j < |nodes[p].kind.children| ==> nodes[p].kind.children[j] < |nodes|)
    && var ch := nodes[p].kind.children;
       && (forall j :: 0 <= j < |ch| ==> Cost(nodes, bounds, ch[pos]) <= Cost(nodes, bounds, ch[j]))
       && forall j :: 0 <= j < pos ==> Cost(nodes, bounds, ch[pos]) < Cost(nodes, bounds, ch[j])
  }

  ghost predicate DescendsTo(nodes: seq<Node>, bounds: Bounds, p: nat, c: nat) {
    exists pos: nat :: Cheapest(nodes, bounds, p, pos) && nodes[p].kind.children[pos] == c
  }

  /** Each step of the path goes to a first-cheapest child. */
  ghost predicate AlwaysCheapest(nodes: seq<Node>, bounds: Bounds, path: seq<nat>) {
    forall k :: 0 <= k < |path| - 1 ==> DescendsTo(nodes, bounds, path[k], path[k + 1])
  }

  function Cost(nodes: seq<Node>, bounds: Bounds, child: nat): real
    requires child < |nodes|
  {
    bounds.Union(nodes[child].bounds).HalfPerimeter()
  }

  /** `path` leads from the root down through internal nodes to `end`. */
  ghost predicate PathTo(nodes: seq<Node>, l: Links, root: nat, path: seq<nat>, end: nat) {
    && |l.parent| == |l.depth| == |nodes|
    && path != [] && path[0] == root && Last(path) == end && end < |nodes| && nodes[end].kind.Internal?
    && forall k :: 0 <= k < |path| ==>
        && path[k] < |nodes| && nodes[path[k]].kind.Internal? && l.depth[path[k]] == k
        && (k > 0 ==> l.parent[path[k]] == path[k - 1])
  }

  lemma PathExtends(nodes: seq<Node>, l: Links, root: nat, path: seq<nat>, c: nat)
    requires |l.parent| == |l.depth| == |nodes| && c < |nodes| && nodes[c].kind.Internal? && l.depth[c] == |path|
    requires path == [] ==> c == root
    requires path != [] ==> PathTo(nodes, l, root, path, Last(path)) && l.parent[c] == Last(path)
    ensures PathTo(nodes, l, root, path + [c], c)
  {
  }

  lemma NotOwnChild(nodes: seq<Node>, l: Links, root: nat, loose: int, cap: nat, p: nat)
    requires Linked(nodes, l, root, loose, cap) && p < |nodes| && nodes[p].kind.Internal?
    ensures p !in nodes[p].kind.children
  {
    assert NodeLinked(nodes, l, root, loose, cap, p);
  }

  ghost predicate FitsExcept(nodes: seq<Node>, q: nat) {
    forall i :: 0 <= i < |nodes| && i != q ==> Fits(nodes, i)
  }

  /** The leaf at `m` has the largest order of all. */
  ghost predicate MaximalLeaf(nodes: seq<Node>, boxes: seq<Bounds>, m: nat) {
    && m < |nodes|
    && nodes[m].kind == Leaf(nodes[m].maxOrder)
    && forall k :: 0 <= k < |boxes| ==> Orders(boxes)[k] <= nodes[m].maxOrder
  }

  lemma LastOrder(boxes: seq<Bounds>, box: Bounds)
    ensures Orders(boxes + [box]) == Orders(boxes) + [1 + MaxHit(boxes, Orders(boxes), box)]
  {
    assert (boxes + [box])[..|boxes|] == boxes;
  }

  /** The old maximal leaf stays maximal unless the new order is strictly larger. */
  lemma MaximalAfterInsert(nodes: seq<Node>, after: seq<Node>, boxes: seq<Bounds>, box: Bounds, order: nat,
                           maxLeaf: Option<nat>)
    requires order == 1 + MaxHit(boxes, Orders(boxes), box)
    requires SameLeaves(nodes + [Node(box, order, Leaf(order))], after)
    requires if maxLeaf.Some? then MaximalLeaf(nodes, boxes, maxLeaf.value) else boxes == []
    ensures maxLeaf.Some? && after[maxLeaf.value].maxOrder >= order ==> MaximalLeaf(after, boxes + [box], maxLeaf.value)
    ensures maxLeaf.None? || after[maxLeaf.value].maxOrder < order ==> MaximalLeaf(after, boxes + [box], |nodes|)
  {
    LastOrder(boxes, box);
    var pushed := nodes + [Node(box, order, Leaf(order))];
    assert after[|nodes|] == pushed[|nodes|];
    if maxLeaf.Some? {
      assert after[maxLeaf.value] == pushed[maxLeaf.value] == nodes[maxLeaf.value];
    }
  }

  /** What `SplitChild` leaves behind: linked again, and only `p` still to be raised. */
  lemma SplitStep(nodes: seq<Node>, l: Links, root: nat, leaf: nat, cap: nat, p: nat, pos: nat, node: Node, pair: Node,
                  path: seq<nat>)
    requires cap >= 2 && leaf < |nodes| && AllFit(nodes) && Linked(nodes, l, root, leaf, cap)
    requires PathTo(nodes, l, root, path, p)
    requires pos < |nodes[p].kind.children| && nodes[p].kind.children[pos] < |nodes|
    requires nodes[nodes[p].kind.children[pos]].kind.Leaf?
    requires pair == Pair(nodes, nodes[p].kind.children[pos], leaf)
    requires node == nodes[p].(kind := Internal(Replaced(nodes[p].kind.children, pos, |nodes|, pair.maxOrder > nodes[p].maxOrder)))
    ensures var best := nodes[p].kind.children[pos];
      var nodes', l' := nodes[p := node] + [pair], LinksWithSplit(l, p, best, leaf);
      && Linked(nodes', l', root, NO_NODE, cap)
      && PathTo(nodes', l', root, path, p)
      && FitsExcept(nodes', p)
      && Ready(nodes', p, nodes[leaf].bounds, nodes[leaf].maxOrder, None)
      && SameLeaves(nodes, nodes')
  {
    var best := nodes[p].kind.children[pos];
    assert best in nodes[p].kind.children;
    assert NodeLinked(nodes, l, root, leaf, cap, p) && NodeLinked(nodes, l, root, leaf, cap, best) && Fits(nodes, p);
    NotOwnChild(nodes, l, root, leaf, cap, p);
    ReplacedElements(nodes[p].kind.children, pos, |nodes|, pair.maxOrder > nodes[p].maxOrder);
    SplittingReadies(nodes, p, pos, leaf, nodes[leaf].maxOrder, node);
    SplittingKeepsLinks(nodes, l, root, leaf, cap, p, best, node, pair);
    SplittingFitsElsewhere(nodes, p, best, leaf, node);
    SplittingKeepsPath(nodes, l, root, leaf, p, best, node, pair, path);
    SplittingKeepsLeaves(nodes, p, node, pair);
  }

  lemma JoiningFitsElsewhere(nodes: seq<Node>, p: nat, node: Node)
    requires AllFit(nodes) && p < |nodes| && node.bounds == nodes[p].bounds && node.maxOrder == nodes[p].maxOrder
    ensures FitsExcept(nodes[p := node], p)
  {
    var nodes' := nodes[p := node];
    forall i | 0 <= i < |nodes| && i != p
      ensures Fits(nodes', i)
    {
      FitsWithSameSummary(nodes, i, p, node);
    }
  }

  lemma SplittingKeepsPath(nodes: seq<Node>, l: Links, root: nat, leaf: nat, p: nat, best: nat, node: Node, pair: Node,
                           path: seq<nat>)
    requires PathTo(nodes, l, root, path, p) && node.kind.Internal? && pair.kind.Internal?
    requires best < |nodes| && leaf < |nodes| && nodes[best].kind.Leaf? && nodes[leaf].kind.Leaf?
    ensures PathTo(nodes[p := node] + [pair], LinksWithSplit(l, p, best, leaf), root, path, p)
  {
  }

  lemma SplittingKeepsLeaves(nodes: seq<Node>, p: nat, node: Node, pair: Node)
    requires p < |nodes| && nodes[p].kind.Internal? && node.kind.Internal? && pair.kind.Internal?
    ensures SameLeaves(nodes, nodes[p := node] + [pair])
  {
  }

  lemma SplittingFitsElsewhere(nodes: seq<Node>, p: nat, best: nat, leaf: nat, node: Node)
    requires AllFit(nodes) && p < |nodes| && best < |nodes| && leaf < |nodes| && p != best && p != leaf
    requires node.bounds == nodes[p].bounds && node.maxOrder == nodes[p].maxOrder
    ensures FitsExcept(nodes[p := node] + [Pair(nodes, best, leaf)], p)
  {
    var view, pair := nodes[p := node], Pair(nodes, best, leaf);
    PairFits(view, best, leaf);
    assert pair == Pair(view, best, leaf);
    forall i | 0 <= i < |view + [pair]| && i != p
      ensures Fits(view + [pair], i)
    {
      if i < |nodes| {
        FitsWithSameSummary(nodes, i, p, node);
        FitsAfterPush(view, i, pair);
      }
    }
  }

  lemma RaisingOnPath(nodes: seq<Node>, l: Links, root: nat, cap: nat, path: seq<nat>, k: nat, box: Bounds, order: nat,
                      updated: Option<nat>)
    requires Linked(nodes, l, root, NO_NODE, cap) && k < |path| && PathTo(nodes, l, root, path, Last(path))
    requires FitsExcept(nodes, path[k])
    requires Ready(nodes, path[k], box, order, updated)
    ensures var nodes' := nodes[path[k] := Raised(nodes[path[k]], box, order, updated)];
      && Linked(nodes', l, root, NO_NODE, cap)
      && PathTo(nodes', l, root, path, Last(path))
      && SameLeaves(nodes, nodes')
      && (if k > 0 then FitsExcept(nodes', path[k - 1]) else AllFit(nodes'))
      && (k > 0 ==> nodes'[path[k - 1]].kind.Internal? && Ready(nodes', path[k - 1], box, order, Some(path[k])))
  {
    var q := path[k];
    var node := Raised(nodes[q], box, order, updated);
    assert NodeLinked(nodes, l, root, NO_NODE, cap, q);
    NotOwnChild(nodes, l, root, NO_NODE, cap, q);
    RaisedPermutes(nodes[q], box, order, updated);
    PermutingKeepsLinks(nodes, l, root, NO_NODE, cap, q, node);
    RaisedFits(nodes, q, box, order, updated);
    RaisingFitsAbove(nodes, l, root, cap, q, node);
    PathNodes(nodes, l, root, path, k);
    if k > 0 {
      NotOwnChild(nodes, l, root, NO_NODE, cap, path[k - 1]);
      RaisedChildReadiesParent(nodes, path[k - 1], q, node, box, order);
    }
  }

  lemma PathNodes(nodes: seq<Node>, l: Links, root: nat, path: seq<nat>, k: nat)
    requires k < |path| && PathTo(nodes, l, root, path, Last(path))
    ensures if k == 0 then path[k] == root else l.depth[path[k]] > 0 && l.parent[path[k]] == path[k - 1]
  {
  }

  /** Once node `q` fits again, only its parent can be stale. */
  lemma RaisingFitsAbove(nodes: seq<Node>, l: Links, root: nat, cap: nat, q: nat, node: Node)
    requires Linked(nodes, l, root, NO_NODE, cap) && q < |nodes| && FitsExcept(nodes, q) && Fits(nodes[q := node], q)
    ensures if q == root then AllFit(nodes[q := node]) else FitsExcept(nodes[q := node], l.parent[q])
  {
    var nodes' := nodes[q := node];
    forall i | 0 <= i < |nodes| && i != q && (q == root || i != l.parent[q])
      ensures Fits(nodes', i)
    {
      assert NodeLinked(nodes, l, root, NO_NODE, cap, i);
      FitsElsewhere(nodes, i, q, node);
    }
  }

  /** Raising a node that was already raised for the new leaf changes nothing more. */
  lemma RaisedAgain(view: seq<Node>, nodes: seq<Node>, q: nat, box: Bounds, order: nat, updated: Option<nat>)
    requires q < |view| && view[q].kind.Internal?
    requires nodes == view || (updated.None? && nodes == view[q := Raised(view[q], box, order, None)])
    ensures nodes[q := Raised(nodes[q], box, order, updated)] == view[q := Raised(view[q], box, order, updated)]
  {
    RaisedTwice(view[q], box, order);
  }
}
