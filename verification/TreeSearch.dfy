/** Why the pruned stack search of `find_max_ordering` misses nothing. */
module TreeSearch {
  import opened Common
  import opened Geometry
  import opened PaintOrder
  import opened TreeShape

  /** The node cannot raise the result any more. */
  ghost predicate Settled(node: Node, query: Bounds, found: nat) {
    node.maxOrder <= found || !query.Intersects(node.bounds)
  }

  ghost predicate Expanded(nodes: seq<Node>, i: nat, found: nat, visited: set<nat>, stack: seq<nat>)
    requires i < |nodes|
  {
    && nodes[i].kind.Internal?
    && forall c :: c in nodes[i].kind.children && c < |nodes| ==>
        nodes[c].maxOrder <= found || c in visited || c in stack
  }

  /** Every popped node is settled or has had its promising children pushed. */
  ghost predicate Frontier(nodes: seq<Node>, root: nat, query: Bounds, found: nat, visited: set<nat>, stack: seq<nat>) {
    && (root in visited || root in stack)
    && forall i :: i in visited ==>
        i < |nodes| && (Settled(nodes[i], query, found) || Expanded(nodes, i, found, visited, stack))
  }

  /** Nothing is pushed twice: stacked nodes are distinct and unvisited, and parents are visited first. */
  ghost predicate StackOk(nodes: seq<Node>, l: Links, root: nat, visited: set<nat>, stack: seq<nat>)
    requires |l.parent| == |nodes|
  {
    && Distinct(stack)
    && (forall v :: v in visited ==> v < |nodes| && (v == root || l.parent[v] in visited))
    && forall c :: c in stack ==> c < |nodes| && c !in visited && (c == root || l.parent[c] in visited)
  }

  /** With an empty stack, every node that could raise the result has been visited. */
  lemma {:induction false} PromisingIsVisited(nodes: seq<Node>, l: Links, root: nat, cap: nat, query: Bounds, found: nat,
                                              visited: set<nat>, i: nat)
    requires Linked(nodes, l, root, NO_NODE, cap) && AllFit(nodes) && i < |nodes|
    requires Frontier(nodes, root, query, found, visited, [])
    requires !Settled(nodes[i], query, found)
    ensures i in visited
    decreases l.depth[i]
  {
    assert NodeLinked(nodes, l, root, NO_NODE, cap, i);
    if i != root {
      var p := l.parent[i];
      assert Fits(nodes, p) && ChildWithin(nodes, i, nodes[p].bounds, nodes[p].maxOrder);
      EnclosureKeepsIntersection(query, nodes[p].bounds, nodes[i].bounds);
      PromisingIsVisited(nodes, l, root, cap, query, found, visited, p);
    }
  }

  /** So when the stack runs empty no intersecting bounds has a larger order than the one found. */
  lemma SearchIsComplete(nodes: seq<Node>, l: Links, root: nat, cap: nat, query: Bounds, found: nat, visited: set<nat>,
                         boxes: seq<Bounds>, leafOf: seq<nat>, boxOf: seq<nat>)
    requires Linked(nodes, l, root, NO_NODE, cap) && AllFit(nodes)
    requires LeavesMatch(nodes, boxes, leafOf, boxOf)
    requires Frontier(nodes, root, query, found, visited, [])
    ensures forall k :: 0 <= k < |boxes| && boxes[k].Intersects(query) ==> Orders(boxes)[k] <= found
  {
    forall k | 0 <= k < |boxes| && boxes[k].Intersects(query)
      ensures Orders(boxes)[k] <= found
    {
      var leaf := leafOf[k];
      assert BoxStored(nodes, boxes, leafOf, boxOf, k);
      IntersectsIsSymmetric(boxes[k], query);
      if Orders(boxes)[k] > found {
        PromisingIsVisited(nodes, l, root, cap, query, found, visited, leaf);
        assert false;
      }
    }
  }

  lemma PoppedIsGone(stack: seq<nat>)
    requires stack != [] && Distinct(stack)
    ensures Distinct(stack[..|stack| - 1]) && Last(stack) !in stack[..|stack| - 1]
    ensures forall c :: c in stack <==> c in stack[..|stack| - 1] || c == Last(stack)
  {
    var rest := stack[..|stack| - 1];
    assert forall k :: 0 <= k < |rest| ==> rest[k] == stack[k];
    assert stack == rest + [Last(stack)];
  }

  lemma DisjointDistinct(s: seq<nat>, t: seq<nat>)
    requires Distinct(s) && Distinct(t) && forall c :: c in t ==> c !in s
    ensures Distinct(s + t)
  {
    forall i, j | 0 <= i < j < |s + t|
      ensures (s + t)[i] != (s + t)[j]
    {
      if i < |s| <= j {
        assert s[i] in s && t[j - |s|] in t;
      }
    }
  }

  /** Popping the top of the stack and settling it. */
  lemma VisitSettled(nodes: seq<Node>, l: Links, root: nat, query: Bounds, found: nat, found': nat,
                     visited: set<nat>, stack: seq<nat>)
    requires |l.parent| == |nodes| && stack != []
    requires Frontier(nodes, root, query, found, visited, stack) && StackOk(nodes, l, root, visited, stack)
    requires found <= found' && Settled(nodes[Last(stack)], query, found')
    ensures var rest := stack[..|stack| - 1];
            Frontier(nodes, root, query, found', visited + {Last(stack)}, rest)
            && StackOk(nodes, l, root, visited + {Last(stack)}, rest)
  {
    var i, rest := Last(stack), stack[..|stack| - 1];
    PoppedIsGone(stack);
    forall c | c in rest
      ensures c < |nodes| && c !in visited + {i} && (c == root || l.parent[c] in visited + {i})
    {
      assert c in stack;
    }
    forall v | v in visited
      ensures Settled(nodes[v], query, found') || Expanded(nodes, v, found', visited + {i}, rest)
    {
    }
  }

  /** Popping the top of the stack when it is an internal node and pushing its promising children. */
  lemma VisitExpanded(nodes: seq<Node>, l: Links, root: nat, cap: nat, query: Bounds, found: nat, visited: set<nat>,
                      stack: seq<nat>, pushed: seq<nat>)
    requires Linked(nodes, l, root, NO_NODE, cap) && stack != []
    requires Frontier(nodes, root, query, found, visited, stack) && StackOk(nodes, l, root, visited, stack)
    requires nodes[Last(stack)].kind.Internal? && Distinct(pushed)
    requires forall c :: c in pushed ==> c in nodes[Last(stack)].kind.children
    requires forall c :: c in nodes[Last(stack)].kind.children && c < |nodes| && nodes[c].maxOrder > found ==> c in pushed
    ensures var after := stack[..|stack| - 1] + pushed;
            Frontier(nodes, root, query, found, visited + {Last(stack)}, after)
            && StackOk(nodes, l, root, visited + {Last(stack)}, after)
  {
    var i, rest := Last(stack), stack[..|stack| - 1];
    var after := rest + pushed;
    PoppedIsGone(stack);
    assert NodeLinked(nodes, l, root, NO_NODE, cap, i);
    forall c | c in pushed
      ensures c < |nodes| && c != root && l.parent[c] == i && c !in visited && c !in stack
    {
      assert NodeLinked(nodes, l, root, NO_NODE, cap, c);
    }
    DisjointDistinct(rest, pushed);
    forall c | c in after
      ensures c < |nodes| && c !in visited + {i} && (c == root || l.parent[c] in visited + {i})
    {
      if c in rest {
        assert c in stack;
      } else {
        assert c in pushed;
      }
    }
    forall v | v in visited
      ensures Settled(nodes[v], query, found) || Expanded(nodes, v, found, visited + {i}, after)
    {
    }
  }

  /** The children that could still raise the result, in their order. */
  function Promising(nodes: seq<Node>, children: seq<nat>, found: nat): seq<nat> {
    if children == [] then []
    else
      var n := |children| - 1;
      Promising(nodes, children[..n], found)
      + if children[n] < |nodes| && nodes[children[n]].maxOrder > found then [children[n]] else []
  }

  lemma {:induction false} PromisingElements(nodes: seq<Node>, children: seq<nat>, found: nat)
    requires Distinct(children)
    ensures Distinct(Promising(nodes, children, found))
    ensures forall c :: c in Promising(nodes, children, found) <==>
                        c in children && c < |nodes| && nodes[c].maxOrder > found
  {
    if children != [] {
      var n := |children| - 1;
      PromisingElements(nodes, children[..n], found);
      assert children == children[..n] + [children[n]];
      PoppedIsGone(children);
    }
  }

  ghost function Indices(n: nat): (r: set<nat>)
    ensures forall i: nat :: i in r <==> i < n
  {
    if n == 0 then {} else Indices(n - 1) + {n - 1}
  }

  /** One iteration of the search, whichever branch it takes, visits the popped node. */
  lemma VisitStep(nodes: seq<Node>, l: Links, root: nat, cap: nat, query: Bounds, found: nat, found': nat,
                  visited: set<nat>, stack: seq<nat>, stack': seq<nat>)
    requires Linked(nodes, l, root, NO_NODE, cap) && stack != []
    requires Frontier(nodes, root, query, found, visited, stack) && StackOk(nodes, l, root, visited, stack)
    requires found <= found'
    requires if Settled(nodes[Last(stack)], query, found') then stack' == stack[..|stack| - 1]
             else found' == found && nodes[Last(stack)].kind.Internal?
                  && stack' == stack[..|stack| - 1] + Promising(nodes, nodes[Last(stack)].kind.children, found)
    ensures Frontier(nodes, root, query, found', visited + {Last(stack)}, stack')
    ensures StackOk(nodes, l, root, visited + {Last(stack)}, stack')
  {
    var top := Last(stack);
    if Settled(nodes[top], query, found') {
      VisitSettled(nodes, l, root, query, found, found', visited, stack);
    } else {
      assert NodeLinked(nodes, l, root, NO_NODE, cap, top);
      PromisingElements(nodes, nodes[top].kind.children, found);
      VisitExpanded(nodes, l, root, cap, query, found, visited, stack,
                    Promising(nodes, nodes[top].kind.children, found));
    }
  }

  lemma LeafBoundsFound(nodes: seq<Node>, boxes: seq<Bounds>, leafOf: seq<nat>, boxOf: seq<nat>, i: nat, query: Bounds)
    requires LeavesMatch(nodes, boxes, leafOf, boxOf)
    requires i < |nodes| && nodes[i].kind.Leaf? && query.Intersects(nodes[i].bounds)
    ensures nodes[i].maxOrder == nodes[i].kind.order <= MaxHit(boxes, Orders(boxes), query)
  {
    var k := boxOf[i];
    assert LeafListed(nodes, boxes, leafOf, boxOf, i) && BoxStored(nodes, boxes, leafOf, boxOf, k);
    IntersectsIsSymmetric(query, boxes[k]);
    MaxHitIsMaximum(boxes, Orders(boxes), query);
  }
}
