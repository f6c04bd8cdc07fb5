/** The planner's node arena and the structure its parent and child links form.

    Nodes are addressed by their index in the arena: the start is created
    first, the goal second, and every node the tree builder steers to is
    appended after them. A parent link always points at an earlier-created
    node, except the goal's, which points at the node it was reached from;
    nothing ever points at the goal as a parent. Walking parent links from
    any node therefore terminates, at the start or at the unconnected goal. */
module ParentLinks {
  import opened Values
  import opened Nodes

  /** No entry of `s` occurs twice. */
  ghost predicate Distinct(s: seq<nat>)
  {
    forall a, b :: 0 <= a < b < |s| ==> s[a] != s[b]
  }

  /** Arena index of the start node. */
  const Start: nat := 0
  /** Arena index of the goal node. */
  const Goal: nat := 1

  predicate LinkInRange(link: Option<nat>, size: nat)
  {
    link.Some? ==> link.value < size
  }

  /** Parent links point at earlier nodes (the goal's at any non-goal node) and never at the goal. */
  ghost predicate ParentsOrdered(nodes: seq<Node>)
  {
    && 2 <= |nodes|
    && nodes[Start].parent.None?
    && (forall i :: 0 <= i < |nodes| ==>
          LinkInRange(nodes[i].parent, |nodes|) && LinkInRange(nodes[i].child, |nodes|))
    && (forall i :: 0 <= i < |nodes| && nodes[i].parent.Some? ==>
          nodes[i].parent.value != Goal && (i != Goal ==> nodes[i].parent.value < i))
  }

  /** Every created node (all but the start and the goal) has a parent. */
  ghost predicate CreatedNodesLinked(nodes: seq<Node>)
  {
    forall i :: 2 <= i < |nodes| ==> nodes[i].parent.Some?
  }

  /** A node's recorded child names it as parent, and every parent has a recorded child. */
  ghost predicate ChildrenConsistent(nodes: seq<Node>)
    requires ParentsOrdered(nodes)
  {
    && (forall i :: 0 <= i < |nodes| && nodes[i].child.Some? ==>
          nodes[nodes[i].child.value].parent == Some(i))
    && (forall i :: 0 <= i < |nodes| && nodes[i].parent.Some? ==>
          nodes[nodes[i].parent.value].child.Some?)
  }

  /** The start costs 0.0 and every linked node costs its parent's cost plus the edge length. */
  ghost predicate CostsConsistent(nodes: seq<Node>, root: real -> real)
    requires ParentsOrdered(nodes) && IsSquareRoot(root)
  {
    && nodes[Start].cost == 0.0
    && (forall i :: 0 <= i < |nodes| && nodes[i].parent.Some? ==>
          nodes[i].cost == nodes[nodes[i].parent.value].cost + Dist(nodes[i], nodes[nodes[i].parent.value], root))
  }

  /** The invariant the tree builder keeps on the arena. */
  ghost predicate Arena(nodes: seq<Node>, root: real -> real)
  {
    && IsSquareRoot(root)
    && ParentsOrdered(nodes)
    && CreatedNodesLinked(nodes)
    && ChildrenConsistent(nodes)
    && CostsConsistent(nodes, root)
  }

  /** A measure that every parent link decreases: the goal ranks above every other node. */
  function Rank(nodes: seq<Node>, i: nat): (rank: nat)
    ensures i == Goal ==> |nodes| <= rank
    ensures i != Goal ==> rank == i
  {
    if i == Goal then |nodes| else i
  }

  /** The nodes met by following parent links from `i`, excluding `i` itself. */
  function Ancestors(nodes: seq<Node>, i: nat): (r: seq<nat>)
    requires ParentsOrdered(nodes) && i < |nodes|
    ensures forall k :: 0 <= k < |r| ==> r[k] < |nodes| && r[k] != Goal && Rank(nodes, r[k]) < Rank(nodes, i)
    decreases Rank(nodes, i)
  {
    match nodes[i].parent
    case None => []
    case Some(p) => [p] + Ancestors(nodes, p)
  }

  /** `i` followed by its ancestors: the list `_return_path` builds when `i` is the goal. */
  function ParentChain(nodes: seq<Node>, i: nat): (chain: seq<nat>)
    requires ParentsOrdered(nodes) && i < |nodes|
    ensures |chain| >= 1 && chain[0] == i
    ensures forall k :: 0 <= k < |chain| ==> chain[k] < |nodes|
  {
    [i] + Ancestors(nodes, i)
  }

  /** Sum of the edge lengths between consecutive entries of `path`. */
  function PathLength(nodes: seq<Node>, path: seq<nat>, root: real -> real): (length: real)
    requires IsSquareRoot(root)
    requires forall k :: 0 <= k < |path| ==> path[k] < |nodes|
    ensures 0.0 <= length
  {
    if |path| < 2 then 0.0
    else Dist(nodes[path[0]], nodes[path[1]], root) + PathLength(nodes, path[1..], root)
  }

  /** Consecutive entries of a parent chain are joined by parent links, and it
      ends at a node without a parent. */
  lemma {:induction false} ParentChainLinked(nodes: seq<Node>, i: nat)
    requires ParentsOrdered(nodes) && i < |nodes|
    ensures var c := ParentChain(nodes, i);
      && c[0] == i
      && (forall k :: 0 <= k < |c| - 1 ==> nodes[c[k]].parent == Some(c[k + 1]))
      && nodes[c[|c| - 1]].parent.None?
    decreases Rank(nodes, i)
  {
    var c := ParentChain(nodes, i);
    match nodes[i].parent
    case None =>
    case Some(p) =>
      ParentChainLinked(nodes, p);
      assert c == [i] + ParentChain(nodes, p);
  }

  /** Ranks strictly decrease along a parent chain, so its entries are distinct. */
  lemma {:induction false} ParentChainDistinct(nodes: seq<Node>, i: nat)
    requires ParentsOrdered(nodes) && i < |nodes|
    ensures var c := ParentChain(nodes, i);
      && (forall a, b :: 0 <= a < b < |c| ==> Rank(nodes, c[b]) < Rank(nodes, c[a]))
      && Distinct(c)
    decreases Rank(nodes, i)
  {
    var c := ParentChain(nodes, i);
    match nodes[i].parent
    case None =>
    case Some(p) =>
      ParentChainDistinct(nodes, p);
      assert c == [i] + ParentChain(nodes, p);
  }

  /** When every created node is linked, a parent chain that leaves its first
      node ends at the start. */
  lemma {:induction false} ParentChainEndsAtStart(nodes: seq<Node>, i: nat)
    requires ParentsOrdered(nodes) && CreatedNodesLinked(nodes) && i < |nodes|
    requires i != Goal || nodes[Goal].parent.Some?
    ensures var c := ParentChain(nodes, i); c[|c| - 1] == Start
    decreases Rank(nodes, i)
  {
    var c := ParentChain(nodes, i);
    match nodes[i].parent
    case None =>
      assert i == Start;
    case Some(p) =>
      ParentChainEndsAtStart(nodes, p);
      assert c == [i] + ParentChain(nodes, p);
  }

  /** A node's stored cost is the length of its parent chain plus the cost of the chain's last node. */
  lemma {:induction false} ParentChainCost(nodes: seq<Node>, i: nat, root: real -> real)
    requires Arena(nodes, root) && i < |nodes|
    ensures var c := ParentChain(nodes, i);
      nodes[i].cost == PathLength(nodes, c, root) + nodes[c[|c| - 1]].cost
    decreases Rank(nodes, i)
  {
    var c := ParentChain(nodes, i);
    match nodes[i].parent
    case None =>
    case Some(p) =>
      ParentChainCost(nodes, p, root);
      var c' := ParentChain(nodes, p);
      assert c == [i] + c';
      assert c[1..] == c';
  }

  /** The arena after `_add_node_to_tree`: `nearest` records the new node as its
      child and `node` is appended. */
  function Attach(nodes: seq<Node>, nearest: nat, node: Node): (r: seq<Node>)
    requires nearest < |nodes|
    ensures |r| == |nodes| + 1 && r[|nodes|] == node
    ensures r[nearest].child == Some(|nodes|)
    ensures forall i :: 0 <= i < |nodes| ==>
      r[i].x == nodes[i].x && r[i].y == nodes[i].y && r[i].parent == nodes[i].parent && r[i].cost == nodes[i].cost
    ensures forall i :: 0 <= i < |nodes| && i != nearest ==> r[i] == nodes[i]
  {
    nodes[nearest := nodes[nearest].(child := Some(|nodes|))] + [node]
  }

  /** The node `_add_node_to_tree` creates at (x, y) under `nearest`. */
  function SteeredNode(nodes: seq<Node>, nearest: nat, x: real, y: real, root: real -> real): (n: Node)
    requires nearest < |nodes| && IsSquareRoot(root)
    ensures n.x == x && n.y == y && n.parent == Some(nearest) && n.child.None?
    ensures n.cost == nodes[nearest].cost + Dist(n, nodes[nearest], root)
  {
    var made := NewNode(x, y);
    var n := made.(parent := Some(nearest), cost := nodes[nearest].cost + Dist(made, nodes[nearest], root));
    DistOnlyReadsPositions(made, n, nodes[nearest], nodes[nearest], root);
    n
  }

  /** Attaching a steered node under any node but the goal keeps the arena invariant. */
  lemma {:induction false} AttachKeepsArena(nodes: seq<Node>, nearest: nat, x: real, y: real, root: real -> real)
    requires Arena(nodes, root) && nearest < |nodes| && nearest != Goal
    ensures Arena(Attach(nodes, nearest, SteeredNode(nodes, nearest, x, y, root)), root)
  {
    var n := SteeredNode(nodes, nearest, x, y, root);
    AttachKeepsOrder(nodes, nearest, n);
    var r := Attach(nodes, nearest, n);
    assert CreatedNodesLinked(r);
    AttachKeepsChildren(nodes, nearest, n);
    AttachKeepsCosts(nodes, nearest, n, root);
  }

  lemma {:induction false} AttachKeepsOrder(nodes: seq<Node>, nearest: nat, n: Node)
    requires ParentsOrdered(nodes) && nearest < |nodes| && nearest != Goal
    requires n.parent == Some(nearest) && n.child.None?
    ensures ParentsOrdered(Attach(nodes, nearest, n))
  {
    var r := Attach(nodes, nearest, n);
    forall i | 0 <= i < |r|
      ensures LinkInRange(r[i].parent, |r|) && LinkInRange(r[i].child, |r|)
    {
      if i < |nodes| {
        assert LinkInRange(nodes[i].parent, |nodes|) && LinkInRange(nodes[i].child, |nodes|);
      }
    }
  }

  lemma {:induction false} AttachKeepsChildren(nodes: seq<Node>, nearest: nat, n: Node)
    requires ParentsOrdered(nodes) && ChildrenConsistent(nodes) && nearest < |nodes| && nearest != Goal
    requires n.parent == Some(nearest) && n.child.None?
    requires ParentsOrdered(Attach(nodes, nearest, n))
    ensures ChildrenConsistent(Attach(nodes, nearest, n))
  {
    var r := Attach(nodes, nearest, n);
    forall i | 0 <= i < |r| && r[i].child.Some?
      ensures r[r[i].child.value].parent == Some(i)
    {
      if i != nearest && i < |nodes| {
        assert r[i] == nodes[i];
      }
    }
  }

  lemma {:induction false} AttachKeepsCosts(nodes: seq<Node>, nearest: nat, n: Node, root: real -> real)
    requires IsSquareRoot(root) && ParentsOrdered(nodes) && CostsConsistent(nodes, root)
    requires nearest < |nodes| && nearest != Goal
    requires n.parent == Some(nearest) && n.cost == nodes[nearest].cost + Dist(n, nodes[nearest], root)
    requires ParentsOrdered(Attach(nodes, nearest, n))
    ensures CostsConsistent(Attach(nodes, nearest, n), root)
  {
    var r := Attach(nodes, nearest, n);
    forall i | 0 <= i < |r| && r[i].parent.Some?
      ensures r[i].cost == r[r[i].parent.value].cost + Dist(r[i], r[r[i].parent.value], root)
    {
      var p := r[i].parent.value;
      if i < |nodes| {
        DistOnlyReadsPositions(r[i], nodes[i], r[p], nodes[p], root);
      } else {
        DistOnlyReadsPositions(n, n, r[p], nodes[p], root);
      }
    }
  }

  /** The arena after `_check_if_at_goal` succeeds for `newNode`: the goal is
      linked under it and `newNode` records the goal as its child. */
  function ConnectGoal(nodes: seq<Node>, newNode: nat, root: real -> real): (r: seq<Node>)
    requires newNode < |nodes| && Goal < |nodes| && newNode != Goal && IsSquareRoot(root)
    ensures |r| == |nodes|
    ensures r[Goal].parent == Some(newNode) && r[newNode].child == Some(Goal)
    ensures r[Goal].cost == nodes[newNode].cost + Dist(nodes[Goal], nodes[newNode], root)
    ensures r[Goal].child == nodes[Goal].child
    ensures r[newNode].parent == nodes[newNode].parent && r[newNode].cost == nodes[newNode].cost
    ensures forall i :: 0 <= i < |nodes| ==> r[i].x == nodes[i].x && r[i].y == nodes[i].y
    ensures forall i :: 0 <= i < |nodes| && i != Goal && i != newNode ==> r[i] == nodes[i]
  {
    var goal := nodes[Goal].(parent := Some(newNode),
                             cost := nodes[newNode].cost + Dist(nodes[Goal], nodes[newNode], root));
    nodes[newNode := nodes[newNode].(child := Some(Goal))][Goal := goal]
  }

  /** Connecting the unconnected goal under a non-goal node keeps the arena invariant. */
  lemma {:induction false} ConnectGoalKeepsArena(nodes: seq<Node>, newNode: nat, root: real -> real)
    requires Arena(nodes, root) && newNode < |nodes| && newNode != Goal
    requires nodes[Goal].parent.None?
    ensures Arena(ConnectGoal(nodes, newNode, root), root)
  {
    var r := ConnectGoal(nodes, newNode, root);
    forall i | 0 <= i < |r| && r[i].parent.Some?
      ensures r[i].cost == r[r[i].parent.value].cost + Dist(r[i], r[r[i].parent.value], root)
    {
      var p := r[i].parent.value;
      DistOnlyReadsPositions(r[i], nodes[i], r[p], nodes[p], root);
    }
  }
}
