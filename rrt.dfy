/** RRT tree growth and path extraction (rrt.py).

    One `Create` call draws a sample, finds the tree node nearest to it,
    steers one step from that node towards the sample, appends the new node
    to the tree and, if the new node is within one step of the goal, links
    the goal under it and extracts the path. */
module Planner {
  import opened Values
  import opened Nodes
  import opened ParentLinks

  /** Workspace extent in millimetres; samples are drawn from [0, 500] x [0, 500]. */
  const WorkspaceLength: real := 500.0
  const WorkspaceHeight: real := 500.0

  /** `_sample_space`: the two `random.uniform(0, 500)` draws become the inputs. */
  function SampleSpace(sampleX: real, sampleY: real): (sample: Node)
    requires 0.0 <= sampleX <= WorkspaceLength && 0.0 <= sampleY <= WorkspaceHeight
    ensures 0.0 <= sample.x <= WorkspaceLength && 0.0 <= sample.y <= WorkspaceHeight
    ensures sample.x == sampleX && sample.y == sampleY
    ensures sample.parent.None? && sample.child.None? && sample.cost == 0.0
  {
    NewNode(sampleX, sampleY)
  }

  /** The position `_add_node_to_tree` steers to from `nearest` towards `sample`.
      Both divisions raise when their divisor is 0.0. */
  function Steer(sample: Node, nearest: Node, stepSize: real, root: real -> real): (r: Outcome<(real, real)>)
    requires IsSquareRoot(root)
    ensures r.Raised? <==> stepSize == 0.0 || Dist(sample, nearest, root) == 0.0
    ensures r.Raised? ==> r.error == ZeroDivisionError
  {
    var distance := Dist(sample, nearest, root);
    if stepSize == 0.0 then Raised(ZeroDivisionError)
    else
      var scaleFactor := distance / stepSize;
      if scaleFactor == 0.0 then Raised(ZeroDivisionError)
      else
        var xDiff := (sample.x - nearest.x) / scaleFactor;
        var yDiff := (sample.y - nearest.y) / scaleFactor;
        Ok((nearest.x + xDiff, nearest.y + yDiff))
  }

  lemma {:induction false} ScaledSquares(dx: real, dy: real, d: real, step: real)
    requires 0.0 < d && step != 0.0 && d * d == dx * dx + dy * dy
    ensures (dx / (d / step)) * (dx / (d / step)) + (dy / (d / step)) * (dy / (d / step)) == step * step
  {
  }

  lemma {:induction false} ScaledProjection(dx: real, dy: real, d: real, step: real)
    requires 0.0 < d && step != 0.0 && d * d == dx * dx + dy * dy
    ensures (dx / (d / step)) * dx + (dy / (d / step)) * dy == d * step
    ensures (dx / (d / step)) * dy == (dy / (d / step)) * dx
  {
  }

  /** Steering always moves exactly `|stepSize|` away from `nearest`, whether the
      sample is farther than one step or closer (in which case the new node
      overshoots the sample). */
  lemma {:induction false} SteerLength(sample: Node, nearest: Node, stepSize: real, root: real -> real)
    requires IsSquareRoot(root)
    ensures var r := Steer(sample, nearest, stepSize, root);
      r.Ok? ==> Dist(NewNode(r.value.0, r.value.1), nearest, root) == Abs(stepSize)
  {
    var r := Steer(sample, nearest, stepSize, root);
    if r.Ok? {
      var d := Dist(sample, nearest, root);
      var dx, dy := sample.x - nearest.x, sample.y - nearest.y;
      DistSquared(sample, nearest, root);
      ScaledSquares(dx, dy, d, stepSize);
      var n := NewNode(r.value.0, r.value.1);
      assert n.x - nearest.x == dx / (d / stepSize);
      assert n.y - nearest.y == dy / (d / stepSize);
      var e := Dist(n, nearest, root);
      DistSquared(n, nearest, root);
      NonNegativeRootOfSquare(e, stepSize);
    }
  }

  /** The step lies on the line through `nearest` and the sample, pointing towards
      the sample when `stepSize` is positive: its projection on the direction of the
      sample is `distance * stepSize`, and its cross product with it is zero. */
  lemma {:induction false} SteerDirection(sample: Node, nearest: Node, stepSize: real, root: real -> real)
    requires IsSquareRoot(root)
    ensures var r := Steer(sample, nearest, stepSize, root);
      var dx, dy := sample.x - nearest.x, sample.y - nearest.y;
      r.Ok? ==>
        && (r.value.0 - nearest.x) * dx + (r.value.1 - nearest.y) * dy == Dist(sample, nearest, root) * stepSize
        && (r.value.0 - nearest.x) * dy == (r.value.1 - nearest.y) * dx
  {
    var r := Steer(sample, nearest, stepSize, root);
    if r.Ok? {
      var d := Dist(sample, nearest, root);
      var dx, dy := sample.x - nearest.x, sample.y - nearest.y;
      DistSquared(sample, nearest, root);
      ScaledProjection(dx, dy, d, stepSize);
      assert r.value.0 - nearest.x == dx / (d / stepSize);
      assert r.value.1 - nearest.y == dy / (d / stepSize);
    }
  }

  /** `q` is the first position in `tree` whose node is nearest to `sample`. */
  ghost predicate FirstNearest(nodes: seq<Node>, tree: seq<nat>, q: nat, sample: Node, root: real -> real)
    requires IsSquareRoot(root)
    requires forall k :: 0 <= k < |tree| ==> tree[k] < |nodes|
  {
    && q < |tree|
    && (forall k :: 0 <= k < |tree| ==>
          Dist(nodes[tree[q]], sample, root) <= Dist(nodes[tree[k]], sample, root))
    && (forall k :: 0 <= k < q ==>
          Dist(nodes[tree[q]], sample, root) < Dist(nodes[tree[k]], sample, root))
  }

  /** The first position in `tree` whose node is nearest to `sample`: the position
      a linear scan keeping the first strict minimum ends on. */
  function FirstNearestAt(nodes: seq<Node>, tree: seq<nat>, sample: Node, root: real -> real): (q: nat)
    requires IsSquareRoot(root) && 0 < |tree|
    requires forall k :: 0 <= k < |tree| ==> tree[k] < |nodes|
    ensures FirstNearest(nodes, tree, q, sample, root)
    decreases |tree|
  {
    var last := |tree| - 1;
    if last == 0 then 0
    else
      var before := tree[..last];
      var q := FirstNearestAt(nodes, before, sample, root);
      assert forall k :: 0 <= k < last ==> before[k] == tree[k];
      if Dist(nodes[tree[last]], sample, root) < Dist(nodes[tree[q]], sample, root) then last else q
  }

  /** The arena after lines 38-41 of `create`: a node steered from the first nearest
      tree node towards `sample`, attached under it; or the error steering raises. */
  function Extended(nodes: seq<Node>, tree: seq<nat>, sample: Node, stepSize: real, root: real -> real)
    : (r: Outcome<seq<Node>>)
    requires IsSquareRoot(root) && 0 < |tree|
    requires forall k :: 0 <= k < |tree| ==> tree[k] < |nodes|
    ensures var nearest := tree[FirstNearestAt(nodes, tree, sample, root)];
      && (r.Raised? <==> stepSize == 0.0 || Dist(sample, nodes[nearest], root) == 0.0)
      && (r.Raised? ==> r.error == ZeroDivisionError)
      && (r.Ok? ==>
            && |r.value| == |nodes| + 1
            && r.value[|nodes|].parent == Some(nearest) && r.value[|nodes|].child.None?
            && r.value[nearest].child == Some(|nodes|)
            && (forall i :: 0 <= i < |nodes| && i != nearest ==> r.value[i] == nodes[i]))
  {
    var nearest := tree[FirstNearestAt(nodes, tree, sample, root)];
    var s := Steer(sample, nodes[nearest], stepSize, root);
    if s.Raised? then Raised(s.error)
    else Ok(Attach(nodes, nearest, SteeredNode(nodes, nearest, s.value.0, s.value.1, root)))
  }

  /** The node `Extended` adds sits where `Steer` moves from the first nearest tree
      node (one step away from it, on the line towards the sample, by `SteerLength`
      and `SteerDirection`), and its cost is that node's cost plus the step length. */
  lemma {:induction false} ExtendedSteersOneStep(nodes: seq<Node>, tree: seq<nat>, sample: Node, stepSize: real,
                                                 root: real -> real)
    requires IsSquareRoot(root) && 0 < |tree|
    requires forall k :: 0 <= k < |tree| ==> tree[k] < |nodes|
    ensures var r := Extended(nodes, tree, sample, stepSize, root);
      var nearest := nodes[tree[FirstNearestAt(nodes, tree, sample, root)]];
      var s := Steer(sample, nearest, stepSize, root);
      r.Ok? ==>
        var n := r.value[|nodes|];
        && s.Ok? && n.x == s.value.0 && n.y == s.value.1
        && Dist(n, nearest, root) == Abs(stepSize)
        && n.cost == nearest.cost + Abs(stepSize)
  {
    var at := tree[FirstNearestAt(nodes, tree, sample, root)];
    var nearest := nodes[at];
    var s := Steer(sample, nearest, stepSize, root);
    if s.Ok? {
      SteerLength(sample, nearest, stepSize, root);
      var n := SteeredNode(nodes, at, s.value.0, s.value.1, root);
      assert Extended(nodes, tree, sample, stepSize, root).value[|nodes|] == n;
      DistOnlyReadsPositions(n, NewNode(s.value.0, s.value.1), nearest, nearest, root);
    }
  }

  /** What one `create` call did. */
  datatype Step =
    | AlreadyAtGoal          // `_success` was set: nothing happens
    | Failed(error: PyError) // steering divided by zero: nothing changes
    | Grown(node: nat)       // a node was added; the goal is still out of reach
    | ReachedGoal(node: nat) // a node was added and the goal was linked under it

  /** One `create` call on a planner that has not reached the goal, with arena `nodes`
      and `tree` before it and `nodes'`, `tree'`, `success'` after it, drawing `sample`:
      it fails exactly when steering raises, changing nothing; otherwise it adds the
      node `Extended` steers to, and also links the goal under that node, exactly when
      the goal is within one step of it. */
  ghost predicate CreateStep(nodes: seq<Node>, tree: seq<nat>, sample: Node, stepSize: real, root: real -> real,
                             step: Step, nodes': seq<Node>, tree': seq<nat>, success': bool)
  {
    && IsSquareRoot(root) && 2 <= |nodes| && 0 < |tree|
    && (forall k :: 0 <= k < |tree| ==> tree[k] < |nodes|)
    && (step.Failed? || step.Grown? || step.ReachedGoal?)
    && var e := Extended(nodes, tree, sample, stepSize, root);
       var n := |nodes|;
       && (step.Failed? <==> e.Raised?)
       && (step.Failed? ==> step.error == ZeroDivisionError && nodes' == nodes && tree' == tree && !success')
       && (e.Ok? ==>
             && step.node == n
             && (step.ReachedGoal? <==> Dist(e.value[Goal], e.value[n], root) <= stepSize)
             && (step.Grown? ==> nodes' == e.value && tree' == tree + [n] && !success')
             && (step.ReachedGoal? ==>
                   nodes' == ConnectGoal(e.value, n, root) && tree' == tree + [n, Goal] && success'))
  }

  /** The planner (class `RRT`). The node objects live in the arena `nodes`;
      `tree` and `pathToGoal` hold arena indices. */
  class Rrt {
    var nodes: seq<Node>
    var tree: seq<nat>
    var pathToGoal: seq<nat>
    var success: bool
    const stepSize: real
    /** The square root `math.dist` uses. */
    const root: real -> real

    /** The arena invariant, `tree` in insertion order (the start, the created
        nodes, then the goal once reached), and `success` exactly when the goal
        is linked. */
    ghost predicate TreeValid()
      reads this`nodes, this`tree, this`success
    {
      && Arena(nodes, root)
      && |tree| == |nodes| - 1 + (if success then 1 else 0)
      && tree[0] == Start
      && (forall k :: 1 <= k < |nodes| - 1 ==> tree[k] == k + 1)
      && (success ==> tree[|tree| - 1] == Goal)
      && (success <==> nodes[Goal].parent.Some?)
    }

    /** `pathToGoal` is the goal followed by its ancestors (just the goal until it is reached). */
    ghost predicate Valid()
      reads this
    {
      TreeValid() && pathToGoal == ParentChain(nodes, Goal)
    }

    /** `RRT.__init__` with fresh start and goal nodes at the given positions. */
    constructor (root: real -> real, startX: real, startY: real, goalX: real, goalY: real, stepSize: real := 20.0)
      requires IsSquareRoot(root)
      ensures Valid()
      ensures nodes == [NewNode(startX, startY), NewNode(goalX, goalY)]
      ensures tree == [Start] && pathToGoal == [Goal] && !success
      ensures this.stepSize == stepSize && this.root == root
    {
      this.root := root;
      this.stepSize := stepSize;
      nodes := [NewNode(startX, startY), NewNode(goalX, goalY)];
      tree := [Start];
      pathToGoal := [Goal];
      success := false;
    }

    /** `_find_nearest_neighbour`: a linear scan keeping the first strict minimum. */
    method FindNearestNeighbour(sample: Node) returns (nearest: Option<nat>)
      requires IsSquareRoot(root)
      requires forall k :: 0 <= k < |tree| ==> tree[k] < |nodes|
      ensures nearest.None? <==> |tree| == 0
      ensures nearest.Some? ==> nearest.value == tree[FirstNearestAt(nodes, tree, sample, root)]
    {
      var minDistance := Inf;
      nearest := None;
      for k := 0 to |tree|
        invariant nearest.None? <==> k == 0
        invariant nearest.None? ==> minDistance == Inf
        invariant nearest.Some? ==>
          var q := FirstNearestAt(nodes, tree[..k], sample, root);
          nearest.value == tree[q] && minDistance == Fin(Dist(nodes[tree[q]], sample, root))
      {
        assert tree[..k + 1][..k] == tree[..k];
        var distance := Dist(nodes[tree[k]], sample, root);
        if Less(Fin(distance), minDistance) {
          minDistance := Fin(distance);
          nearest := Some(tree[k]);
        }
      }
      assert tree[..|tree|] == tree;
    }

    /** `_add_node_to_tree`: steer from `nearest` towards `sample`, append the new
        node to `tree`, link it under `nearest` (overwriting `nearest`'s child) and
        give it its parent's cost plus the edge length. */
    method AddNodeToTree(sample: Node, nearest: nat) returns (added: Outcome<nat>)
      requires Valid() && !success && nearest < |nodes| && nearest != Goal
      modifies this
      ensures Valid() && !success
      ensures var s := Steer(sample, old(nodes)[nearest], stepSize, root);
        && (added.Raised? <==> s.Raised?)
        && (added.Raised? ==> added.error == ZeroDivisionError && nodes == old(nodes) && tree == old(tree))
        && (added.Ok? ==>
              && added.value == old(|nodes|)
              && nodes == Attach(old(nodes), nearest, SteeredNode(old(nodes), nearest, s.value.0, s.value.1, root))
              && tree == old(tree) + [added.value])
      ensures pathToGoal == old(pathToGoal)
    {
      var s := Steer(sample, nodes[nearest], stepSize, root);
      if s.Raised? {
        added := Raised(s.error);
        return;
      }
      var newNode := SteeredNode(nodes, nearest, s.value.0, s.value.1, root);
      AttachKeepsArena(nodes, nearest, s.value.0, s.value.1, root);
      added := Ok(|nodes|);
      nodes := Attach(nodes, nearest, newNode);
      tree := tree + [added.value];
    }

    /** `_check_if_at_goal`: when the goal is within one step of `newNode`, append
        the goal to `tree`, link it under `newNode` with the matching cost and set
        `success`; otherwise change nothing. */
    method CheckIfAtGoal(newNode: nat) returns (atGoal: bool)
      requires TreeValid() && !success && newNode < |nodes| && newNode != Goal
      modifies this
      ensures TreeValid()
      ensures atGoal <==> Dist(old(nodes)[Goal], old(nodes)[newNode], root) <= stepSize
      ensures atGoal ==> nodes == ConnectGoal(old(nodes), newNode, root) && tree == old(tree) + [Goal] && success
      ensures !atGoal ==> nodes == old(nodes) && tree == old(tree) && !success
      ensures pathToGoal == old(pathToGoal)
    {
      atGoal := Dist(nodes[Goal], nodes[newNode], root) <= stepSize;
      if atGoal {
        ConnectGoalKeepsArena(nodes, newNode, root);
        tree := tree + [Goal];
        nodes := ConnectGoal(nodes, newNode, root);
        success := true;
      }
    }

    /** `_return_path`: follow parent links from the goal, appending each parent to `pathToGoal`. */
    method ReturnPath()
      requires ParentsOrdered(nodes)
      modifies this`pathToGoal
      ensures pathToGoal == old(pathToGoal) + Ancestors(nodes, Goal)
    {
      var current: nat := Goal;
      while nodes[current].parent.Some?
        invariant current < |nodes|
        invariant pathToGoal + Ancestors(nodes, current) == old(pathToGoal) + Ancestors(nodes, Goal)
        decreases Rank(nodes, current)
      {
        var parent := nodes[current].parent.value;
        pathToGoal := pathToGoal + [parent];
        current := parent;
      }
    }

    /** `create`: one grow step from the sample at (sampleX, sampleY). Once the goal is
        reached it does nothing. Otherwise it steers from the first nearest tree node:
        when steering divides by zero nothing changes; else the steered node is
        attached, and when it lies within one step of the goal the goal is connected
        under it and the path extracted. */
    method Create(sampleX: real, sampleY: real) returns (step: Step)
      requires Valid()
      requires 0.0 <= sampleX <= WorkspaceLength && 0.0 <= sampleY <= WorkspaceHeight
      modifies this
      ensures Valid()
      ensures old(success) <==> step == AlreadyAtGoal
      ensures step.AlreadyAtGoal? || step.Failed? ==>
        nodes == old(nodes) && tree == old(tree) && success == old(success) && pathToGoal == old(pathToGoal)
      ensures !old(success) ==>
        CreateStep(old(nodes), old(tree), SampleSpace(sampleX, sampleY), stepSize, root, step, nodes, tree, success)
    {
      if success {
        return AlreadyAtGoal;
      }
      var sample := SampleSpace(sampleX, sampleY);
      step := Grow(sample);
    }

    /** Lines 38-44 of `create`, once `_success` is known to be unset. */
    method Grow(sample: Node) returns (step: Step)
      requires Valid() && !success
      modifies this
      ensures Valid()
      ensures step.Failed? ==> pathToGoal == old(pathToGoal)
      ensures CreateStep(old(nodes), old(tree), sample, stepSize, root, step, nodes, tree, success)
    {
      TreeEntries();
      var added := ExtendTowards(sample);
      if added.Raised? {
        return Failed(added.error);
      }
      step := Advance(old(nodes), old(tree), sample, added.value);
    }

    /** Lines 42-44 of `create`: `newNode` was just steered to from `tree0` towards
        `sample`, and is now checked against the goal. */
    method Advance(ghost nodes0: seq<Node>, ghost tree0: seq<nat>, sample: Node, newNode: nat) returns (step: Step)
      requires Valid() && !success
      requires 2 <= |nodes0| && 0 < |tree0| && (forall k :: 0 <= k < |tree0| ==> tree0[k] < |nodes0|)
      requires Extended(nodes0, tree0, sample, stepSize, root).Ok?
      requires nodes == Extended(nodes0, tree0, sample, stepSize, root).value
      requires newNode == |nodes0| && tree == tree0 + [newNode]
      modifies this
      ensures Valid()
      ensures CreateStep(nodes0, tree0, sample, stepSize, root, step, nodes, tree, success)
    {
      ghost var e := Extended(nodes0, tree0, sample, stepSize, root).value;
      var atGoal := FinishIfAtGoal(newNode);
      if atGoal {
        assert nodes == ConnectGoal(e, newNode, root) && tree == tree0 + [newNode, Goal];
        step := ReachedGoal(newNode);
      } else {
        assert nodes == e && tree == tree0 + [newNode];
        step := Grown(newNode);
      }
    }

    /** Lines 38-41 of `create`: find the first nearest tree node and steer a new node from it. */
    method ExtendTowards(sample: Node) returns (added: Outcome<nat>)
      requires Valid() && !success
      modifies this
      ensures Valid() && !success && pathToGoal == old(pathToGoal)
      ensures var e := Extended(old(nodes), old(tree), sample, stepSize, root);
        && (added.Raised? <==> e.Raised?)
        && (added.Raised? ==> added.error == ZeroDivisionError && nodes == old(nodes) && tree == old(tree))
        && (added.Ok? ==> added.value == old(|nodes|) && nodes == e.value && tree == old(tree) + [added.value])
    {
      TreeEntries();
      var nearest := FindNearestNeighbour(sample);
      added := AddNodeToTree(sample, nearest.value);
    }

    /** Lines 44-47 of `create`: connect the goal if it is within one step of `newNode`,
        and then extract the path. */
    method FinishIfAtGoal(newNode: nat) returns (atGoal: bool)
      requires Valid() && !success && 2 <= newNode < |nodes|
      modifies this
      ensures Valid()
      ensures atGoal <==> Dist(old(nodes)[Goal], old(nodes)[newNode], root) <= stepSize
      ensures atGoal ==>
        && nodes == ConnectGoal(old(nodes), newNode, root) && tree == old(tree) + [Goal] && success
      ensures !atGoal ==> nodes == old(nodes) && tree == old(tree) && !success && pathToGoal == old(pathToGoal)
    {
      assert pathToGoal == [Goal];
      atGoal := CheckIfAtGoal(newNode);
      if atGoal {
        ReturnPath();
        assert pathToGoal == ParentChain(nodes, Goal);
      }
    }

    /** Every `tree` entry is an arena index; the goal is among them only once reached. */
    lemma {:induction false} TreeEntries()
      requires TreeValid()
      ensures forall k :: 0 <= k < |tree| ==> tree[k] < |nodes|
      ensures !success ==> forall k :: 0 <= k < |tree| ==> tree[k] != Goal
    {
    }

    /** Every tree entry after the start has its parent earlier in `tree`, and its
        cost is the parent's cost plus the edge length. */
    lemma {:induction false} ParentPrecedesInTree(k: nat)
      requires TreeValid() && 0 < k < |tree|
      ensures tree[k] < |nodes| && nodes[tree[k]].parent.Some? && nodes[tree[k]].parent.value < |nodes|
      ensures exists j :: 0 <= j < k && nodes[tree[k]].parent == Some(tree[j])
      ensures var p := nodes[tree[k]].parent.value;
        nodes[tree[k]].cost == nodes[p].cost + Dist(nodes[tree[k]], nodes[p], root)
    {
      TreeEntries();
      var i := tree[k];
      var p := nodes[i].parent.value;
      var j := if p == Start then 0 else p - 1;
      assert tree[j] == p;
    }

    /** After the goal is reached, `pathToGoal` runs from the goal to the start along
        parent links, visits no node twice, and the goal's cost is its length. */
    lemma {:induction false} PathToGoalShape()
      requires Valid() && success
      ensures |pathToGoal| >= 2
      ensures pathToGoal[0] == Goal && pathToGoal[|pathToGoal| - 1] == Start
      ensures forall k :: 0 <= k < |pathToGoal| - 1 ==> nodes[pathToGoal[k]].parent == Some(pathToGoal[k + 1])
      ensures Distinct(pathToGoal)
      ensures nodes[Goal].cost == PathLength(nodes, pathToGoal, root)
    {
      ParentChainLinked(nodes, Goal);
      ParentChainDistinct(nodes, Goal);
      ParentChainEndsAtStart(nodes, Goal);
      ParentChainCost(nodes, Goal, root);
    }

    /** Every node strictly inside the extracted path has both a parent and a child. */
    lemma {:induction false} PathInteriorLinked()
      requires Valid() && success
      ensures forall k :: 0 < k < |pathToGoal| - 1 ==>
        pathToGoal[k] < |nodes| && nodes[pathToGoal[k]].parent.Some? && nodes[pathToGoal[k]].child.Some?
    {
      PathToGoalShape();
      forall k | 0 < k < |pathToGoal| - 1
        ensures pathToGoal[k] < |nodes| && nodes[pathToGoal[k]].parent.Some? && nodes[pathToGoal[k]].child.Some?
      {
        assert nodes[pathToGoal[k - 1]].parent == Some(pathToGoal[k]);
      }
    }
  }
}
