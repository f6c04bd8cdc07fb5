# RRT and RRT* path planning in Dafny

This project models a small 2-D sampling-based path planner. It covers two parts:

- **RRT (Rapidly-exploring Random Tree).** The tree starts at a start node. Each grow step draws a sample in a 500 x 500 workspace and finds the tree node nearest to it. It steers one fixed step from that node towards the sample and appends the new node under it. If the new node is within one step of the goal, the goal is linked under the new node and the path is extracted by following parent links from the goal back to the start.
- **RRT\* rewiring.** One iteration picks an interior node of the extracted path and jitters a sample around it. It keeps the `k` interior nodes nearest to the sample in two fixed-length lists. For each of them it computes, on a private copy of the sample, what the child's cost would be if the path ran parent -> sample -> child. It then picks the first index of the smallest cost difference.

The project has five files:

- `values.dfy` (module `Values`): optional references, floats extended with `math.inf`, the Python exceptions the code can raise, and an `Outcome` (value or raised exception).
- `node.dfy` (module `Nodes`): the node record and the Euclidean distance.
- `parent_links.dfy` (module `ParentLinks`):
  - the node arena and the invariant the tree builder keeps on it;
  - the parent chains that path extraction follows;
  - the arena updates done by node insertion and goal connection.
- `rrt.dfy` (module `Planner`): the `RRT` class, as class `Rrt` with methods.
- `rrt_star.dfy` (module `StarPlanner`): the `RRTStar` class, as class `RrtStar`, plus its neighbour scan and evaluation loops as methods.

How objects are represented:

- Node objects are not heap objects. They live in an arena `nodes: seq<Node>` owned by the planner:
  - index 0 is the start and index 1 the goal;
  - every created node is appended;
  - `parent` and `child` are arena indices;
  - assigning a field of a node replaces its arena entry.
- `tree` and `path_to_goal` are sequences of arena indices.
- `math.dist` is the square root of a sum of squares. The square root is a parameter `root` whose only assumed property is `IsSquareRoot`: it returns the non-negative root of non-negative reals.
- Randomness becomes inputs:
  - the two `random.uniform` draws of `_sample_space`;
  - the index `random.choice` picks;
  - the two jitter draws of `rewire_path`.
- Exceptions the code can raise are modelled as `Raised(...)` results, not excluded by preconditions:
  - `ZeroDivisionError` when steering from a node at the sample's position, or with step size 0;
  - `IndexError` from `random.choice` on an empty interior;
  - `ValueError` from `max([])` when `k <= 0`;
  - `AttributeError` from dereferencing `None`.

Behaviour of the code worth knowing, which the model keeps:

- **Steering distance.** Steering always moves exactly `abs(step_size)` from the nearest node, even when the sample is closer (the new node then overshoots it). It does not move `min(d, step)`.
- **Zero distance.** A sample at the nearest node's exact position raises `ZeroDivisionError`. It is not skipped.
- **Unfilled neighbour slots.** An unfilled slot (fewer than `k` interior nodes) is dereferenced and raises `AttributeError`. It is not skipped.
- **Which neighbour is chosen.** Rewiring chooses the first index of `min(cost_differences)`: the smallest strictly positive improvement, or index 0 when nothing improves. It does not choose the largest improvement.
- **Configuration.** No configuration is validated at construction.

## Model

| member | source | states |
|---|---|---|
| Nodes.NewNode | node.py:5-10 | A new node has the given position and links and cost 0.0. |
| Nodes.Dist | node.py:12-16 | The distance between two nodes is never negative. |
| Nodes.DistSquared | node.py:12-16 | The square of the distance is the sum of the squared coordinate differences. |
| Nodes.DistSymmetric | node.py:12-16 | `a.euclidean_dist(b) == b.euclidean_dist(a)`. |
| Nodes.DistZeroIffSamePosition | node.py:12-16 | The distance is 0.0 if and only if the two positions coincide. |
| Nodes.DistOnlyReadsPositions | node.py:13-14 | The distance depends on the two positions only, not on parent, child or cost. |
| ParentLinks.Ancestors | rrt.py:115-119 | Every node reached by following parent links is an arena node other than the goal, and ranks strictly below where the walk began, so the walk terminates. |
| ParentLinks.ParentChainLinked | rrt.py:115-119 | The chain of parents starts at the given node, consecutive entries are joined by parent links, and its last node has no parent. |
| ParentLinks.ParentChainDistinct | rrt.py:115-119 | No node appears twice in a parent chain. |
| ParentLinks.ParentChainEndsAtStart | rrt.py:115-119 | When every created node has a parent, the parent chain of a linked node ends at the start. |
| ParentLinks.ParentChainCost | rrt.py:85 | Applied to the costs set when inserting (line 85) and when connecting the goal (line 104): a node's stored cost is the summed edge length of its parent chain plus the cost of the chain's last node. |
| ParentLinks.Attach | rrt.py:82-84 | Insertion appends the new node and sets the nearest node's child to it. No position, parent or cost changes, and no other node changes. |
| ParentLinks.SteeredNode | rrt.py:81-85 | The new node sits at the steered position, has the nearest node as parent and no child, and costs the parent's cost plus the edge length. |
| ParentLinks.AttachKeepsArena | rrt.py:81-85 | Inserting a steered node under any non-goal node keeps the arena invariant: <ul><li>parent links point at earlier nodes, never at the goal;</li><li>every created node has a parent;</li><li>children agree with parents;</li><li>every cost is the parent's cost plus the edge length.</li></ul> |
| ParentLinks.ConnectGoal | rrt.py:101-104 | Connecting the goal gives it the new node as parent and, as cost, the new node's cost plus the distance; the goal's own child is kept. The new node records the goal as its child and keeps its parent and cost. No position changes, and no other node changes. |
| ParentLinks.ConnectGoalKeepsArena | rrt.py:101-104 | Connecting the so-far unconnected goal under a non-goal node keeps the arena invariant. |
| Planner.SampleSpace | rrt.py:50-55 | The sample lies in [0, 500] x [0, 500] at the drawn coordinates, with no links and cost 0.0. |
| Planner.Steer | rrt.py:72-79 | Steering raises `ZeroDivisionError` exactly when the step size is 0.0 or the sample coincides with the nearest node. |
| Planner.SteerLength | rrt.py:72-79 | A steered position is always exactly `abs(step_size)` from the nearest node, whatever the sample's distance. |
| Planner.SteerDirection | rrt.py:72-79 | The step lies on the line through the nearest node and the sample (zero cross product), and its projection on that direction is `distance * step_size`. |
| Planner.FirstNearestAt | rrt.py:57-68 | The position it gives is the first one in `tree` whose node is nearest to the sample: no tree node is closer, and every earlier position is strictly farther. |
| Planner.Extended | rrt.py:70-87 | Steering from the first nearest tree node raises `ZeroDivisionError` exactly when the step size is 0.0 or the sample sits at that node. Otherwise the arena grows by one node, which has that nearest node as parent and no child; the nearest node records it as its child, and no other node changes. |
| Planner.ExtendedSteersOneStep | rrt.py:72-85 | The added node sits at the steered position, exactly `abs(step_size)` from its parent, and costs the parent's cost plus `abs(step_size)`. |
| Planner.Rrt.constructor | rrt.py:21-29 | A new planner has the arena [start, goal], `tree == [start]`, `path_to_goal == [goal]`, is not at the goal, and satisfies the planner invariant. |
| Planner.Rrt.FindNearestNeighbour | rrt.py:57-68 | The result is `None` exactly when the tree is empty. Otherwise it is the tree node at `FirstNearestAt`, the first position that minimises the distance to the sample. |
| Planner.Rrt.AddNodeToTree | rrt.py:70-87 | Either raises `ZeroDivisionError` exactly when steering does, changing nothing, or appends the steered node to the arena and to `tree` as `Attach` describes. The planner invariant is kept. |
| Planner.Rrt.CheckIfAtGoal | rrt.py:95-111 | Returns true exactly when the goal is within `step_size` of the new node. Then the goal is appended to `tree`, connected as `ConnectGoal` describes, and `success` is set; otherwise nothing changes. |
| Planner.Rrt.ReturnPath | rrt.py:113-119 | `path_to_goal` is extended by the goal's ancestors in parent order. |
| Planner.Rrt.Create | rrt.py:36-47 | One grow step:<ul><li>Once at the goal, it does nothing.</li><li>Otherwise, for the drawn sample, `Extended` is the arena after steering and insertion.</li><li>The step fails exactly when `Extended` raises. It then raises `ZeroDivisionError` and leaves the planner unchanged.</li><li>Otherwise the arena becomes `Extended`'s result, and the new node, appended to `tree`, is the arena's next index.</li><li>The step reaches the goal exactly when the goal is within `step_size` of the new node. The arena is then further changed by `ConnectGoal`, the goal is appended to `tree`, and `success` is set. Otherwise `success` stays unset.</li><li>The planner invariant, including `path_to_goal` being the goal's parent chain, always holds.</li></ul> |
| Planner.Rrt.Grow | rrt.py:38-47 | A grow step on a planner not yet at the goal. The arena, `tree` and `success` change exactly as `Create` describes. `path_to_goal` is unchanged when steering fails. |
| Planner.Rrt.Advance | rrt.py:44-47 | Given an arena that `Extended` just produced, the goal check and path extraction complete the grow step as `Create` describes. |
| Planner.Rrt.ExtendTowards | rrt.py:38-41 | Nearest-neighbour search followed by insertion. It raises `ZeroDivisionError` exactly when `Extended` raises, changing nothing. Otherwise the arena becomes `Extended`'s result and `tree` grows by the new index. `path_to_goal` and `success` are unchanged. |
| Planner.Rrt.FinishIfAtGoal | rrt.py:44-47 | The goal check followed by path extraction. It is true exactly when the goal is within `step_size` of the new node. The arena then becomes `ConnectGoal` of the old arena, the goal is appended to `tree`, `success` is set, and `path_to_goal` is the goal's parent chain. Otherwise nothing changes. |
| Planner.Rrt.TreeEntries | rrt.py:82 | Every `tree` entry is an arena node, and the goal is among them only once it is reached. |
| Planner.Rrt.ParentPrecedesInTree | rrt.py:82-85 | Every tree entry after the start has its parent earlier in `tree`, and its cost is the parent's cost plus the edge length. |
| Planner.Rrt.PathToGoalShape | rrt.py:113-119 | Once the goal is reached, the path:<ul><li>runs from the goal to the start, with at least two entries;</li><li>follows parent links;</li><li>repeats no node;</li><li>has a summed edge length equal to the goal's cost.</li></ul> |
| Planner.Rrt.PathInteriorLinked | rrt.py:113-119 | Every node strictly inside the extracted path has both a parent and a child. |
| StarPlanner.Interior | rrt-star.py:42 | `path[1:-1]` has two fewer entries than a path of length over 2 (none otherwise), and the path is its first entry, the interior, then its last entry. |
| StarPlanner.Jitter | rrt-star.py:48-51 | The sample is within `abs(step_size)` of the anchor on each axis and has no links and cost 0.0. |
| StarPlanner.MaxOf | rrt-star.py:63 | `max(distances)` is an entry and no entry exceeds it. |
| StarPlanner.MinOf | rrt-star.py:92 | `min(cost_differences)` is an entry and no entry is below it. |
| StarPlanner.IndexOf | rrt-star.py:66 | `list.index(e)` is a position holding `e`, and no earlier position holds it. |
| StarPlanner.FirstMinIndex | rrt-star.py:92-93 | The chosen index holds a smallest entry, and every earlier entry is strictly larger. |
| StarPlanner.FirstMinIndexChoice | rrt-star.py:88-93 | With no finite cost difference the index is 0. Otherwise it holds the smallest finite difference, i.e. the smallest improvement. |
| StarPlanner.ReplaceMaxNeverIncreases | rrt-star.py:63-68 | Replacing the first maximal distance by a strictly smaller one never raises the maximum. |
| StarPlanner.CountFilled | rrt-star.py:56-58 | The filled-slot count is at most the number of slots, and equals it exactly when every slot is filled. |
| StarPlanner.Unfilled | rrt-star.py:56-58 | The lists start with `k` slots, each holding `inf` and `None`. |
| StarPlanner.ScanOne | rrt-star.py:62-68 | One scan step. A distance strictly below the current maximum replaces it in the first slot holding it, together with the node; every earlier slot holds a strictly smaller distance, and no other slot changes. Otherwise the lists are unchanged. |
| StarPlanner.Scan | rrt-star.py:60-68 | Scanning the nodes in order keeps the number of slots. |
| StarPlanner.ScanSelectsNearest | rrt-star.py:60-68 | Scanning from `k > 0` empty slots (or scanning nothing) meets `NearestSelection`: the properties listed for `SelectNeighbours` below. |
| StarPlanner.SelectNeighbours | rrt-star.py:55-68 | The k-nearest scan raises `ValueError` exactly when `k <= 0` and the interior is non-empty. Otherwise it returns exactly the lists `Scan` builds from `max(k, 0)` empty slots, and those lists meet `NearestSelection`:<ul><li>there are `max(k, 0)` slots;</li><li>each filled slot holds an interior node together with its distance to the sample;</li><li>each empty slot holds `inf`;</li><li>every interior node left out is at least as far as every slot;</li><li>`min(k, len(interior))` slots are filled;</li><li>no node is selected twice when the interior is distinct.</li></ul> |
| StarPlanner.SelectedAreNearest | rrt-star.py:60-68 | After the scan, every interior node without a slot is at least as far from the sample as every selected neighbour. |
| StarPlanner.AllSlotsFilledIff | rrt-star.py:56-68 | Every slot is filled exactly when there are at least `k` interior nodes. |
| StarPlanner.CostDifference | rrt-star.py:88-89 | A cost difference is finite exactly when the new child cost is strictly smaller. It is then positive, and equals the original cost minus the new one. |
| StarPlanner.EvaluateNeighbours | rrt-star.py:75-89 | The evaluation raises `AttributeError` exactly when some slot is empty or its node lacks a parent or a child. Otherwise, for each neighbour:<ul><li>its copy of the sample takes over the neighbour's parent and child;</li><li>the copy costs the parent's cost plus the distance;</li><li>its cost difference compares the child's cost with the route through the copy.</li></ul>The nodes are not changed. |
| StarPlanner.CostDifferenceIsDetourSaving | rrt-star.py:81-89 | In a consistent arena, a finite cost difference means exactly that the route parent -> sample -> child is strictly shorter than parent -> neighbour -> child, and the difference is the saving. |
| StarPlanner.InteriorOfLinkedPath | rrt-star.py:81-85 | The interior of a duplicate-free path whose inner nodes have a parent and a child is duplicate-free, and each of its nodes can be evaluated. |
| StarPlanner.RrtStar.constructor | rrt-star.py:12-15 | A new RRT* planner wraps a freshly initialised RRT planner and stores the neighbour count. |
| StarPlanner.RewireInterior | rrt-star.py:46-93 | One rewiring iteration on a path interior:<ul><li>it raises `IndexError` exactly when the interior is empty;</li><li>it raises `ValueError` exactly when `k <= 0` on a non-empty interior;</li><li>it raises `AttributeError` exactly when the interior is shorter than `k`.</li></ul>It succeeds exactly when `0 < k <= len(interior)`, and then the result meets `Rewired`:<ul><li>the anchor is the chosen interior node and the sample is its jitter;</li><li>the selection is exactly `Scan` of the interior from `k` empty slots, so it meets `NearestSelection`;</li><li>every neighbour is evaluated as `EvaluateNeighbours` describes;</li><li>the chosen index is the first minimum of the cost differences.</li></ul> |
| StarPlanner.RrtStar.RewirePath | rrt-star.py:42-93 | The same iteration on the interior of the planner's extracted path, with the planner's `k`. It raises exactly as `RewireInterior` does, and succeeds exactly when `0 < k <= len(interior)`. The goal has then been reached and the result meets `Rewired`. The planner is not modified. |
| StarPlanner.RrtStar.PathFacts | rrt-star.py:42 | The interior of the extracted path is duplicate-free, and every node in it has a parent and a child. Before the goal is reached the interior is empty. |

## Left out

- Plotting with matplotlib, the `FuncAnimation` driver and the `print` calls (`_connect_to_parent` only plots). They are user interface with no state to model.
- `random.uniform` and `random.choice` are not modelled. Their results are inputs, and their ranges are preconditions.
- IEEE floating point is not modelled: positions, costs and distances are exact reals. The square root inside `math.dist` is a parameter described only by `IsSquareRoot`.
- utils/path.py is not part of this model. The planner does not use it.
- The outer `while` loop of `rewire_path` is not modelled; only one iteration is. `count` is never incremented, so only an exception can end the loop. Line 94 raises one on the first pass at the latest, so no pass ever completes.
- rrt-star.py line 94 is not modelled: `nodes.index(idx)` looks an integer up in a list of nodes, which always raises `ValueError`. The model stops at the chosen index `idx`.
- The splice that would follow (rewiring links and propagating costs) is not modelled: the code has no statements for it.
- `tree` and `path_to_goal` are class attributes in the code, so every planner instance shares one list. The model gives each planner its own lists.
- The node objects in those lists are shared and mutated in place. The model stores nodes in an arena and lists their indices, so aliasing is captured as "same index".
- `RRTStar` inherits from `RRT`. The model's `RrtStar` holds an `Rrt` instead.
- `Rrt.constructor` takes the start and goal coordinates and creates fresh start and goal nodes. It does not accept existing node objects with arbitrary links.
- The goal is treated as the unconnected second node. The code would accept a goal object that is already linked.
- A node's `child` is the most recently attached child. A node with several children records only the last one, which need not be its successor on the extracted path. The model keeps this overwrite and states only that a recorded child names its parent back.
- Planner.Rrt.AddNodeToTree, Planner.Rrt.CheckIfAtGoal: require that the goal has not been reached. `create` only calls them then; the code itself does not check it.
- Planner.Rrt.AddNodeToTree: requires the nearest node not to be the goal. This holds for every call from `create`, because the goal enters `tree` only when `success` is set.
- StarPlanner.EvaluateNeighbours: the neighbour's index is its loop position, whereas the code uses `nodes.index(neighbour)`, the first equal entry. The two agree because the selected neighbours are distinct, which `SelectNeighbours` guarantees for a duplicate-free path.
- StarPlanner.RrtStar.RewirePath: requires `planner.Valid()`, the planner invariant that every run from the constructor keeps.
- StarPlanner.RewireInterior: requires a duplicate-free interior of arena nodes that each have a parent and a child. `RewirePath` establishes this from the planner invariant through `PathFacts`.
- Planner.Rrt.Advance: requires that the arena and `tree` are what `ExtendTowards` just produced. It is only the second half of `Grow`.
