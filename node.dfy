/** A planning node and the Euclidean distance between two nodes.

    In the planner a node is a mutable object whose `parent`, `child` and
    `cost` fields are reassigned by the tree builder. Here a node is a value
    stored in the planner's node arena (see `Planner.Rrt.nodes`); `parent`
    and `child` are indices into that arena, and "assigning a field" is
    replacing the arena entry by an updated copy. */
module Nodes {
  import opened Values

  /** Position, parent, most recently attached child, and cost from the start. */
  datatype Node = Node(x: real, y: real, parent: Option<nat>, child: Option<nat>, cost: real)

  /** A freshly constructed node: the given position and links, cost 0.0. */
  function NewNode(x: real, y: real, parent: Option<nat> := None, child: Option<nat> := None): (n: Node)
    ensures n.x == x && n.y == y
    ensures n.parent == parent && n.child == child
    ensures n.cost == 0.0
  {
    Node(x, y, parent, child, 0.0)
  }

  /** `root` behaves as the non-negative square root on the non-negative reals.
      The square root inside `math.dist` is a library call; the model takes it
      as a parameter described only by this property. */
  ghost predicate IsSquareRoot(root: real -> real)
  {
    forall v {:trigger Square(root(v))} :: 0.0 <= v ==> 0.0 <= root(v) && Square(root(v)) == v
  }

  /** `r` squared; the trigger term of `IsSquareRoot`. */
  function Square(r: real): (sq: real)
  {
    r * r
  }

  /** The square of the Euclidean distance between the positions of `a` and `b`. */
  function SquaredDistance(a: Node, b: Node): (d2: real)
    ensures 0.0 <= d2
  {
    SquaresNonNegative(a.x - b.x, a.y - b.y);
    (a.x - b.x) * (a.x - b.x) + (a.y - b.y) * (a.y - b.y)
  }

  lemma {:induction false} SquaresNonNegative(u: real, w: real)
    ensures 0.0 <= u * u && 0.0 <= w * w && 0.0 <= u * u + w * w
  {
  }

  /** `a.euclidean_dist(b)`: the Euclidean distance between the two positions. */
  function Dist(a: Node, b: Node, root: real -> real): (d: real)
    requires IsSquareRoot(root)
    ensures 0.0 <= d
  {
    assert Square(root(SquaredDistance(a, b))) == SquaredDistance(a, b);
    root(SquaredDistance(a, b))
  }

  /** The square of the distance is the sum of the squared coordinate differences. */
  lemma {:induction false} DistSquared(a: Node, b: Node, root: real -> real)
    requires IsSquareRoot(root)
    ensures Dist(a, b, root) * Dist(a, b, root) == (a.x - b.x) * (a.x - b.x) + (a.y - b.y) * (a.y - b.y)
  {
    assert Square(root(SquaredDistance(a, b))) == SquaredDistance(a, b);
  }

  /** A non-negative number whose square is `t * t` is `|t|`. */
  lemma {:induction false} NonNegativeRootOfSquare(r: real, t: real)
    requires 0.0 <= r && r * r == t * t
    ensures r == Abs(t)
  {
    var a := Abs(t);
    assert a * a == t * t;
    assert (r - a) * (r + a) == r * r - a * a;
    if r + a != 0.0 {
      ZeroProduct(r - a, r + a);
    }
  }

  /** A product with a non-zero factor is zero only when the other factor is. */
  lemma {:induction false} ZeroProduct(x: real, y: real)
    requires x * y == 0.0 && y != 0.0
    ensures x == 0.0
  {
    assert x == x * y / y;
  }

  /** A sum of two squares is zero only when both are zero. */
  lemma {:induction false} SumOfSquaresZero(u: real, w: real)
    requires u * u + w * w == 0.0
    ensures u == 0.0 && w == 0.0
  {
    SquaresNonNegative(u, w);
    assert u * u == 0.0 * 0.0;
    assert w * w == 0.0 * 0.0;
    NonNegativeRootOfSquare(if u < 0.0 then -u else u, 0.0);
    NonNegativeRootOfSquare(if w < 0.0 then -w else w, 0.0);
  }

  /** Distance is symmetric: `a.euclidean_dist(b) == b.euclidean_dist(a)`. */
  lemma {:induction false} DistSymmetric(a: Node, b: Node, root: real -> real)
    requires IsSquareRoot(root)
    ensures Dist(a, b, root) == Dist(b, a, root)
  {
    assert SquaredDistance(a, b) == SquaredDistance(b, a);
  }

  /** The distance is zero exactly when the two positions coincide. */
  lemma {:induction false} DistZeroIffSamePosition(a: Node, b: Node, root: real -> real)
    requires IsSquareRoot(root)
    ensures Dist(a, b, root) == 0.0 <==> a.x == b.x && a.y == b.y
  {
    var d := Dist(a, b, root);
    var u, w := a.x - b.x, a.y - b.y;
    DistSquared(a, b, root);
    if a.x == b.x && a.y == b.y {
      assert d * d == 0.0 * 0.0;
      NonNegativeRootOfSquare(d, 0.0);
    }
    if d == 0.0 {
      SumOfSquaresZero(u, w);
    }
  }

  /** The distance reads the positions only: parent, child and cost do not matter. */
  lemma {:induction false} DistOnlyReadsPositions(a: Node, a': Node, b: Node, b': Node, root: real -> real)
    requires IsSquareRoot(root)
    requires a.x == a'.x && a.y == a'.y && b.x == b'.x && b.y == b'.y
    ensures Dist(a, b, root) == Dist(a', b', root)
  {
    assert SquaredDistance(a, b) == SquaredDistance(a', b');
  }
}
