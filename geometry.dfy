/**
  Node coordinates and the two A* heuristics of the path finder: the
  straight-line (Euclidean) distance to the goal and the "Manhattan"
  estimate, which adds the signed coordinate differences. `float` is
  modelled as `real`; the square root is a parameter that must be an exact
  non-negative square root.
 */
module Geometry {

  /** A node's coordinates, latitude `y` and longitude `x`. */
  datatype Location = Location(y: real, x: real)

  /** The location every slot of the coordinate table starts with. */
  const ORIGIN: Location := Location(0.0, 0.0)

  /** `root` is a square root on the non-negative reals. */
  ghost predicate IsSquareRoot(root: real -> real) {
    forall a: real :: 0.0 <= a ==> 0.0 <= root(a) && root(a) * root(a) == a
  }

  function Abs(a: real): (r: real)
    ensures 0.0 <= r && (r == a || r == -a)
  {
    if a < 0.0 then -a else a
  }

  /** The Euclidean heuristic at vertex `u` for a search towards `goal`:
      the length of the straight line between their locations. */
  function Euclidean(root: real -> real, locations: seq<Location>, goal: nat, u: nat): (r: real)
    requires IsSquareRoot(root)
    requires goal < |locations| && u < |locations|
    ensures 0.0 <= r
    ensures r * r == Square(locations[goal].x - locations[u].x) + Square(locations[goal].y - locations[u].y)
  {
    var dx := locations[goal].x - locations[u].x;
    var dy := locations[goal].y - locations[u].y;
    SquareIsPositive(dx);
    SquareIsPositive(dy);
    root(dx * dx + dy * dy)
  }

  function Square(a: real): real { a * a }

  lemma SquareIsPositive(a: real)
    ensures 0.0 <= a * a
    ensures a != 0.0 ==> 0.0 < a * a
  {
    if a < 0.0 {
      var b := -a;
      assert a * a == b * b;
      ProductIsPositive(b, b);
    } else if 0.0 < a {
      ProductIsPositive(a, a);
    }
  }

  lemma ProductIsPositive(a: real, b: real)
    requires 0.0 < a && 0.0 < b
    ensures 0.0 < a * b
  {
  }

  /** The "Manhattan" heuristic at vertex `u` as the source computes it: the
      SIGNED differences `goal - u` added, with no absolute value. */
  function Manhattan(locations: seq<Location>, goal: nat, u: nat): (r: real)
    requires goal < |locations| && u < |locations|
    ensures locations[u] == locations[goal] ==> r == 0.0
    ensures r <= ManhattanDistance(locations[goal], locations[u])
  {
    (locations[goal].x - locations[u].x) + (locations[goal].y - locations[u].y)
  }

  /** The conventional Manhattan distance: the sum of the absolute differences. */
  function ManhattanDistance(a: Location, b: Location): (r: real)
    ensures 0.0 <= r
  {
    Abs(a.x - b.x) + Abs(a.y - b.y)
  }

  /** The signed estimate equals the true Manhattan distance exactly when the
      goal lies at no smaller x and no smaller y than `u`. */
  lemma ManhattanIsDistanceIff(locations: seq<Location>, goal: nat, u: nat)
    requires goal < |locations| && u < |locations|
    ensures Manhattan(locations, goal, u) == ManhattanDistance(locations[goal], locations[u])
        <==> locations[u].x <= locations[goal].x && locations[u].y <= locations[goal].y
  {
    var dx := locations[goal].x - locations[u].x;
    var dy := locations[goal].y - locations[u].y;
    if dx < 0.0 {
      assert Abs(dx) > dx;
    }
    if dy < 0.0 {
      assert Abs(dy) > dy;
    }
  }

  /** When the goal lies below and to the left of `u`, the estimate is
      negative: the heuristic is then not a distance at all. */
  lemma ManhattanNegativeTowardsOrigin(locations: seq<Location>, goal: nat, u: nat)
    requires goal < |locations| && u < |locations|
    requires locations[goal].x < locations[u].x && locations[goal].y < locations[u].y
    ensures Manhattan(locations, goal, u) < 0.0
  {
  }

  /** The estimate is zero exactly when `u` and the goal have the same
      coordinate sum, so every other location on the goal's anti-diagonal
      gets zero although it lies at a positive distance from the goal. */
  lemma ManhattanZeroAwayFromGoal(locations: seq<Location>, goal: nat, u: nat)
    requires goal < |locations| && u < |locations|
    ensures Manhattan(locations, goal, u) == 0.0
        <==> locations[u].x + locations[u].y == locations[goal].x + locations[goal].y
    ensures locations[u] != locations[goal] ==> 0.0 < ManhattanDistance(locations[goal], locations[u])
  {
    if locations[u] != locations[goal] {
      assert locations[u].x != locations[goal].x || locations[u].y != locations[goal].y;
    }
  }

  /** The straight line is never longer than either coordinate difference
      nor than the Manhattan distance. */
  lemma EuclideanBounds(root: real -> real, locations: seq<Location>, goal: nat, u: nat)
    requires IsSquareRoot(root)
    requires goal < |locations| && u < |locations|
    ensures Abs(locations[goal].x - locations[u].x) <= Euclidean(root, locations, goal, u)
    ensures Abs(locations[goal].y - locations[u].y) <= Euclidean(root, locations, goal, u)
    ensures Euclidean(root, locations, goal, u) <= ManhattanDistance(locations[goal], locations[u])
  {
    var dx := locations[goal].x - locations[u].x;
    var dy := locations[goal].y - locations[u].y;
    var r := Euclidean(root, locations, goal, u);
    var ax, ay := Abs(dx), Abs(dy);
    assert ax * ax == dx * dx && ay * ay == dy * dy;
    assert r * r == ax * ax + ay * ay;
    NonNegativeSquareMonotone(ax, r);
    NonNegativeSquareMonotone(ay, r);
    assert (ax + ay) * (ax + ay) == ax * ax + ay * ay + 2.0 * ax * ay;
    assert 0.0 <= ax * ay;
    NonNegativeSquareMonotone(r, ax + ay);
  }

  /** The heuristic vanishes exactly at the goal's location. */
  lemma EuclideanZeroIff(root: real -> real, locations: seq<Location>, goal: nat, u: nat)
    requires IsSquareRoot(root)
    requires goal < |locations| && u < |locations|
    ensures Euclidean(root, locations, goal, u) == 0.0 <==> locations[u] == locations[goal]
  {
    EuclideanBounds(root, locations, goal, u);
  }

  /** For non-negative numbers, comparing squares compares the numbers. */
  lemma NonNegativeSquareMonotone(a: real, b: real)
    requires 0.0 <= a && 0.0 <= b
    requires a * a <= b * b
    ensures a <= b
  {
    if b < a {
      assert a * a - b * b == (a - b) * (a + b);
      ProductIsPositive(a - b, a + b);
    }
  }

  /** Both heuristics are symmetric in the two locations, up to the sign of
      the Manhattan estimate. */
  lemma HeuristicsSwapped(root: real -> real, locations: seq<Location>, goal: nat, u: nat)
    requires IsSquareRoot(root)
    requires goal < |locations| && u < |locations|
    ensures Euclidean(root, locations, goal, u) == Euclidean(root, locations, u, goal)
    ensures Manhattan(locations, goal, u) == -Manhattan(locations, u, goal)
  {
    var dx := locations[goal].x - locations[u].x;
    var dy := locations[goal].y - locations[u].y;
    assert (-dx) * (-dx) == dx * dx && (-dy) * (-dy) == dy * dy;
  }
}
