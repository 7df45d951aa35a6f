/** Planar points and the Euclidean distance `pythagoras`. The square root is
    the float function `math.sqrt`; the model takes it as a parameter and
    states only what makes it a square root (`IsSqrt`). */
module Geometry {

  /** A point in the planar S-JTSK projection, in metres. */
  datatype Point = Point(x: real, y: real)

  /** The squared Euclidean distance, the argument `pythagoras` passes to `sqrt`. */
  function SquaredDistance(a: Point, b: Point): (r: real)
    ensures r >= 0.0
  {
    (a.x - b.x) * (a.x - b.x) + (a.y - b.y) * (a.y - b.y)
  }

  /** `sqrt` returns the non-negative square root of every non-negative real. */
  ghost predicate IsSqrt(sqrt: real -> real)
  {
    forall x :: 0.0 <= x ==> 0.0 <= sqrt(x) && sqrt(x) * sqrt(x) == x
  }

  /** `pythagoras(s1, s2)`: the distance between two points. */
  function Pythagoras(sqrt: real -> real, a: Point, b: Point): real
  {
    sqrt(SquaredDistance(a, b))
  }

  /** Squaring is strictly increasing on the non-negative reals. */
  lemma SquareStrict(s: real, t: real)
    requires 0.0 <= s < t
    ensures s * s < t * t
  {
    var d := t - s;
    assert t * t == s * s + 2.0 * s * d + d * d;
    assert s * d >= 0.0;
    assert d * d > 0.0;
  }

  /** Among non-negative reals, squaring keeps strict order in both directions. */
  lemma SquareMonotone(s: real, t: real)
    requires 0.0 <= s && 0.0 <= t
    ensures s < t <==> s * s < t * t
  {
    if s < t {
      SquareStrict(s, t);
    } else if t < s {
      SquareStrict(t, s);
    }
  }

  /** Two points are at distance zero exactly when they coincide. */
  lemma SquaredDistanceZero(a: Point, b: Point)
    ensures SquaredDistance(a, b) == 0.0 <==> a == b
  {
    var dx, dy := a.x - b.x, a.y - b.y;
    if SquaredDistance(a, b) == 0.0 {
      assert dx * dx >= 0.0 && dy * dy >= 0.0;
      assert dx * dx == 0.0;
      if dx != 0.0 { SquareMonotone(0.0, if dx > 0.0 then dx else -dx); }
      if dy != 0.0 { SquareMonotone(0.0, if dy > 0.0 then dy else -dy); }
    }
  }

  /** `pythagoras` is a distance: non-negative, symmetric, zero exactly on equal
      points, and its square is the squared distance. */
  lemma PythagorasIsDistance(sqrt: real -> real, a: Point, b: Point)
    requires IsSqrt(sqrt)
    ensures Pythagoras(sqrt, a, b) >= 0.0
    ensures Pythagoras(sqrt, a, b) * Pythagoras(sqrt, a, b) == SquaredDistance(a, b)
    ensures Pythagoras(sqrt, a, b) == Pythagoras(sqrt, b, a)
    ensures Pythagoras(sqrt, a, b) == 0.0 <==> a == b
  {
    var d := SquaredDistance(a, b);
    assert 0.0 <= sqrt(d) && sqrt(d) * sqrt(d) == d;
    SquaredDistanceZero(a, b);
    SquareMonotone(0.0, sqrt(d));
    assert SquaredDistance(a, b) == SquaredDistance(b, a);
  }

  /** Because `sqrt` is monotone, comparing distances is comparing squared
      distances: the nearest container is the same under either. */
  lemma CompareBySquares(sqrt: real -> real, a: Point, b: Point, c: Point)
    requires IsSqrt(sqrt)
    ensures Pythagoras(sqrt, a, b) < Pythagoras(sqrt, a, c) <==> SquaredDistance(a, b) < SquaredDistance(a, c)
  {
    var s, t := Pythagoras(sqrt, a, b), Pythagoras(sqrt, a, c);
    assert 0.0 <= s && s * s == SquaredDistance(a, b);
    assert 0.0 <= t && t * t == SquaredDistance(a, c);
    SquareMonotone(s, t);
  }

  /** The 10 km threshold on a distance is the 10^8 m^2 threshold on its square. */
  lemma ThresholdBySquares(sqrt: real -> real, a: Point, b: Point)
    requires IsSqrt(sqrt)
    ensures Pythagoras(sqrt, a, b) > 10000.0 <==> SquaredDistance(a, b) > 100000000.0
  {
    var s := Pythagoras(sqrt, a, b);
    assert 0.0 <= s && s * s == SquaredDistance(a, b);
    SquareMonotone(10000.0, s);
  }
}
