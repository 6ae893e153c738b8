/** Points of the island and the distance comparisons the game makes.

    The game compares `Math.sqrt(d2)` (or three.js `distanceTo`) against a
    radius. Every such comparison is modelled exactly on the squared distance:
    `Closer` is `sqrt(d2) < r` and `AtMost` is `sqrt(d2) <= r`. */
module Geometry {

  /** A three.js `Vector3`. */
  datatype Vec3 = Vec3(x: real, y: real, z: real) {
    function Plus(v: Vec3): Vec3 { Vec3(x + v.x, y + v.y, z + v.z) }
    function Minus(v: Vec3): Vec3 { Vec3(x - v.x, y - v.y, z - v.z) }
    function Scaled(k: real): Vec3 { Vec3(k * x, k * y, k * z) }
  }

  /** A point on the ground plane: the (x, z) part of a position. */
  datatype Point2 = Point2(x: real, z: real)

  /** The zero vector. `Vector3.length() > 0` holds exactly for the vectors
      other than this one, and the model tests it that way. */
  const Origin: Vec3 := Vec3(0.0, 0.0, 0.0)

  /** Squared distance in the ground plane; y is ignored. */
  function DistSqXZ(a: Vec3, b: Vec3): real {
    (a.x - b.x) * (a.x - b.x) + (a.z - b.z) * (a.z - b.z)
  }

  /** Squared three-dimensional distance, the square of `a.distanceTo(b)`. */
  function DistSq(a: Vec3, b: Vec3): real {
    (a.x - b.x) * (a.x - b.x) + (a.y - b.y) * (a.y - b.y) + (a.z - b.z) * (a.z - b.z)
  }

  /** `sqrt(d2) < r`, for a squared distance `d2`. */
  predicate Closer(d2: real, r: real) {
    0.0 < r && d2 < r * r
  }

  /** `sqrt(d2) <= r`, for a squared distance `d2`. */
  predicate AtMost(d2: real, r: real) {
    0.0 <= r && d2 <= r * r
  }

  /** JavaScript's `r || d` on a number: an unset (zero) radius falls back to `d`. */
  function OrDefault(r: real, d: real): real {
    if r == 0.0 then d else r
  }

  lemma ProductPositive(u: real, v: real)
    requires 0.0 < u && 0.0 < v
    ensures 0.0 < u * v
  {}

  lemma SquareMonotone(a: real, b: real)
    requires 0.0 <= a < b
    ensures a * a < b * b
  {
    ProductPositive(b - a, b + a);
    assert (b - a) * (b + a) == b * b - a * a;
  }

  /** The squared comparisons agree with the comparisons of the square root:
      for any `s >= 0` with `s * s == d2`, `Closer(d2, r)` holds exactly when
      `s < r` and `AtMost(d2, r)` exactly when `s <= r`. */
  lemma SquaredComparisonsExact(d2: real, s: real, r: real)
    requires 0.0 <= s && s * s == d2
    ensures Closer(d2, r) <==> s < r
    ensures AtMost(d2, r) <==> s <= r
  {
    if s < r {
      SquareMonotone(s, r);
    } else if 0.0 <= r {
      if r < s { SquareMonotone(r, s); }
    }
  }
}
