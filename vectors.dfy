/**
 * Plane vectors over the reals, and the geometric queries the blocking
 * behaviour takes from the player library (distance, heading difference,
 * polar construction). Those queries compute square roots and arc tangents;
 * here they are supplied functions, passed to the behaviour as a separate
 * `Geometry` parameter.
 */
module Vectors {

  datatype Vec = Vec(x: real, y: real)

  function Add(a: Vec, b: Vec): Vec {
    Vec(a.x + b.x, a.y + b.y)
  }

  function Sub(a: Vec, b: Vec): Vec {
    Vec(a.x - b.x, a.y - b.y)
  }

  function Scale(k: real, v: Vec): Vec {
    Vec(k * v.x, k * v.y)
  }

  /**
   * The geometric primitives used by the behaviour:
   *  - dist(a, b): Euclidean distance `a.dist(b)`;
   *  - headingDiff(v, body): `(v.th() - body).abs()`, in degrees;
   *  - polar(r, v): `Vector2D::polar2vector(r, v.th())`, the vector of
   *    length r pointing the way v points.
   */
  datatype Geometry = Geometry(
    dist: (Vec, Vec) -> real,
    headingDiff: (Vec, real) -> real,
    polar: (real, Vec) -> Vec)
}
