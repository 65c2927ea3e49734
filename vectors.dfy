/** Three-component vectors over exact reals.

    The source's SIMD helpers load and store four float lanes, of which only the first three carry
    a coordinate; the fourth lane is ignored. The model keeps only the three meaningful lanes and
    uses exact real arithmetic. */
module Vectors {

  datatype Vec3 = Vec3(x: real, y: real, z: real)

  const Zero: Vec3 := Vec3(0.0, 0.0, 0.0)

  function Add(a: Vec3, b: Vec3): Vec3 {
    Vec3(a.x + b.x, a.y + b.y, a.z + b.z)
  }

  function Sub(a: Vec3, b: Vec3): Vec3 {
    Vec3(a.x - b.x, a.y - b.y, a.z - b.z)
  }

  function Scale(a: Vec3, s: real): Vec3 {
    Vec3(a.x * s, a.y * s, a.z * s)
  }

  /** The component on axis 0 (x), 1 (y) or 2 (z), as `vec[axis]` in the source. */
  function Coord(a: Vec3, axis: nat): real
    requires axis < 3
  {
    if axis == 0 then a.x else if axis == 1 then a.y else a.z
  }

  function Sq(r: real): real { r * r }

  /** Squared Euclidean distance, as `vec_distance_squared`. */
  function DistSq(a: Vec3, b: Vec3): real {
    Sq(a.x - b.x) + Sq(a.y - b.y) + Sq(a.z - b.z)
  }

  /** The squared distance is at least the squared difference on any single axis. */
  lemma DistSqAtLeastAxis(a: Vec3, b: Vec3, axis: nat)
    requires axis < 3
    ensures Sq(Coord(a, axis) - Coord(b, axis)) <= DistSq(a, b)
  {
    assert Sq(a.x - b.x) >= 0.0 && Sq(a.y - b.y) >= 0.0 && Sq(a.z - b.z) >= 0.0;
  }

  /** Squaring is monotone on non-negative reals. */
  lemma SqMonotone(u: real, v: real)
    requires 0.0 <= u <= v
    ensures Sq(u) <= Sq(v)
  {
    assert u * u <= u * v <= v * v;
  }
}
