/**
 * Stand-ins for the parts of Unity's Vector3 and Mathf that the alignment
 * engine uses. Coordinates are exact reals, so averaging and interpolation
 * carry no rounding.
 */
module Vectors {

  /** A local position, as Vector3. */
  datatype Vec = Vec(x: real, y: real, z: real)

  /** The axis an operation works on; also the sort key choice (SortOption). */
  datatype Axis = X | Y | Z

  /** The three independent axis toggles of the window. */
  datatype AxisMask = AxisMask(alignX: bool, alignY: bool, alignZ: bool)
  {
    predicate On(a: Axis)
    {
      match a
      case X => alignX
      case Y => alignY
      case Z => alignZ
    }
  }

  const Zero := Vec(0.0, 0.0, 0.0)

  function Coord(v: Vec, a: Axis): real
  {
    match a
    case X => v.x
    case Y => v.y
    case Z => v.z
  }

  /** `v` with its coordinate on axis `a` replaced by `c`. */
  function WithCoord(v: Vec, a: Axis, c: real): (r: Vec)
    ensures Coord(r, a) == c
    ensures forall b :: b != a ==> Coord(r, b) == Coord(v, b)
  {
    match a
    case X => v.(x := c)
    case Y => v.(y := c)
    case Z => v.(z := c)
  }

  function Add(u: Vec, v: Vec): (r: Vec)
    ensures forall a :: Coord(r, a) == Coord(u, a) + Coord(v, a)
  {
    Vec(u.x + v.x, u.y + v.y, u.z + v.z)
  }

  /** Component-wise division, as `Vector3 / float`. */
  function DivBy(v: Vec, d: real): (r: Vec)
    requires d != 0.0
    ensures forall a :: Coord(r, a) * d == Coord(v, a)
  {
    Vec(v.x / d, v.y / d, v.z / d)
  }

  /**
   * Mathf.Lerp(lo, hi, t). Unity clamps t to [0, 1] first; every caller here
   * passes a t already in that range, so the clamp is the identity.
   */
  function Lerp(lo: real, hi: real, t: real): (r: real)
    requires 0.0 <= t <= 1.0
    ensures t == 0.0 ==> r == lo
    ensures t == 1.0 ==> r == hi
    ensures lo <= hi ==> lo <= r <= hi
  {
    assert lo <= hi ==> 0.0 <= t * (hi - lo) <= hi - lo by {
      if lo <= hi {
        var d := hi - lo;
        assert 0.0 <= t * d;
        assert 0.0 <= (1.0 - t) * d;
        assert (1.0 - t) * d == d - t * d;
      }
    }
    lo + t * (hi - lo)
  }

  /** Interpolating between ordered ends is monotone in the fraction. */
  lemma LerpMonotone(lo: real, hi: real, s: real, t: real)
    requires lo <= hi
    requires 0.0 <= s <= t <= 1.0
    ensures Lerp(lo, hi, s) <= Lerp(lo, hi, t)
    ensures lo < hi && s < t ==> Lerp(lo, hi, s) < Lerp(lo, hi, t)
  {
    ProductSign(t - s, hi - lo);
    assert t * (hi - lo) - s * (hi - lo) == (t - s) * (hi - lo);
  }

  /** The product of two non-negative reals is non-negative, and positive when both are. */
  lemma ProductSign(d: real, e: real)
    requires 0.0 <= d && 0.0 <= e
    ensures 0.0 <= d * e
    ensures 0.0 < d && 0.0 < e ==> 0.0 < d * e
  {
  }
}
