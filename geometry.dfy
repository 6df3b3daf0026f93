/**
 * Exact-real geometry used by the quadtree: points, squared distance and the
 * clamping step of the circle/rectangle test.
 */
module Geometry {

  /** A position `(f32, f32)`, read as an exact pair of reals. */
  datatype Point = Point(x: real, y: real)

  function Abs(a: real): (r: real)
    ensures 0.0 <= r && (r == a || r == -a)
  {
    if a < 0.0 then -a else a
  }

  /** `v.abs().powi(2)` and `r * r` on exact reals. */
  function Sq(a: real): real
  {
    a * a
  }

  /** Squared Euclidean distance between two points. */
  function Dist2(p: Point, q: Point): real
  {
    Sq(p.x - q.x) + Sq(p.y - q.y)
  }

  /** The value `v` pushed into `[lo, hi]` the way `contains_circle` does it: low bound first. */
  function Clamp(v: real, lo: real, hi: real): real
  {
    if v < lo then lo else if v > hi then hi else v
  }

  lemma SqNonNegative(a: real)
    ensures 0.0 <= Sq(a)
  {
    if a < 0.0 {
      assert Sq(a) == (-a) * (-a);
    }
  }

  /** `.abs().powi(2)` is the plain square. */
  lemma SqAbs(a: real)
    ensures Sq(Abs(a)) == Sq(a)
  {
    if a < 0.0 {
      assert Sq(-a) == (-a) * (-a) == a * a;
    }
  }

  /** Squaring is monotone on magnitudes. */
  lemma SqMonotone(a: real, b: real)
    requires Abs(a) <= Abs(b)
    ensures Sq(a) <= Sq(b)
  {
    var p, q := Abs(a), Abs(b);
    assert Sq(a) == p * p && Sq(b) == q * q;
    MulNonNegative(p, q - p);
    MulNonNegative(q, q - p);
    assert p * (q - p) == p * q - p * p;
    assert q * (q - p) == q * q - q * p;
  }

  lemma MulNonNegative(a: real, b: real)
    requires 0.0 <= a && 0.0 <= b
    ensures 0.0 <= a * b
  {
  }

  /** The clamped value is the point of `[lo, hi]` nearest to `v`. */
  lemma ClampNearest(v: real, lo: real, hi: real, q: real)
    requires lo <= q <= hi
    ensures Sq(Clamp(v, lo, hi) - v) <= Sq(q - v)
  {
    SqMonotone(Clamp(v, lo, hi) - v, q - v);
  }
}
