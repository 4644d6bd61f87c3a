/** 3D points (`cv::Point3f`) and the explicit-vertex triangle `Triangle3D` with its three edge vectors. */
module Geometry {

  datatype Point3 = Point3(x: real, y: real, z: real)

  function Sub(p: Point3, q: Point3): Point3 {
    Point3(p.x - q.x, p.y - q.y, p.z - q.z)
  }

  /** Squared Euclidean length; `cv::norm` is its non-negative square root. */
  function SqNorm(v: Point3): real {
    v.x * v.x + v.y * v.y + v.z * v.z
  }

  datatype Triangle3D = Triangle3D(p1: Point3, p2: Point3, p3: Point3) {
    function A(): Point3 { Sub(p2, p1) }
    function B(): Point3 { Sub(p3, p2) }
    function C(): Point3 { Sub(p1, p3) }
  }

  /**
    Comparing a length with a non-negative threshold is the same as comparing its square with the
    squared threshold, so a model without square roots decides what `cv::norm(v) > t` decides.
  */
  lemma NormExceedsIff(v: Point3, len: real, t: real)
    requires len >= 0.0 && t >= 0.0 && len * len == SqNorm(v)
    ensures len > t <==> SqNorm(v) > t * t
  {
    if len > t {
      SquareStrictlyMonotone(t, len);
    } else {
      SquareMonotone(len, t);
    }
  }

  lemma SquareStrictlyMonotone(a: real, b: real)
    requires 0.0 <= a < b
    ensures a * a < b * b
  {
    var ab := a * b;
    assert a * a <= ab;
    assert ab < b * b;
  }

  lemma SquareMonotone(a: real, b: real)
    requires 0.0 <= a <= b
    ensures a * a <= b * b
  {
    var ab := a * b;
    assert a * a <= ab;
    assert ab <= b * b;
  }
}
