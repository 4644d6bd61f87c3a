/**
  Pinhole depth-camera intrinsics and their one-off rescale to the processing resolution
  (`CameraParams` in util/camera.hpp).
*/
module Camera {

  /** `TruncatesTo(x, n)`: n is x rounded toward zero, as C++'s float-to-int conversion does. */
  predicate TruncatesTo(x: real, n: int) {
    if x >= 0.0 then n as real <= x < n as real + 1.0
    else n as real - 1.0 < x <= n as real
  }

  /** Conversion of a floating value to an integer type, truncating toward zero. */
  function Trunc(x: real): (n: int)
    ensures TruncatesTo(x, n)
    ensures x >= 0.0 ==> n >= 0
    ensures x < 0.0 ==> n <= 0
  {
    if x >= 0.0 then x.Floor else -((-x).Floor)
  }

  /** Truncation has exactly one result for each input. */
  lemma TruncatesToUnique(x: real, n: int, m: int)
    requires TruncatesTo(x, n) && TruncatesTo(x, m)
    ensures n == m
  {
    if x >= 0.0 {
      assert n as real <= x < m as real + 1.0;
      assert m as real <= x < n as real + 1.0;
    } else {
      assert n as real - 1.0 < x <= m as real;
      assert m as real - 1.0 < x <= n as real;
    }
  }

  /** An integral value survives truncation unchanged. */
  lemma TruncOfIntegral(n: int)
    ensures Trunc(n as real) == n
  {
    assert TruncatesTo(n as real, n);
    TruncatesToUnique(n as real, n, Trunc(n as real));
  }

  /** Focal length, principal point and image size; the fields are stored as given by the constructor. */
  datatype CameraParams = CameraParams(f: real, cx: real, cy: real, w: int, h: int)

  /** `scale(c)`: intrinsics are multiplied by c, the image size is multiplied and truncated toward zero. */
  function Scale(cam: CameraParams, c: real): (r: CameraParams)
    ensures r.f == cam.f * c && r.cx == cam.cx * c && r.cy == cam.cy * c
    ensures TruncatesTo(cam.w as real * c, r.w)
    ensures TruncatesTo(cam.h as real * c, r.h)
  {
    CameraParams(cam.f * c, cam.cx * c, cam.cy * c, Trunc(cam.w as real * c), Trunc(cam.h as real * c))
  }

  /** Scaling by one leaves every field as it was. */
  lemma ScaleByOneIsIdentity(cam: CameraParams)
    ensures Scale(cam, 1.0) == cam
  {
    TruncOfIntegral(cam.w);
    TruncOfIntegral(cam.h);
  }

  /** A non-negative factor keeps a non-negative image size non-negative. */
  lemma ScaleKeepsSizeNonNegative(cam: CameraParams, c: real)
    requires c >= 0.0 && cam.w >= 0 && cam.h >= 0
    ensures Scale(cam, c).w >= 0 && Scale(cam, c).h >= 0
  {
    assert cam.w as real * c >= 0.0;
    assert cam.h as real * c >= 0.0;
  }

  /** Scaling by c and then by 1/c restores the focal length and principal point (not the truncated size). */
  lemma ScaleIntrinsicsInverse(cam: CameraParams, c: real)
    requires c != 0.0
    ensures Scale(Scale(cam, c), 1.0 / c).f == cam.f
    ensures Scale(Scale(cam, c), 1.0 / c).cx == cam.cx
    ensures Scale(Scale(cam, c), 1.0 / c).cy == cam.cy
  {
    assert c * (1.0 / c) == 1.0;
    assert cam.f * c * (1.0 / c) == cam.f * (c * (1.0 / c));
    assert cam.cx * c * (1.0 / c) == cam.cx * (c * (1.0 / c));
    assert cam.cy * c * (1.0 / c) == cam.cy * (c * (1.0 / c));
  }

  /** With exact arithmetic, the factor target / w makes the scaled width exactly the target. */
  lemma ScaleToTargetWidth(cam: CameraParams, target: nat)
    requires cam.w > 0
    ensures Scale(cam, target as real / cam.w as real).w == target
  {
    var c := target as real / cam.w as real;
    assert cam.w as real * c == target as real;
    TruncOfIntegral(target);
  }
}
