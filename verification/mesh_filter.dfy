/**
  The middle of `setupNewFrame`: each Delaunay triangle is resolved through `indexMap` into the
  cloud, triangles spanning a depth jump or a long edge are rejected, and the survivors are
  compacted into the prefix of the fixed-capacity buffers `triangles3D` / `pointNormals`. Also the
  model centre, computed once on the first frame and frozen afterwards.
*/
module MeshFilter {
  import opened Wrappers
  import opened Geometry

  /** `sideLengthThreshold` in meters. */
  const SideLengthThreshold: real := 0.15
  /** Its square, against which squared edge lengths are compared. */
  const SqSideLengthThreshold: real := 0.15 * 0.15
  /** `zThreshold` in meters. */
  const ZThreshold: real := 0.1

  /** A triangle of the triangulation, as indices into its own point numbering. */
  datatype IndexTriangle = IndexTriangle(p1: int, p2: int, p3: int)

  /** `triNormal(p1, p2, p3)`, supplied by the caller. */
  type NormalFn = (Point3, Point3, Point3) -> Point3

  /** `meanPoint(cloud)`, supplied by the caller. */
  type MeanFn = seq<Point3> -> Point3

  predicate IndexInMap(k: int, indexMap: seq<int>) {
    0 <= k < |indexMap|
  }

  /** The three indices of t are `indexMap` slots. */
  predicate TriangleInMap(t: IndexTriangle, indexMap: seq<int>) {
    IndexInMap(t.p1, indexMap) && IndexInMap(t.p2, indexMap) && IndexInMap(t.p3, indexMap)
  }

  /** Every `indexMap` entry is an index into a cloud of n points. */
  predicate MapInto(indexMap: seq<int>, n: int) {
    forall k :: 0 <= k < |indexMap| ==> 0 <= indexMap[k] < n
  }

  /** Every triangle index is a valid `indexMap` slot and every `indexMap` entry is a valid cloud index. */
  predicate Resolvable(tris: seq<IndexTriangle>, indexMap: seq<int>, cloudSize: int) {
    && (forall q :: 0 <= q < |tris| ==> TriangleInMap(tris[q], indexMap))
    && MapInto(indexMap, cloudSize)
  }

  /** `cloud[indexMap[t.p1]]`, `cloud[indexMap[t.p2]]`, `cloud[indexMap[t.p3]]`. */
  function Resolve(t: IndexTriangle, indexMap: seq<int>, cloud: seq<Point3>): (r: Triangle3D)
    requires TriangleInMap(t, indexMap) && MapInto(indexMap, |cloud|)
    ensures r.p1 in cloud && r.p2 in cloud && r.p3 in cloud
  {
    Triangle3D(cloud[indexMap[t.p1]], cloud[indexMap[t.p2]], cloud[indexMap[t.p3]])
  }

  function Min(a: real, b: real): real { if b < a then b else a }
  function Max(a: real, b: real): real { if a < b then b else a }

  /** `maxZ - minZ`, folded over the three vertices in the order the source does it. */
  function ZSpread(t: Triangle3D): (r: real)
    ensures r >= 0.0
  {
    var minZ := Min(Min(t.p1.z, t.p2.z), t.p3.z);
    var maxZ := Max(Max(t.p1.z, t.p2.z), t.p3.z);
    maxZ - minZ
  }

  /** The folded min/max gives the z-range: it bounds every pairwise z difference and is one of them. */
  lemma ZSpreadIsRange(t: Triangle3D)
    ensures ZSpread(t) >= 0.0
    ensures t.p1.z - t.p2.z <= ZSpread(t) && t.p2.z - t.p1.z <= ZSpread(t)
    ensures t.p2.z - t.p3.z <= ZSpread(t) && t.p3.z - t.p2.z <= ZSpread(t)
    ensures t.p3.z - t.p1.z <= ZSpread(t) && t.p1.z - t.p3.z <= ZSpread(t)
    ensures ZSpread(t) in {t.p1.z - t.p2.z, t.p2.z - t.p1.z, t.p2.z - t.p3.z,
                           t.p3.z - t.p2.z, t.p3.z - t.p1.z, t.p1.z - t.p3.z, 0.0}
  {
  }

  /**
    The rejection test: z-spread above `ZThreshold` or some edge longer than `SideLengthThreshold`.
    Edge lengths are compared squared (see `Geometry.NormExceedsIff`).
  */
  predicate Rejected(t: Triangle3D) {
    || ZSpread(t) > ZThreshold
    || SqNorm(t.A()) > SqSideLengthThreshold
    || SqNorm(t.B()) > SqSideLengthThreshold
    || SqNorm(t.C()) > SqSideLengthThreshold
  }

  /** The geometric promise about a kept triangle: small depth spread and three short edges. */
  predicate WithinThresholds(t: Triangle3D) {
    && -ZThreshold <= t.p1.z - t.p2.z <= ZThreshold
    && -ZThreshold <= t.p2.z - t.p3.z <= ZThreshold
    && -ZThreshold <= t.p3.z - t.p1.z <= ZThreshold
    && SqNorm(t.A()) <= SqSideLengthThreshold
    && SqNorm(t.B()) <= SqSideLengthThreshold
    && SqNorm(t.C()) <= SqSideLengthThreshold
  }

  /**
    Reference definition of the compacted output: the resolved input triangles that pass the
    test, in input order.
  */
  function Kept(tris: seq<IndexTriangle>, indexMap: seq<int>, cloud: seq<Point3>): (r: seq<Triangle3D>)
    requires Resolvable(tris, indexMap, |cloud|)
    ensures |r| <= |tris|
  {
    if |tris| == 0 then []
    else
      var last := Resolve(tris[|tris| - 1], indexMap, cloud);
      Kept(tris[..|tris| - 1], indexMap, cloud) + (if Rejected(last) then [] else [last])
  }

  /** The normal slot written for an accepted triangle: one face normal copied to all three vertices. */
  function FlatNormal(triNormal: NormalFn, t: Triangle3D): (r: Triangle3D)
    ensures r.p1 == r.p2 == r.p3 == triNormal(t.p1, t.p2, t.p3)
  {
    var n := triNormal(t.p1, t.p2, t.p3);
    Triangle3D(n, n, n)
  }

  /** Every kept triangle has a z-spread of at most 0.1 and three edges of at most 0.15. */
  lemma {:induction false} KeptWithinThresholds(tris: seq<IndexTriangle>, indexMap: seq<int>, cloud: seq<Point3>)
    requires Resolvable(tris, indexMap, |cloud|)
    ensures forall k :: 0 <= k < |Kept(tris, indexMap, cloud)| ==> WithinThresholds(Kept(tris, indexMap, cloud)[k])
  {
    if |tris| > 0 {
      KeptWithinThresholds(tris[..|tris| - 1], indexMap, cloud);
      ZSpreadIsRange(Resolve(tris[|tris| - 1], indexMap, cloud));
    }
  }

  /** Kept triangles are exactly the resolved input triangles that pass the test. */
  lemma {:induction false} KeptExactly(tris: seq<IndexTriangle>, indexMap: seq<int>, cloud: seq<Point3>)
    requires Resolvable(tris, indexMap, |cloud|)
    ensures forall t :: t in Kept(tris, indexMap, cloud) <==>
      !Rejected(t) && exists i :: 0 <= i < |tris| && Resolve(tris[i], indexMap, cloud) == t
  {
    if |tris| > 0 {
      var init := tris[..|tris| - 1];
      KeptExactly(init, indexMap, cloud);
      forall t | !Rejected(t) && exists i :: 0 <= i < |tris| && Resolve(tris[i], indexMap, cloud) == t
        ensures t in Kept(tris, indexMap, cloud)
      {
        var i :| 0 <= i < |tris| && Resolve(tris[i], indexMap, cloud) == t;
        if i < |tris| - 1 {
          assert init[i] == tris[i];
        }
      }
      forall t | t in Kept(init, indexMap, cloud)
        ensures exists i :: 0 <= i < |tris| && Resolve(tris[i], indexMap, cloud) == t
      {
        var i :| 0 <= i < |init| && Resolve(init[i], indexMap, cloud) == t;
        assert tris[i] == init[i];
      }
    }
  }

  /**
    Both threshold tests are strict: a triangle whose depth spread is exactly `ZThreshold` and
    whose edges are at most `SideLengthThreshold` long, one of them exactly, is kept.
  */
  lemma ThresholdsAreInclusive(t: Triangle3D)
    requires ZSpread(t) == ZThreshold
    requires SqNorm(t.A()) == SqSideLengthThreshold
    requires SqNorm(t.B()) <= SqSideLengthThreshold && SqNorm(t.C()) <= SqSideLengthThreshold
    ensures !Rejected(t)
  {
  }

  /** A single rejected input triangle leaves fewer kept triangles than input triangles. */
  lemma {:induction false} KeptShorterIfRejected(tris: seq<IndexTriangle>, indexMap: seq<int>, cloud: seq<Point3>, i: int)
    requires Resolvable(tris, indexMap, |cloud|) && 0 <= i < |tris|
    requires Rejected(Resolve(tris[i], indexMap, cloud))
    ensures |Kept(tris, indexMap, cloud)| < |tris|
  {
    var n := |tris| - 1;
    if i < n {
      assert tris[..n][i] == tris[i];
      KeptShorterIfRejected(tris[..n], indexMap, cloud, i);
    }
  }

  /** One more input triangle extends the kept list by its resolution exactly when it passes the test. */
  lemma KeptStep(tris: seq<IndexTriangle>, i: int, indexMap: seq<int>, cloud: seq<Point3>)
    requires Resolvable(tris, indexMap, |cloud|) && 0 <= i < |tris|
    ensures Resolvable(tris[..i], indexMap, |cloud|) && Resolvable(tris[..i + 1], indexMap, |cloud|)
    ensures var t := Resolve(tris[i], indexMap, cloud);
      Kept(tris[..i + 1], indexMap, cloud) == Kept(tris[..i], indexMap, cloud) + (if Rejected(t) then [] else [t])
  {
    assert tris[..i + 1][..i] == tris[..i];
  }

  /** Writing slot j keeps the slots before it and makes x the last element of the first j + 1. */
  lemma WritePrefix<T>(s: seq<T>, j: int, x: T)
    requires 0 <= j < |s|
    ensures s[j := x][..j] == s[..j]
    ensures s[j := x][..j + 1] == s[..j] + [x]
  {
  }

  /**
    State of the compaction loop after i input triangles with j accepted: the first j slots hold
    the kept triangles of the first i inputs with their normals, later normal slots and the
    triangle slots after j are untouched, and slot j holds the last input if it was rejected.
  */
  predicate CompactInv(tris: seq<IndexTriangle>, indexMap: seq<int>, cloud: seq<Point3>,
                       triangles3D: seq<Triangle3D>, pointNormals: seq<Triangle3D>, triNormal: NormalFn,
                       i: int, outTriangles: seq<Triangle3D>, outNormals: seq<Triangle3D>, j: int)
    requires Resolvable(tris, indexMap, |cloud|)
    requires |tris| <= |triangles3D| && |pointNormals| == |triangles3D|
  {
    && 0 <= j <= i <= |tris|
    && |outTriangles| == |triangles3D| && |outNormals| == |pointNormals|
    && Resolvable(tris[..i], indexMap, |cloud|)
    && outTriangles[..j] == Kept(tris[..i], indexMap, cloud)
    && (forall k :: 0 <= k < j ==> outNormals[k] == FlatNormal(triNormal, outTriangles[k]))
    && (forall k :: j <= k < |outNormals| ==> outNormals[k] == pointNormals[k])
    && (forall k :: j < k < |outTriangles| ==> outTriangles[k] == triangles3D[k])
    && (j < |outTriangles| ==>
          outTriangles[j] ==
            if i > 0 && Rejected(Resolve(tris[i - 1], indexMap, cloud))
            then Resolve(tris[i - 1], indexMap, cloud)
            else triangles3D[j])
  }

  /** One iteration of the compaction loop preserves `CompactInv`. */
  lemma CompactStepPreserves(tris: seq<IndexTriangle>, indexMap: seq<int>, cloud: seq<Point3>,
                             triangles3D: seq<Triangle3D>, pointNormals: seq<Triangle3D>, triNormal: NormalFn,
                             i: int, outTriangles: seq<Triangle3D>, outNormals: seq<Triangle3D>, j: int)
    requires Resolvable(tris, indexMap, |cloud|) && i < |tris|
    requires |tris| <= |triangles3D| && |pointNormals| == |triangles3D|
    requires CompactInv(tris, indexMap, cloud, triangles3D, pointNormals, triNormal, i, outTriangles, outNormals, j)
    ensures var t3d := Resolve(tris[i], indexMap, cloud);
      if Rejected(t3d) then
        CompactInv(tris, indexMap, cloud, triangles3D, pointNormals, triNormal,
                   i + 1, outTriangles[j := t3d], outNormals, j)
      else
        CompactInv(tris, indexMap, cloud, triangles3D, pointNormals, triNormal,
                   i + 1, outTriangles[j := t3d], outNormals[j := FlatNormal(triNormal, t3d)], j + 1)
  {
    var t3d := Resolve(tris[i], indexMap, cloud);
    KeptStep(tris, i, indexMap, cloud);
    WritePrefix(outTriangles, j, t3d);
  }

  /**
    The compaction loop of `setupNewFrame`. Slot j of `triangles3D` receives each candidate before
    the tests run, so a rejected triangle can overwrite the slot just past the accepted prefix.
  */
  method CompactTriangles(tris: seq<IndexTriangle>, indexMap: seq<int>, cloud: seq<Point3>,
                          triangles3D: seq<Triangle3D>, pointNormals: seq<Triangle3D>, triNormal: NormalFn)
    returns (outTriangles: seq<Triangle3D>, outNormals: seq<Triangle3D>, num3DTriangles: nat)
    requires Resolvable(tris, indexMap, |cloud|)
    requires |tris| <= |triangles3D| && |pointNormals| == |triangles3D|
    ensures |outTriangles| == |triangles3D| && |outNormals| == |pointNormals|
    ensures num3DTriangles <= |tris|
    ensures outTriangles[..num3DTriangles] == Kept(tris, indexMap, cloud)
    ensures forall k :: 0 <= k < num3DTriangles ==> outNormals[k] == FlatNormal(triNormal, outTriangles[k])
    ensures forall k :: num3DTriangles <= k < |outNormals| ==> outNormals[k] == pointNormals[k]
    ensures forall k :: num3DTriangles < k < |outTriangles| ==> outTriangles[k] == triangles3D[k]
    ensures num3DTriangles < |outTriangles| ==>
      outTriangles[num3DTriangles] ==
        if |tris| > 0 && Rejected(Resolve(tris[|tris| - 1], indexMap, cloud))
        then Resolve(tris[|tris| - 1], indexMap, cloud)
        else triangles3D[num3DTriangles]
  {
    outTriangles, outNormals := triangles3D, pointNormals;
    var j := 0;
    var i := 0;
    while i < |tris|
      invariant CompactInv(tris, indexMap, cloud, triangles3D, pointNormals, triNormal, i, outTriangles, outNormals, j)
    {
      CompactStepPreserves(tris, indexMap, cloud, triangles3D, pointNormals, triNormal, i, outTriangles, outNormals, j);
      var t3d := Resolve(tris[i], indexMap, cloud);
      outTriangles := outTriangles[j := t3d];
      if !Rejected(t3d) {
        outNormals := outNormals[j := FlatNormal(triNormal, t3d)];
        j := j + 1;
      }
      i := i + 1;
    }
    assert tris[..i] == tris;
    num3DTriangles := j;
  }

  /** `if (!meanPointCalculated) modelCenter = meanPoint(cloud)`: set on the first call, frozen afterwards. */
  function FreezeCenter(center: Option<Point3>, cloud: seq<Point3>, meanPoint: MeanFn): (r: Option<Point3>)
    ensures r.Some?
    ensures center.Some? ==> r == center
    ensures center.None? ==> r == Some(meanPoint(cloud))
  {
    match center
    case Some(_) => center
    case None => Some(meanPoint(cloud))
  }

  /** The centre after a run of frames, starting from `center`. */
  function CenterAfter(center: Option<Point3>, clouds: seq<seq<Point3>>, meanPoint: MeanFn): Option<Point3>
    decreases |clouds|
  {
    if |clouds| == 0 then center
    else CenterAfter(FreezeCenter(center, clouds[0], meanPoint), clouds[1..], meanPoint)
  }

  /** However many frames follow, the centre is the mean of the first frame's cloud, empty or not. */
  lemma {:induction false} CenterIsFirstFramesMean(clouds: seq<seq<Point3>>, meanPoint: MeanFn)
    requires |clouds| > 0
    ensures CenterAfter(None, clouds, meanPoint) == Some(meanPoint(clouds[0]))
  {
    CenterFrozen(Some(meanPoint(clouds[0])), clouds[1..], meanPoint);
  }

  lemma {:induction false} CenterFrozen(center: Option<Point3>, clouds: seq<seq<Point3>>, meanPoint: MeanFn)
    requires center.Some?
    ensures CenterAfter(center, clouds, meanPoint) == center
  {
    if |clouds| > 0 {
      CenterFrozen(center, clouds[1..], meanPoint);
    }
  }

  /**
    `Rejected` decides what the source's test decides: given the three edge lengths `cv::norm`
    returns, it holds exactly when the z-spread or one of those lengths exceeds its threshold.
  */
  lemma RejectedIffNormTest(t: Triangle3D, a: real, b: real, c: real)
    requires a >= 0.0 && b >= 0.0 && c >= 0.0
    requires a * a == SqNorm(t.A()) && b * b == SqNorm(t.B()) && c * c == SqNorm(t.C())
    ensures Rejected(t) <==>
      ZSpread(t) > ZThreshold || a > SideLengthThreshold || b > SideLengthThreshold || c > SideLengthThreshold
  {
    NormExceedsIff(t.A(), a, SideLengthThreshold);
    NormExceedsIff(t.B(), b, SideLengthThreshold);
    NormExceedsIff(t.C(), c, SideLengthThreshold);
  }
}
