/**
  The first stage of `setupNewFrame`: a raster scan of the `uint16` depth image that keeps pixels
  whose depth lies strictly between 200 and 6000, caps the count at `SHRT_MAX`, and emits the
  scaled 2D pixel list `points` together with the back-projected 3D list `cloud`.
*/
module PointCloud {
  import opened Camera
  import opened Geometry

  newtype uint16 = x: int | 0 <= x < 0x1_0000

  const MinDepth: int := 200
  const MaxDepth: int := 6000
  /** `std::numeric_limits<short>::max()`. */
  const ShortMax: nat := 0x7fff

  /** A `cv::Mat` of `uint16` depth values: `|data|` rows of `cols` entries each. */
  datatype DepthImage = DepthImage(cols: nat, data: seq<seq<uint16>>) {
    predicate Valid() {
      forall r :: 0 <= r < |data| ==> |data[r]| == cols
    }
  }

  /** A source pixel: its row, column and depth value. */
  datatype Pixel = Pixel(row: int, col: int, depth: int)

  /** `PointIJ`: the scaled (row, column) pair handed to the triangulation. */
  datatype PointIJ = PointIJ(i: int, j: int)

  /** Back-projection `project2dPointTo3d(i, j, depth, camera)`, supplied by the caller. */
  type Projection = (int, int, int, CameraParams) -> Point3

  predicate InDepthRange(d: int) {
    MinDepth < d < MaxDepth
  }

  /** p names a pixel of img and carries that pixel's depth. */
  predicate PixelOf(img: DepthImage, p: Pixel)
    requires img.Valid()
  {
    0 <= p.row < |img.data| && 0 <= p.col < img.cols && p.depth == img.data[p.row][p.col] as int
  }

  /** Strict raster (row-major) order between two pixels. */
  predicate RasterBefore(p: Pixel, q: Pixel) {
    p.row < q.row || (p.row == q.row && p.col < q.col)
  }

  /** In-range pixels of row r among its first n columns, left to right. */
  function RowCandidates(img: DepthImage, r: int, n: int): seq<Pixel>
    requires img.Valid() && 0 <= r < |img.data| && 0 <= n <= img.cols
  {
    if n == 0 then []
    else
      var d := img.data[r][n - 1] as int;
      RowCandidates(img, r, n - 1) + (if InDepthRange(d) then [Pixel(r, n - 1, d)] else [])
  }

  /** In-range pixels of the first m rows, in raster order. */
  function Candidates(img: DepthImage, m: int): seq<Pixel>
    requires img.Valid() && 0 <= m <= |img.data|
  {
    if m == 0 then [] else Candidates(img, m - 1) + RowCandidates(img, m - 1, img.cols)
  }

  /** Every in-range pixel of the image, in raster order. */
  function InRangePixels(img: DepthImage): seq<Pixel>
    requires img.Valid()
  {
    Candidates(img, |img.data|)
  }

  /** The first n elements of s, or all of s when it is shorter. */
  function Take<T>(s: seq<T>, n: nat): (r: seq<T>)
    ensures |r| == if |s| <= n then |s| else n
    ensures forall k :: 0 <= k < |r| ==> r[k] == s[k]
  {
    if |s| <= n then s else s[..n]
  }

  /** The pixels the scan admits: the in-range pixels, cut off after `ShortMax` of them. */
  function Admitted(img: DepthImage): (r: seq<Pixel>)
    requires img.Valid()
    ensures |r| == if |InRangePixels(img)| <= ShortMax then |InRangePixels(img)| else ShortMax
    ensures r == InRangePixels(img)[..|r|]
  {
    Take(InRangePixels(img), ShortMax)
  }

  /** `short(scale * n)`: the scaled coordinate truncated toward zero. */
  function ScaleCoord(scale: real, n: int): (r: int)
    ensures TruncatesTo(scale * n as real, r)
    ensures scale >= 0.0 && n >= 0 ==> r >= 0
  {
    Trunc(scale * n as real)
  }

  /** `(short(scale * i), short(scale * j))` for a source pixel. */
  function ScaledPoint(scale: real, p: Pixel): (r: PointIJ)
    ensures TruncatesTo(scale * p.row as real, r.i) && TruncatesTo(scale * p.col as real, r.j)
  {
    PointIJ(ScaleCoord(scale, p.row), ScaleCoord(scale, p.col))
  }

  /**
    `points` and `cloud` are index-aligned images of `adm`: entry k of `points` is the scaled
    pixel of adm[k] and entry k of `cloud` back-projects that scaled pixel at adm[k]'s depth.
  */
  predicate AlignedWith(adm: seq<Pixel>, points: seq<PointIJ>, cloud: seq<Point3>,
                        scale: real, cam: CameraParams, project: Projection)
  {
    && |points| == |adm| && |cloud| == |adm|
    && (forall k :: 0 <= k < |adm| ==> points[k] == ScaledPoint(scale, adm[k]))
    && (forall k :: 0 <= k < |adm| ==> cloud[k] == project(points[k].i, points[k].j, adm[k].depth, cam))
  }

  /** The scaled pixel list the scan of `img` produces, as a function of the image. */
  function ScaledPoints(img: DepthImage, scale: real): seq<PointIJ>
    requires img.Valid()
  {
    seq(|Admitted(img)|, k requires 0 <= k < |Admitted(img)| => ScaledPoint(scale, Admitted(img)[k]))
  }

  lemma TakeAppend<T>(s: seq<T>, x: T, n: nat)
    ensures |s| < n ==> Take(s + [x], n) == Take(s, n) + [x]
    ensures |s| >= n ==> Take(s + [x], n) == Take(s, n)
  {
    if |s| >= n {
      assert (s + [x])[..n] == s[..n];
    }
  }

  /** One column further along row i adds at most that column's pixel to the scanned prefix. */
  lemma ScanOneColumn(img: DepthImage, i: int, j: int)
    requires img.Valid() && 0 <= i < |img.data| && 0 <= j < img.cols
    ensures var d := img.data[i][j] as int;
      Candidates(img, i) + RowCandidates(img, i, j + 1)
      == (Candidates(img, i) + RowCandidates(img, i, j)) + (if InDepthRange(d) then [Pixel(i, j, d)] else [])
  {
  }

  /** What one more column does to the admitted prefix: append its pixel when in range and below the cap. */
  lemma AdmitColumn(img: DepthImage, i: int, j: int, adm: seq<Pixel>)
    requires img.Valid() && 0 <= i < |img.data| && 0 <= j < img.cols
    requires adm == Take(Candidates(img, i) + RowCandidates(img, i, j), ShortMax)
    ensures var d := img.data[i][j] as int;
      Take(Candidates(img, i) + RowCandidates(img, i, j + 1), ShortMax)
      == if InDepthRange(d) && |adm| < ShortMax then adm + [Pixel(i, j, d)] else adm
  {
    var d := img.data[i][j] as int;
    var before := Candidates(img, i) + RowCandidates(img, i, j);
    ScanOneColumn(img, i, j);
    TakeAppend(before, Pixel(i, j, d), ShortMax);
  }

  lemma AlignedAppend(adm: seq<Pixel>, points: seq<PointIJ>, cloud: seq<Point3>, p: Pixel,
                      scale: real, cam: CameraParams, project: Projection)
    requires AlignedWith(adm, points, cloud, scale, cam, project)
    ensures var q := ScaledPoint(scale, p);
      AlignedWith(adm + [p], points + [q], cloud + [project(q.i, q.j, p.depth, cam)], scale, cam, project)
  {
  }

  /**
    The scan of `setupNewFrame`: rows outer, columns inner, a pixel kept when its depth is in
    range and fewer than `ShortMax` points have been kept so far.
  */
  method BuildPointCloud(img: DepthImage, scale: real, cam: CameraParams, project: Projection)
    returns (points: seq<PointIJ>, cloud: seq<Point3>)
    requires img.Valid()
    ensures |points| == |cloud| <= ShortMax
    ensures AlignedWith(Admitted(img), points, cloud, scale, cam, project)
  {
    points, cloud := [], [];
    ghost var adm: seq<Pixel> := [];
    var i := 0;
    while i < |img.data|
      invariant 0 <= i <= |img.data|
      invariant adm == Take(Candidates(img, i), ShortMax)
      invariant AlignedWith(adm, points, cloud, scale, cam, project)
    {
      points, cloud, adm := ScanRow(img, i, scale, cam, project, points, cloud, adm);
      i := i + 1;
    }
  }

  /** The inner loop of the scan over row i, continuing the lists built from the rows above it. */
  method ScanRow(img: DepthImage, i: int, scale: real, cam: CameraParams, project: Projection,
                 points0: seq<PointIJ>, cloud0: seq<Point3>, ghost adm0: seq<Pixel>)
    returns (points: seq<PointIJ>, cloud: seq<Point3>, ghost adm: seq<Pixel>)
    requires img.Valid() && 0 <= i < |img.data|
    requires adm0 == Take(Candidates(img, i), ShortMax)
    requires AlignedWith(adm0, points0, cloud0, scale, cam, project)
    ensures adm == Take(Candidates(img, i + 1), ShortMax)
    ensures AlignedWith(Take(Candidates(img, i + 1), ShortMax), points, cloud, scale, cam, project)
  {
    points, cloud, adm := points0, cloud0, adm0;
    var scaleI := ScaleCoord(scale, i);
    var j := 0;
    while j < img.cols
      invariant 0 <= j <= img.cols
      invariant adm == Take(Candidates(img, i) + RowCandidates(img, i, j), ShortMax)
      invariant AlignedWith(adm, points, cloud, scale, cam, project)
    {
      var d := img.data[i][j] as int;
      AdmitColumn(img, i, j, adm);
      if d > MinDepth && d < MaxDepth && |points| < ShortMax {
        var scaleJ := ScaleCoord(scale, j);
        assert PointIJ(scaleI, scaleJ) == ScaledPoint(scale, Pixel(i, j, d));
        AlignedAppend(adm, points, cloud, Pixel(i, j, d), scale, cam, project);
        points := points + [PointIJ(scaleI, scaleJ)];
        cloud := cloud + [project(scaleI, scaleJ, d, cam)];
        adm := adm + [Pixel(i, j, d)];
      }
      j := j + 1;
    }
    assert Candidates(img, i + 1) == Candidates(img, i) + RowCandidates(img, i, img.cols);
  }

  lemma {:induction false} RowCandidatesExact(img: DepthImage, r: int, n: int)
    requires img.Valid() && 0 <= r < |img.data| && 0 <= n <= img.cols
    ensures forall p :: p in RowCandidates(img, r, n) <==>
      PixelOf(img, p) && p.row == r && p.col < n && InDepthRange(p.depth)
  {
    if n > 0 {
      RowCandidatesExact(img, r, n - 1);
    }
  }

  lemma {:induction false} CandidatesExact(img: DepthImage, m: int)
    requires img.Valid() && 0 <= m <= |img.data|
    ensures forall p :: p in Candidates(img, m) <==> PixelOf(img, p) && p.row < m && InDepthRange(p.depth)
  {
    if m > 0 {
      CandidatesExact(img, m - 1);
      RowCandidatesExact(img, m - 1, img.cols);
    }
  }

  /** The scan finds every in-range pixel of the image and nothing else. */
  lemma InRangePixelsExact(img: DepthImage)
    requires img.Valid()
    ensures forall p :: p in InRangePixels(img) <==> PixelOf(img, p) && InDepthRange(p.depth)
  {
    CandidatesExact(img, |img.data|);
  }

  lemma {:induction false} RowCandidatesOrdered(img: DepthImage, r: int, n: int)
    requires img.Valid() && 0 <= r < |img.data| && 0 <= n <= img.cols
    ensures forall k :: 0 <= k < |RowCandidates(img, r, n)| ==>
      RowCandidates(img, r, n)[k].row == r && RowCandidates(img, r, n)[k].col < n
    ensures forall a, b :: 0 <= a < b < |RowCandidates(img, r, n)| ==>
      RowCandidates(img, r, n)[a].col < RowCandidates(img, r, n)[b].col
  {
    if n > 0 {
      RowCandidatesOrdered(img, r, n - 1);
    }
  }

  lemma {:induction false} CandidatesOrdered(img: DepthImage, m: int)
    requires img.Valid() && 0 <= m <= |img.data|
    ensures forall k :: 0 <= k < |Candidates(img, m)| ==> Candidates(img, m)[k].row < m
    ensures forall a, b :: 0 <= a < b < |Candidates(img, m)| ==>
      RasterBefore(Candidates(img, m)[a], Candidates(img, m)[b])
  {
    if m > 0 {
      CandidatesOrdered(img, m - 1);
      RowCandidatesOrdered(img, m - 1, img.cols);
      var prev, row := Candidates(img, m - 1), RowCandidates(img, m - 1, img.cols);
      assert Candidates(img, m) == prev + row;
      forall a, b | 0 <= a < b < |prev + row|
        ensures RasterBefore((prev + row)[a], (prev + row)[b])
      {
        if b < |prev| {
        } else if a < |prev| {
          assert (prev + row)[a] == prev[a] && (prev + row)[b] == row[b - |prev|];
        } else {
          assert (prev + row)[a] == row[a - |prev|] && (prev + row)[b] == row[b - |prev|];
        }
      }
    }
  }

  /** The in-range pixels come out in strict raster order, so no pixel is reported twice. */
  lemma InRangePixelsRasterOrdered(img: DepthImage)
    requires img.Valid()
    ensures forall a, b :: 0 <= a < b < |InRangePixels(img)| ==>
      RasterBefore(InRangePixels(img)[a], InRangePixels(img)[b])
  {
    CandidatesOrdered(img, |img.data|);
  }
}
