/**
  `Player::PlayerImpl` without its window and OpenGL parts: initialisation of the camera scale,
  `setupNewFrame` (scan, triangulate, filter, freeze the centre, hand off) and one `loopBody`
  iteration, whose `draw` step is reduced to the hand-off of the accepted prefix of the buffers.
*/
module Player {
  import opened Wrappers
  import opened Camera
  import opened Geometry
  import opened PointCloud
  import opened MeshFilter
  import opened Playback

  /** `targetW`: the processing width the depth camera is rescaled to. */
  const TargetW: nat := 640

  /** What the Delaunay wrapper returns: the triangles and, per internal point, its index in `points`. */
  datatype Triangulation = Triangulation(triangles: seq<IndexTriangle>, indexMap: seq<int>)

  /** The library code the player calls but that is not part of this model. */
  datatype Collaborators = Collaborators(
    project: Projection,
    triangulate: seq<PointIJ> -> Triangulation,
    triNormal: NormalFn,
    meanPoint: MeanFn)

  /**
    What the player relies on from the triangulation of n points: an `indexMap` of n entries, all
    naming one of the n points, triangles that index into it, and no more triangles than the
    buffers hold (`maxNumTriangles`).
  */
  predicate Fits(tr: Triangulation, n: nat, capacity: nat) {
    |tr.triangles| <= capacity && |tr.indexMap| == n && Resolvable(tr.triangles, tr.indexMap, n)
  }

  /** The triangulation of the points scanned from `img` fits buffers of `capacity` slots. */
  predicate FrameFits(ext: Collaborators, img: DepthImage, scale: real, capacity: nat)
    requires img.Valid()
  {
    Fits(ext.triangulate(ScaledPoints(img, scale)), |ScaledPoints(img, scale)|, capacity)
  }

  /** The geometry fields of the player; `triangles3D` and `pointNormals` are the fixed-capacity buffers. */
  datatype MeshState = MeshState(
    points: seq<PointIJ>,
    cloud: seq<Point3>,
    triangles: seq<IndexTriangle>,
    indexMap: seq<int>,
    triangles3D: seq<Triangle3D>,
    pointNormals: seq<Triangle3D>,
    num3DTriangles: nat,
    modelCenter: Option<Point3>)
  {
    /**
      The triangles resolve into the cloud, the buffers have one capacity, the accepted count fits
      in it, and each accepted slot has its flat normal.
    */
    predicate Consistent(triNormal: NormalFn) {
      && |points| == |cloud|
      && Resolvable(triangles, indexMap, |cloud|)
      && |pointNormals| == |triangles3D|
      && num3DTriangles <= |triangles3D|
      && forall k :: 0 <= k < num3DTriangles ==> pointNormals[k] == FlatNormal(triNormal, triangles3D[k])
    }
  }

  datatype PlayerState = PlayerState(
    sched: Schedule,
    frameToDraw: Option<Frame>,
    mesh: MeshState,
    depthCam: CameraParams,
    scale: real)
  {
    predicate Valid(ext: Collaborators) {
      && mesh.Consistent(ext.triNormal)
      && (sched.currentFrame.Some? ==> sched.currentFrame.value.depth.Valid())
    }
  }

  /** The accepted triangles and their normals, as `draw` uploads them. */
  datatype Upload = Upload(triangles: seq<Triangle3D>, normals: seq<Triangle3D>)

  const ZeroTriangle: Triangle3D := Triangle3D(Point3(0.0, 0.0, 0.0), Point3(0.0, 0.0, 0.0), Point3(0.0, 0.0, 0.0))

  /**
    The constructor (buffers of `maxNumTriangles` slots) followed by the camera part of `init`:
    `scale = targetW / w` and the depth camera rescaled by it.
  */
  function InitialPlayer(nativeCam: CameraParams, maxNumTriangles: nat): (p: PlayerState)
    requires nativeCam.w > 0
    ensures p.depthCam.w == TargetW
    ensures p.scale * nativeCam.w as real == TargetW as real
    ensures p.depthCam.f == nativeCam.f * p.scale && p.depthCam.cx == nativeCam.cx * p.scale
    ensures p.depthCam.cy == nativeCam.cy * p.scale
    ensures |p.mesh.triangles3D| == maxNumTriangles && p.mesh.num3DTriangles == 0
    ensures p.mesh.modelCenter.None? && p.frameToDraw.None?
    ensures p.sched == InitialSchedule()
  {
    var scale := TargetW as real / nativeCam.w as real;
    ScaleToTargetWidth(nativeCam, TargetW);
    var buffer := seq(maxNumTriangles, _ => ZeroTriangle);
    PlayerState(InitialSchedule(), None,
                MeshState([], [], [], [], buffer, buffer, 0, None),
                Scale(nativeCam, scale), scale)
  }

  /** A freshly initialised player satisfies the state invariant. */
  lemma InitialPlayerValid(nativeCam: CameraParams, maxNumTriangles: nat, ext: Collaborators)
    requires nativeCam.w > 0
    ensures InitialPlayer(nativeCam, maxNumTriangles).Valid(ext)
  {
  }

  /**
    The geometry of `setupNewFrame` for the held frame: scan the depth image, triangulate the
    scaled pixels, filter and compact the triangles, and compute the model centre if not yet done.
  */
  method SetupNewFrame(m: MeshState, frame: Frame, scale: real, cam: CameraParams, ext: Collaborators)
    returns (r: MeshState)
    requires frame.depth.Valid() && m.Consistent(ext.triNormal)
    requires FrameFits(ext, frame.depth, scale, |m.triangles3D|)
    ensures r.Consistent(ext.triNormal)
    ensures |r.triangles3D| == |m.triangles3D|
    ensures AlignedWith(Admitted(frame.depth), r.points, r.cloud, scale, cam, ext.project)
    ensures Triangulation(r.triangles, r.indexMap) == ext.triangulate(r.points)
    ensures Resolvable(r.triangles, r.indexMap, |r.cloud|)
    ensures r.num3DTriangles <= |r.triangles|
    ensures r.triangles3D[..r.num3DTriangles] == Kept(r.triangles, r.indexMap, r.cloud)
    ensures forall k :: r.num3DTriangles < k < |r.triangles3D| ==> r.triangles3D[k] == m.triangles3D[k]
    ensures forall k :: r.num3DTriangles <= k < |r.pointNormals| ==> r.pointNormals[k] == m.pointNormals[k]
    ensures m.modelCenter.Some? ==> r.modelCenter == m.modelCenter
    ensures m.modelCenter.None? ==> r.modelCenter == Some(ext.meanPoint(r.cloud))
  {
    var points, cloud := BuildPointCloud(frame.depth, scale, cam, ext.project);
    var tr := ext.triangulate(points);
    assert points == ScaledPoints(frame.depth, scale);
    var triangles3D, pointNormals, num3DTriangles :=
      CompactTriangles(tr.triangles, tr.indexMap, cloud, m.triangles3D, m.pointNormals, ext.triNormal);
    var center := FreezeCenter(m.modelCenter, cloud, ext.meanPoint);
    r := MeshState(points, cloud, tr.triangles, tr.indexMap, triangles3D, pointNormals, num3DTriangles, center);
  }

  /**
    One iteration of `loopBody`: the scheduling step, `setupNewFrame` when the gate opens, then the
    hand-off half of `draw`, which uploads the accepted prefix of the buffers and clears `frameToDraw`.
  */
  method LoopBody(p: PlayerState, popped: Option<Frame>, now: int, ext: Collaborators)
    returns (q: PlayerState, uploaded: Option<Upload>, drawn: nat)
    requires p.Valid(ext)
    requires popped.Some? ==> popped.value.depth.Valid()
    requires Step(p.sched, popped, now).1.Some? ==>
      FrameFits(ext, Step(p.sched, popped, now).1.value.depth, p.scale, |p.mesh.triangles3D|)
    ensures q.Valid(ext)
    ensures q.frameToDraw.None?
    ensures q.sched == Step(p.sched, popped, now).0
    ensures q.depthCam == p.depthCam && q.scale == p.scale
    ensures Step(p.sched, popped, now).1.None? ==> q.mesh == p.mesh
    ensures |q.mesh.triangles3D| == |p.mesh.triangles3D|
    ensures Step(p.sched, popped, now).1.Some? ==>
      Triangulation(q.mesh.triangles, q.mesh.indexMap) == ext.triangulate(q.mesh.points)
    ensures Step(p.sched, popped, now).1.Some? ==>
      && (forall k :: q.mesh.num3DTriangles < k < |q.mesh.triangles3D| ==> q.mesh.triangles3D[k] == p.mesh.triangles3D[k])
      && (forall k :: q.mesh.num3DTriangles <= k < |q.mesh.pointNormals| ==> q.mesh.pointNormals[k] == p.mesh.pointNormals[k])
    ensures p.mesh.modelCenter.Some? ==> q.mesh.modelCenter == p.mesh.modelCenter
    ensures Step(p.sched, popped, now).1.Some? && p.mesh.modelCenter.None? ==>
      q.mesh.modelCenter == Some(ext.meanPoint(q.mesh.cloud))
    ensures uploaded.Some? <==> Step(p.sched, popped, now).1.Some? || p.frameToDraw.Some?
    ensures Step(p.sched, popped, now).1.Some? ==>
      && AlignedWith(Admitted(Step(p.sched, popped, now).1.value.depth), q.mesh.points, q.mesh.cloud,
                     p.scale, p.depthCam, ext.project)
      && uploaded.value.triangles == Kept(q.mesh.triangles, q.mesh.indexMap, q.mesh.cloud)
    ensures uploaded.Some? ==>
      && |uploaded.value.normals| == |uploaded.value.triangles|
      && forall k :: 0 <= k < |uploaded.value.triangles| ==>
           uploaded.value.normals[k] == FlatNormal(ext.triNormal, uploaded.value.triangles[k])
    ensures drawn == 3 * q.mesh.num3DTriangles
    ensures uploaded.Some? ==> drawn == 3 * |uploaded.value.triangles|
    ensures Step(p.sched, popped, now).1.Some? ==> drawn == 3 * |Kept(q.mesh.triangles, q.mesh.indexMap, q.mesh.cloud)|
  {
    var step := Step(p.sched, popped, now);
    var sched, played := step.0, step.1;
    var mesh := p.mesh;
    var frameToDraw := p.frameToDraw;
    if played.Some? {
      mesh := SetupNewFrame(p.mesh, played.value, p.scale, p.depthCam, ext);
      frameToDraw := played;
    }
    uploaded := None;
    if frameToDraw.Some? {
      uploaded := Some(Upload(mesh.triangles3D[..mesh.num3DTriangles], mesh.pointNormals[..mesh.num3DTriangles]));
    }
    q := PlayerState(sched, None, mesh, p.depthCam, p.scale);
    drawn := 3 * mesh.num3DTriangles;
  }

  /**
    The vertex count `draw` passes to `glDrawArrays` as written: three per triangle of the
    triangulation, although only the `num3DTriangles` accepted triangles were uploaded.
  */
  function DrawCountAsWritten(m: MeshState): nat {
    3 * |m.triangles|
  }

  /**
    As written, `draw` asks for more vertices than the kept triangles have, which is what
    `SetupNewFrame` uploads, as soon as one triangle of the frame is rejected.
  */
  lemma DrawAsWrittenOverruns(m: MeshState, i: int)
    requires Resolvable(m.triangles, m.indexMap, |m.cloud|) && 0 <= i < |m.triangles|
    requires Rejected(Resolve(m.triangles[i], m.indexMap, m.cloud))
    ensures DrawCountAsWritten(m) > 3 * |Kept(m.triangles, m.indexMap, m.cloud)|
  {
    KeptShorterIfRejected(m.triangles, m.indexMap, m.cloud, i);
  }
}
