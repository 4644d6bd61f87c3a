# 4D player core in Dafny

This project models the depth-to-mesh pipeline and frame scheduling of the 4D video player
(`Player::PlayerImpl` in `src/libs/3dvideo/src/player.cpp`) and the camera intrinsics it
rescales (`CameraParams` in `src/libs/util/include/util/camera.hpp`). The model covers:

- **Camera** (`camera.dfy`). `CameraParams` holds the focal length, principal point and image
  size. The datatype constructor stores them unchanged. `Scale` multiplies the intrinsics and
  truncates the scaled size toward zero.
- **Geometry** (`geometry.dfy`). This module holds 3D points and the explicit-vertex `Triangle3D`
  with its edges `a`, `b` and `c`. Edge lengths are compared in squared form.
- **PointCloud** (`point_cloud.dfy`). The raster scan of the `uint16` depth image keeps a pixel
  when `200 < d < 6000`, stopping once `SHRT_MAX` points are kept. It emits the truncated scaled
  pixel list `points` and the index-aligned back-projected `cloud`. `InRangePixels` is a
  reference definition of the pixels in range. `BuildPointCloud` is the nested loop of the
  source, proved against that definition.
- **MeshFilter** (`mesh_filter.dfy`). Each triangle is resolved through `indexMap` into the
  cloud. A triangle is rejected when its depth spread exceeds 0.1 or one of its edges exceeds
  0.15. `CompactTriangles` is the source's compaction loop over the fixed-capacity buffers, and
  it writes each candidate into slot `j` before testing it. `Kept` is its reference definition.
  `FreezeCenter` computes the model centre on the first call only.
- **Playback** (`playback.dfy`). This module covers the scheduling part of `loopBody`. A frame
  is popped only when none is held. The epoch restarts when the frame number drops below the
  last played one. The live gate is the `static bool once`, which opens only once, and
  the tail of `setupNewFrame` hands the frame on. The timestamp pacing test that follows the
  gate's `return` statements is unreachable in the source. It is modelled separately as
  `PacingDue`.
- **Player** (`player.dfy`). This module holds the initialisation of the scale factor
  (`640 / w`), `setupNewFrame` as a method combining the stages above, and one `loopBody`
  iteration. The `draw` step is reduced to handing off the accepted prefix of the buffers
  and the vertex count of its draw call.

Floats are modelled as `real`, and timestamps and wall-clock time as integer microseconds. The
current time is a parameter. The value produced by the bounded-wait queue pop is a parameter
too. `project2dPointTo3d`, the Delaunay triangulation, `triNormal` and `meanPoint` are library
code outside this model. They are function-valued fields of `Player.Collaborators`. The player
relies on the triangulation of each played frame's points returning an `indexMap` with one entry
per point, every entry a valid point index, triangle indices inside the map and no more triangles
than the buffers hold (`Player.Fits`, applied to the frame's scanned points by `Player.FrameFits`).
`SetupNewFrame` and `LoopBody` require this of the frame they process.

The model follows the code in these details:

- Scaled pixel coordinates are truncated by the `short(...)` cast, not rounded.
- Both threshold tests use a strict `>`. A triangle whose spread or edge length equals the
  threshold is kept, not rejected.
- The model centre is computed on the first `setupNewFrame` call even when that frame's cloud
  is empty. It does not wait for the first non-empty cloud.
- A rejected triangle is still written into slot `num3DTriangles` of `triangles3D`. Only the
  slots after it are guaranteed untouched.
- The gate in `canPlayCurrentFrame` returns true once and false afterwards. So at most one
  frame is ever played (none if the queue never yields one), and the next held frame is never
  released.
  `Playback.AtMostOneFramePlayed` and `Playback.HeldFrameStaysHeld` state this.

## Model

| member | source | states |
|---|---|---|
| Camera.Trunc | src/libs/util/include/util/camera.hpp:18 | The float-to-int conversion rounds toward zero: the result is within one of the input, on the same side of zero. |
| Camera.TruncOfIntegral | src/libs/util/include/util/camera.hpp:18 | An integral value survives the truncating conversion unchanged. |
| Camera.Scale | src/libs/util/include/util/camera.hpp:16-19 | `scale(c)` multiplies `f`, `cx` and `cy` by `c`; `w` and `h` become `w*c` and `h*c` truncated toward zero. |
| Camera.ScaleByOneIsIdentity | src/libs/util/include/util/camera.hpp:16-19 | `scale(1)` leaves every field unchanged. |
| Camera.ScaleKeepsSizeNonNegative | src/libs/util/include/util/camera.hpp:18 | A non-negative factor keeps a non-negative width and height non-negative. |
| Camera.ScaleIntrinsicsInverse | src/libs/util/include/util/camera.hpp:18 | Scaling by `c` and then by `1/c` restores `f`, `cx` and `cy`. |
| Camera.ScaleToTargetWidth | src/libs/util/include/util/camera.hpp:16-19 | With exact arithmetic, the factor `target / w` used by `init` makes the scaled width exactly `target`. |
| Geometry.NormExceedsIff | src/libs/3dvideo/src/player.cpp:263-268 | For a non-negative threshold, a length exceeds it exactly when the squared length exceeds the squared threshold. |
| PointCloud.Admitted | src/libs/3dvideo/src/player.cpp:226 | The admitted pixels are the first `min(N, 32767)` in-range pixels, where N is the number of in-range pixels. |
| PointCloud.ScaledPoint | src/libs/3dvideo/src/player.cpp:222-229 | The stored point of a pixel is its scaled row and column, each truncated toward zero. |
| PointCloud.ScaleCoord | src/libs/3dvideo/src/player.cpp:222-228 | A stored point coordinate is the pixel row or column times the scale, truncated toward zero, and is non-negative for a non-negative scale. |
| PointCloud.InRangePixelsExact | src/libs/3dvideo/src/player.cpp:219-226 | A pixel is found by the scan iff it lies in the image, carries its own depth and has `200 < d < 6000`. |
| PointCloud.InRangePixelsRasterOrdered | src/libs/3dvideo/src/player.cpp:220-225 | The in-range pixels come out in strict row-major order. |
| PointCloud.ScanRow | src/libs/3dvideo/src/player.cpp:222-231 | One pass of the column loop extends `points` and `cloud` to the truncated scaled pixels and back-projections of the first `SHRT_MAX` in-range pixels of the rows up to and including this one. |
| PointCloud.BuildPointCloud | src/libs/3dvideo/src/player.cpp:216-233 | `points` and `cloud` have equal length, at most `SHRT_MAX`, and are the truncated scaled pixels of the admitted pixels and their back-projections at each pixel's depth. |
| MeshFilter.Resolve | src/libs/3dvideo/src/player.cpp:251-253 | Each vertex of a resolved triangle is a point of the cloud, looked up through `indexMap`. |
| MeshFilter.ZSpread | src/libs/3dvideo/src/player.cpp:255-259 | `maxZ - minZ` over the three vertices is never negative. |
| MeshFilter.ZSpreadIsRange | src/libs/3dvideo/src/player.cpp:255-259 | `maxZ - minZ` is non-negative, bounds every pairwise z difference and equals one of them. |
| MeshFilter.Rejected | src/libs/3dvideo/src/player.cpp:260-268 | A triangle is rejected when its z-spread exceeds 0.1 or one squared edge length exceeds 0.15 squared. `RejectedIffNormTest` relates it to the source's test. |
| MeshFilter.FlatNormal | src/libs/3dvideo/src/player.cpp:270-272 | All three vertex normals of an accepted slot are the one face normal `triNormal` gives. |
| MeshFilter.Kept | src/libs/3dvideo/src/player.cpp:245-277 | The compacted output never has more triangles than the input. |
| MeshFilter.KeptWithinThresholds | src/libs/3dvideo/src/player.cpp:245-268 | Every kept triangle has all pairwise z differences `<= 0.1` and all squared edge lengths `<= 0.15^2`. |
| MeshFilter.KeptShorterIfRejected | src/libs/3dvideo/src/player.cpp:245-274 | If any input triangle is rejected, fewer triangles are kept than were input. |
| MeshFilter.KeptExactly | src/libs/3dvideo/src/player.cpp:246-268 | A triangle is kept iff it passes the test and is the resolution of some input triangle through `indexMap` into the cloud. |
| MeshFilter.RejectedIffNormTest | src/libs/3dvideo/src/player.cpp:260-268 | The squared-length rejection test decides the same as the source's test on the z-spread and the three `cv::norm` lengths. |
| MeshFilter.ThresholdsAreInclusive | src/libs/3dvideo/src/player.cpp:260-268 | A triangle with z-spread exactly 0.1, one edge exactly 0.15 and the others no longer is kept, because both comparisons are strict. |
| MeshFilter.CompactTriangles | src/libs/3dvideo/src/player.cpp:245-277 | `num3DTriangles <= numTriangles`. The buffer prefix holds exactly the kept triangles in input order with no gaps, each with its flat normal on all three vertices. Later normal slots and `triangles3D` slots past `num3DTriangles` are untouched. Slot `num3DTriangles` holds the last input triangle if it was rejected, and is otherwise untouched. |
| MeshFilter.FreezeCenter | src/libs/3dvideo/src/player.cpp:279-280 | The centre is always set afterwards: it is kept when already set, and otherwise it is the mean of the current cloud. |
| MeshFilter.CenterIsFirstFramesMean | src/libs/3dvideo/src/player.cpp:279-280 | After any run of frames, the centre is the mean of the first frame's cloud, even if that cloud is empty. |
| MeshFilter.CenterFrozen | src/libs/3dvideo/src/player.cpp:279-280 | Once set, the centre never changes on later frames. |
| Playback.InitialSchedule | src/libs/3dvideo/src/player.cpp:430-434 | The player starts holding no frame, with the gate unused and `lastPlayedFrame` at `INT_MAX`. |
| Playback.Receive | src/libs/3dvideo/src/player.cpp:175-185 | A held frame is kept and the pop is used only when nothing is held. A held frame numbered below `lastPlayedFrame` restarts the epoch at `now` with its timestamp. Otherwise the epoch is unchanged. |
| Playback.LiveGate | src/libs/3dvideo/src/player.cpp:198-207 | `canPlayCurrentFrame` is true iff a frame is held and the `once` flag is unset, and answering true sets the flag. |
| Playback.Play | src/libs/3dvideo/src/player.cpp:282-284 | Playing records the frame number as `lastPlayedFrame`, hands the held frame on and clears `currentFrame`. |
| Playback.Step | src/libs/3dvideo/src/player.cpp:175-207 | A frame is played iff the gate is unused and a frame is held or popped. The played frame is the held frame, or the popped one if none was held. Playing uses up the gate, records the frame number and clears the held frame. Without playing, the gate and `lastPlayedFrame` are unchanged and the frame stays held. The epoch restarts at `now` with the held frame's timestamp iff its number is below `lastPlayedFrame`; otherwise it is unchanged. |
| Playback.HeldFrameBlocksPop | src/libs/3dvideo/src/player.cpp:175-176 | While a frame is held, the queue's output has no influence on the step. |
| Playback.NothingPlaysAfterGate | src/libs/3dvideo/src/player.cpp:203-207 | After the gate has opened, no later iteration plays a frame. |
| Playback.AtMostOneFramePlayed | src/libs/3dvideo/src/player.cpp:203-207 | Over any run of loop iterations at most one frame is played, and none if the gate was already used. |
| Playback.HeldFrameStaysHeld | src/libs/3dvideo/src/player.cpp:175-207 | Once the gate is used, a held frame is held forever, so the queue is never popped again. |
| Playback.FirstFramePlaysImmediately | src/libs/3dvideo/src/player.cpp:175-207 | From start-up, the first popped frame (numbered below `INT_MAX`) is played at once and opens an epoch at its timestamp and `now`. |
| Playback.PacingDue | src/libs/3dvideo/src/player.cpp:209-211 | The unreachable pacing test: the wall-clock time since the epoch started is at least the frame's timestamp offset from the epoch's first timestamp. |
| Playback.PacingMonotoneInTime | src/libs/3dvideo/src/player.cpp:209-211 | In the unreachable pacing test, a frame that is due stays due as wall-clock time advances. |
| Playback.PacingRespectsTimestampOrder | src/libs/3dvideo/src/player.cpp:209-211 | In the unreachable pacing test, within one epoch a later-stamped frame is never due before an earlier-stamped one. |
| Playback.EpochFrameDueAtReset | src/libs/3dvideo/src/player.cpp:180-185 | A consistency check of the epoch reset with the pacing test, not a pacing guarantee: right after the reset, the elapsed time and the timestamp offset are both zero, so the frame that restarted the epoch is due. |
| Player.InitialPlayer | src/libs/3dvideo/src/player.cpp:92-116 | After construction and `init`, the buffers have `maxNumTriangles` slots. The scale is `640 / w`, the camera width becomes exactly 640 and the intrinsics are multiplied by the scale. Nothing is held or drawn and the centre is unset. |
| Player.InitialPlayerValid | src/libs/3dvideo/src/player.cpp:92-97 | A freshly built player satisfies the state invariant. |
| Player.SetupNewFrame | src/libs/3dvideo/src/player.cpp:214-280 | The new cloud is the scan of the frame and the triangles are its triangulation. The buffer prefix holds the kept triangles with their normals, and the slots past it are untouched as in the compaction. The centre is frozen after its first computation, and the state invariant is preserved. |
| Player.LoopBody | src/libs/3dvideo/src/player.cpp:171-196 | Scheduling follows `Step`. Geometry changes only when a frame is played, and then the uploaded triangles are the kept triangles of that frame. `frameToDraw` is cleared. Something is uploaded iff a frame was played or one was pending. Every uploaded triangle comes with its flat normal, and the state invariant is preserved. For a played frame, the triangles are the triangulation of the frame's scanned points, `pointNormals` slots from `num3DTriangles` on and `triangles3D` slots after `num3DTriangles` are untouched, as in `CompactTriangles` (slot `num3DTriangles` of `triangles3D` may hold the last rejected candidate), and the centre is the mean of the new cloud if it was unset. A centre already set never changes. `drawn` is the corrected vertex count of the draw call (see Findings), three per accepted slot: three per uploaded triangle, and three per kept triangle of a frame just played. The source's count is `DrawCountAsWritten`. |
| Player.DrawCountAsWritten | src/libs/3dvideo/src/player.cpp:397 | The vertex count the draw call asks for as written: three per triangle of the triangulation. |
| Player.DrawAsWrittenOverruns | src/libs/3dvideo/src/player.cpp:361-397 | The draw call as written, with `3 * numTriangles` vertices, asks for more vertices than the kept triangles have whenever any triangle of the frame is rejected. The kept triangles are exactly what `SetupNewFrame` leaves in the first `num3DTriangles` slots, and that is what is uploaded. |

## Findings

| source | as written | input that shows it | evidently intended | confidence | as-written member | corrected member |
|---|---|---|---|---|---|---|
| src/libs/3dvideo/src/player.cpp:397 | `glDrawArrays(GL_TRIANGLES, 0, 3 * numTriangles)` draws three vertices per triangle of the triangulation, but lines 361-363 upload only `num3DTriangles` triangles | any frame whose triangulation has one triangle spanning a depth jump above 0.1 m, so that `num3DTriangles < numTriangles` | draw `3 * num3DTriangles` vertices, the accepted prefix that was uploaded | medium, not executed | Player.DrawAsWrittenOverruns | Player.LoopBody |

## Left out

- Window creation, OpenGL set-up, shaders, buffer uploads and `computeMatricesFromInputs`/`onScroll` are rendering and input code, not part of this model. `draw` is reduced to handing off the accepted buffer prefix and the vertex count of its draw call. That count is the corrected `3 * num3DTriangles` (`drawn` of `LoopBody`); the source's `3 * numTriangles` is `Player.DrawCountAsWritten` (see Findings).
- The `activePlayer` global and the GLFW callbacks are callback plumbing, and `Player::init`'s sleep-polling is thread plumbing. None of them is modelled. Of `Player::run`, only the scheduling part of its loop is modelled: `Playback.Run` folds `Step` over a sequence of iterations. Its thread and cancellation handling is not modelled.
- `FrameQueue::pop` with its 10 ms timeout is concurrency. Its outcome is a parameter of `LoopBody`.
- `project2dPointTo3d`, the Delaunay triangulation, `triNormal`, `meanPoint` and `cv::norm` are library code whose source is not part of this model. They are uninterpreted function values, and the norm is replaced by squared-length comparisons (`Geometry.NormExceedsIff`).
- IEEE float rounding is not modelled. Exact reals make `scale(640 / w)` give width 640, where floats may give 639. The thresholds `0.15f` and `0.1f` are taken as exact decimals.
- PointCloud.ScaleCoord: a `short(...)` cast of a value outside the `short` range is undefined behaviour in C++. The model truncates without range reduction.
- Player.InitialPlayer: requires a positive native width. The source divides by `w` without a check, and for `w == 0` it would scale by infinity.
- Playback.LiveGate: the source's `once` is a function-local static, shared by every player in the process. The model keeps it as `liveGateUsed` in each player's state, and `InitialPlayer` starts it unset. This matches the source when the process creates one player, which the model assumes.
- The `glfwWindowShouldClose` result of `loopBody` is window state and is not modelled.
- `mesh_frame.hpp` holds only data containers and queue typedefs. Its `Triangle3D` is the same as the one in `player.cpp`, which `Geometry.Triangle3D` models.
