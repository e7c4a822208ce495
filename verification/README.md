# sonar core: feature selection, pyramidal KLT tracking, cameras, poses and marker tracking

This project is a Dafny model of the core of the sonar tracking library. It covers:

- **FeatureDetector**: the grid feature selector. It runs FAST over a range of pyramid
  levels and lifts coarse candidates to level-0 pixels. It keeps the best Shi-Tomasi
  candidate per grid cell, optionally skipping cells that already hold a tracked
  corner. It emits the qualifying cells in shuffled order up to a count cap.
- **OpticalFlowCalculator**: the single-level KLT tracker. This covers its configuration
  and valid-region margins, bilinear sub-pixel sampling, the determinant gate and the
  refinement loop with its `|delta + prevDelta| < eps` stop test.
- **OpticalFlow**: the pyramidal driver, single-point and batched. It goes from the
  coarsest level down to level 0, rescaling estimates by `2^level` and rejecting
  points that move faster than the velocity bound.
- **CameraIntrinsics**: the base class and the pinhole camera, with their projection
  and unprojection and the batch variants.
- **Pose** (`global_types.h`): transform, composition, inverse and the world-camera
  accessors.
- **AbstractTrackingSystem / MarkerTrackingSystem**: creating a system, the pose it
  reports, and one frame of marker tracking.
- **MarkerFinder**: which detected ArUco marker is reported, and the id the finder
  remembers.

Numerical kernels the library delegates to other code are parameters (oracles) of the
model:

- the FAST detector and the Shi-Tomasi score
- the structure matrix's determinant and the per-iteration KLT correction
- Eigen's 3x3 inverse
- ArUco detection, the affine least-squares fit and the pose solver

Reals stand for floats. The `cast<uchar>` truncation of the byte sampler is written out.
The random shuffle is an arbitrary permutation of the cell indices.

Files, one module each:

- `geometry.dfy` (`Geometry`): points and integer helpers.
- `feature_detector.dfy` (`FeatureDetector`)
- `flow_calculator.dfy` (`FlowCalculator`)
- `optical_flow.dfy` (`OpticalFlow`)
- `camera.dfy` (`Camera`)
- `pose.dfy` (`Poses`)
- `marker_finder.dfy` (`Markers`)
- `tracking_system.dfy` (`Tracking`)

Where the code and its evident intent differ, the model follows the code. Examples:

- The detector's level loop stops after the first positive level.
- The emission cap lets one extra feature through.
- The pyramidal tracker runs level 0 twice.

Each such difference is modelled as written and, under "## Findings", also as evidently
intended.

## Model

| member | source | states |
|---|---|---|
| FeatureDetector.NewDetector | lib/src/sonar/ImageTools/FeatureDetector.cpp:11-20 | A new selector is valid and has the documented defaults: barrier 4, threshold 80, levels 1..-1, 25x25 grid of zeroed cells, at most 1000 features, border 12. |
| FeatureDetector.Resize | lib/src/sonar/ImageTools/FeatureDetector.cpp:36 | `std::vector::resize`: the new length, the old prefix kept, new slots filled. |
| FeatureDetector.SetGridSize | lib/src/sonar/ImageTools/FeatureDetector.cpp:27-37 | One cell per partition (`gx*gy` cells), new cells zeroed, no other field changed, validity kept. |
| FeatureDetector.SetMaxCountFeatures | lib/src/sonar/ImageTools/FeatureDetector.cpp:54-57 | Sets the cap; nothing else changes; validity kept. |
| FeatureDetector.SetBorderSize | lib/src/sonar/ImageTools/FeatureDetector.cpp:64-68 | Needs a non-negative border (the source asserts it); nothing else changes. |
| FeatureDetector.SetBarrier | lib/src/sonar/ImageTools/FeatureDetector.cpp:75-78 | Sets the FAST barrier; nothing else changes. |
| FeatureDetector.SetDetectionThreshold | lib/src/sonar/ImageTools/FeatureDetector.cpp:85-90 | Needs a positive threshold (asserted); nothing else changes. |
| FeatureDetector.SetLevelForFeature | lib/src/sonar/ImageTools/FeatureDetector.cpp:102-106 | Sets both level bounds; nothing else changes. |
| FeatureDetector.LevelRange | lib/src/sonar/ImageTools/FeatureDetector.cpp:124-127 | The first level is the minimum clamped at 0. The last level is the maximum when it names an existing level, else the top level; it always exists. |
| FeatureDetector.VisitedLevelsShape | lib/src/sonar/ImageTools/FeatureDetector.cpp:129-165 | The written loop visits nothing for an empty range, only `min` when `min > 0`, and only `[0]` or `[0, 1]` from 0, whatever the maximum. |
| FeatureDetector.AllLevels | lib/src/sonar/ImageTools/FeatureDetector.cpp:129-165 | The intended level loop: exactly the levels `min..max`, each once. |
| FeatureDetector.VisitedLevelsSkipsLevels | lib/src/sonar/ImageTools/FeatureDetector.cpp:151-154 | On the range 0..2 the written loop never detects on level 2, which the intended loop does. |
| FeatureDetector.VisitedLevels | lib/src/sonar/ImageTools/FeatureDetector.cpp:129-165 | The written loop visits only levels inside the requested range, and at most two of them (one when the range starts above 0). |
| FeatureDetector.LiftLevel | lib/src/sonar/ImageTools/FeatureDetector.cpp:139-163 | Each candidate of level `l` is scaled by `2^l` and tagged with `l`; level-0 candidates keep their position and get tag 0. |
| FeatureDetector.Gather | lib/src/sonar/ImageTools/FeatureDetector.cpp:129-165 | Every gathered candidate comes from a visited level and from inside that level's FAST window. |
| FeatureDetector.FromWindowInImage | lib/src/sonar/ImageTools/FeatureDetector.cpp:143-150 | In a pyramid whose level `k` is at most `ceil(size0/2^k)`, a lifted candidate lies inside the level-0 image, so the debug `assert(false)` cannot fire. |
| FeatureDetector.GuardCoversAll | lib/src/sonar/ImageTools/FeatureDetector.cpp:143-150 | Checking only the lifted candidates is the same as checking all of them (level-0 ones are in the image by construction); for a well-formed pyramid all pass. |
| FeatureDetector.CellCoordInRange | lib/src/sonar/ImageTools/FeatureDetector.cpp:117-118 | `floor(v / (size/grid))` of an in-image coordinate is a valid grid coordinate. |
| FeatureDetector.CellIndexInRange | lib/src/sonar/ImageTools/FeatureDetector.cpp:179 | The cell index the selector computes for an in-image pixel addresses an existing cell. |
| FeatureDetector.CellIndex | lib/src/sonar/ImageTools/FeatureDetector.cpp:179 | For an in-image pixel the index addresses an existing cell and decodes row-major (stride `gridSize.x`) to the pixel's cell row and column. |
| FeatureDetector.IndexOfCellMatchesSelector | lib/src/sonar/ImageTools/FeatureDetector.cpp:39-47 | With the row stride corrected to `gridSize.x`, `indexOfCell` equals the selector's own cell index and is in range. |
| FeatureDetector.IndexOfCellAsWrittenSquare | lib/src/sonar/ImageTools/FeatureDetector.cpp:39-47 | The written `indexOfCell` (stride `gridSize.y`) is right on square grids. |
| FeatureDetector.IndexOfCellAsWrittenOutOfRange | lib/src/sonar/ImageTools/FeatureDetector.cpp:39-47 | On a 1x2 grid the written `indexOfCell` maps pixel (0,1) to cell 2 of 2; the selector and the corrected one give 1. |
| FeatureDetector.IndexOfCellAsWritten | lib/src/sonar/ImageTools/FeatureDetector.cpp:39-47 | The written index decodes with stride `gridSize.y` to the pixel's cell row and column whenever the column is below `gridSize.y`. |
| FeatureDetector.IndexOfCell | lib/src/sonar/ImageTools/FeatureDetector.cpp:39-47 | The corrected index decodes with stride `gridSize.x` to the pixel's cell row and column whenever the column is below `gridSize.x`. |
| FeatureDetector.ResetScores | lib/src/sonar/ImageTools/FeatureDetector.cpp:167-170 | Every cell's score is set to the reset value; positions and levels are left alone. |
| FeatureDetector.LastCandidateWins | lib/src/sonar/ImageTools/FeatureDetector.cpp:181-186 | A candidate strictly better than its cell's current score wins the cell over all earlier candidates there. |
| FeatureDetector.SelectedIgnoring | lib/src/sonar/ImageTools/FeatureDetector.cpp:181-186 | A candidate in a blocked cell, or not strictly better, keeps the selection invariant without changing a cell. |
| FeatureDetector.SelectedReplacing | lib/src/sonar/ImageTools/FeatureDetector.cpp:290-298 | A strictly better candidate in an unblocked cell keeps the invariant when it replaces its cell. |
| FeatureDetector.UpdateCells | lib/src/sonar/ImageTools/FeatureDetector.cpp:285-299 | After the scoring loop, blocked cells are untouched and scores never drop. Every unblocked candidate scores at most its cell's final score. A changed cell holds a strictly better candidate that beat every earlier candidate of that cell. |
| FeatureDetector.BlockedCells | lib/src/sonar/ImageTools/FeatureDetector.cpp:269-276 | A cell is blocked exactly when some already tracked corner lies in it. |
| FeatureDetector.Qualifying | lib/src/sonar/ImageTools/FeatureDetector.cpp:196-205 | The emission walk yields exactly the cells above the threshold, in shuffled order, each once. |
| FeatureDetector.EmitAsWritten | lib/src/sonar/ImageTools/FeatureDetector.cpp:196-206 | The written push-then-`size > max` test emits the first `max + 1` qualifying cells (or all, if fewer). |
| FeatureDetector.EmitCapped | lib/src/sonar/ImageTools/FeatureDetector.cpp:196-206 | The intended emission: the first `max` qualifying cells. |
| FeatureDetector.EmitAsWrittenExceedsCap | lib/src/sonar/ImageTools/FeatureDetector.cpp:201-203 | With more qualifying cells than the cap, the written loop returns `max + 1` features and the intended one `max`. |
| FeatureDetector.EmitAsWrittenZeroCap | lib/src/sonar/ImageTools/FeatureDetector.cpp:201-203 | With a cap of 0 and one qualifying cell, the written loop still returns that cell. |
| FeatureDetector.ToFeatures | lib/src/sonar/ImageTools/FeatureDetector.cpp:201 | Each emitted feature carries its cell's position and level. |
| FeatureDetector.EmittedSound | lib/src/sonar/ImageTools/FeatureDetector.cpp:196-206 | Every emitted feature is a real candidate. It is above the threshold, in an unblocked cell, and is the best-scoring earliest candidate of its cell. |
| FeatureDetector.EmittedComplete | lib/src/sonar/ImageTools/FeatureDetector.cpp:196-206 | When all qualifying cells are emitted, every unblocked candidate above the threshold has an emitted feature in its cell. |
| FeatureDetector.TakeQualifying | lib/src/sonar/ImageTools/FeatureDetector.cpp:196-206 | A prefix of the qualifying walk holds distinct, in-range, above-threshold cells, and holds all of them when it is shorter than the cap. |
| FeatureDetector.AvoidsExisting | lib/src/sonar/ImageTools/FeatureDetector.cpp:285-299 | A feature emitted from an unblocked cell never shares a cell with an already tracked corner. |
| FeatureDetector.DetectCorners | lib/src/sonar/ImageTools/FeatureDetector.cpp:108-207 | The first pass fails (the debug assert) exactly when a lifted candidate leaves the image, never for a well-formed pyramid. Otherwise it returns at most `max + 1` sound features. It is complete when under the cap, and only the cells change. |
| FeatureDetector.DetectCornersExcluding | lib/src/sonar/ImageTools/FeatureDetector.cpp:209-319 | The tracking-time pass gives the same guarantees as the first pass, with scores restarting at the threshold. In addition, no feature lies in a cell holding an existing corner. |
| FeatureDetector.DetectCornersIntended | lib/src/sonar/ImageTools/FeatureDetector.cpp:108-207 | The intended first pass detects on every level of the range and returns at most `max` sound features, complete when fewer. |
| FlowCalculator.NewCalculator | lib/src/sonar/ImageTools/OpticalFlowCalculator.cpp:15-24 | The defaults: cursor (4,4) so a 9x9 window, eps 0.01, det threshold 0.01, 8 iterations, no images. |
| FlowCalculator.SetCursorSize | lib/src/sonar/ImageTools/OpticalFlowCalculator.cpp:45-63 | The window is `2c+1` pixels and the buffer `2c+3`. The margins are recomputed only when a second image is bound; otherwise they keep their old values. Nothing else changes. |
| FlowCalculator.SetFirstImage | lib/src/sonar/ImageTools/OpticalFlowCalculator.cpp:147-152 | Binds the first image and recomputes its region; only those fields change. |
| FlowCalculator.SetSecondImage | lib/src/sonar/ImageTools/OpticalFlowCalculator.cpp:159-164 | Binds the second image and recomputes its region; only those fields change. |
| FlowCalculator.SetPixelEps | lib/src/sonar/ImageTools/OpticalFlowCalculator.cpp:127-130 | The stored eps is `|eps|`; nothing else changes. |
| FlowCalculator.SetNumberIterations | lib/src/sonar/ImageTools/OpticalFlowCalculator.cpp:117-120 | The iteration budget is stored unchecked; nothing else changes. |
| FlowCalculator.SetDetThreshold | lib/src/sonar/ImageTools/OpticalFlowCalculator.cpp:137-140 | The determinant gate is stored unchecked; nothing else changes. |
| FlowCalculator.BeginMargin | lib/src/sonar/ImageTools/OpticalFlowCalculator.cpp:159-164 | The first valid position lies two pixels past the cursor, so its window starts two pixels inside the image. |
| FlowCalculator.EndMargin | lib/src/sonar/ImageTools/OpticalFlowCalculator.cpp:159-164 | The last valid position's window and its bilinear neighbour end three pixels before the image edge. |
| FlowCalculator.SeedInFirstRegion | lib/src/sonar/ImageTools/OpticalFlowCalculator.cpp:261-263 | With fresh margins, an accepted seed lies at least `cursor + 2` pixels inside the top-left edge and `cursor + 3` inside the bottom-right edge, so a first image is bound. |
| FlowCalculator.RebindingRefreshes | lib/src/sonar/ImageTools/OpticalFlowCalculator.cpp:45-63 | Setting the cursor and then both images leaves every region consistent with the current cursor. |
| FlowCalculator.StaleMarginsWithoutSecondImage | lib/src/sonar/ImageTools/OpticalFlowCalculator.cpp:55-61 | Changing the cursor with no second image bound leaves the first image's region stale. |
| FlowCalculator.BilinearWeights | lib/src/sonar/ImageTools/OpticalFlowCalculator.cpp:187-190 | The four weights sum to 1, lie in [0,1] for a fractional offset, and pick the top-left pixel at offset 0. |
| FlowCalculator.SubPixel | lib/src/sonar/ImageTools/OpticalFlowCalculator.cpp:184 | The fractional part of a position lies in [0,1). |
| FlowCalculator.GetSubPixelImageF | lib/src/sonar/ImageTools/OpticalFlowCalculator.cpp:171-204 | The float patch has the requested shape; each value blends the 2x2 block below and right of its floored source pixel with the bilinear weights. |
| FlowCalculator.GetSubPixelImage | lib/src/sonar/ImageTools/OpticalFlowCalculator.cpp:215-248 | The byte patch has the requested shape; each value is the truncated blend. |
| FlowCalculator.SubPixelReadsInImage | lib/src/sonar/ImageTools/OpticalFlowCalculator.cpp:176-178 | Under the asserted size bounds, every pixel the sampler reads is inside the image. |
| FlowCalculator.SubPixelRange | lib/src/sonar/ImageTools/OpticalFlowCalculator.cpp:215-248 | Sampling a byte image gives values in [0,255] in both variants, so the `uchar` cast never wraps. |
| FlowCalculator.IntegralSamplingCopiesF | lib/src/sonar/ImageTools/OpticalFlowCalculator.cpp:171-204 | Sampling at an integer origin copies the image block. |
| FlowCalculator.IntegralSamplingCopies | lib/src/sonar/ImageTools/OpticalFlowCalculator.cpp:215-248 | The byte sampler at an integer origin copies the image block exactly. |
| FlowCalculator.PatchExtractionFits | lib/src/sonar/ImageTools/OpticalFlowCalculator.cpp:261-265 | A seed that passes the entry check has a first image, and the patch around it satisfies the sampler's asserted bounds. |
| FlowCalculator.NullFirstImageRejects | lib/src/sonar/ImageTools/OpticalFlowCalculator.cpp:261-263 | With no first image the entry check rejects every seed. |
| FlowCalculator.PatchReadsInBounds | lib/src/sonar/ImageTools/OpticalFlowCalculator.cpp:335-352 | The central differences over the window read only inside the patch buffer. |
| FlowCalculator.SecondReadsInBounds | lib/src/sonar/ImageTools/OpticalFlowCalculator.cpp:401-427 | A position that passes the per-iteration region check reads only inside the second image. |
| FlowCalculator.XOnlyKeepsY | lib/src/sonar/ImageTools/OpticalFlowCalculator.cpp:675 | The horizontal loop never changes the y coordinate, however many corrections are applied. |
| FlowCalculator.Refine | lib/src/sonar/ImageTools/OpticalFlowCalculator.cpp:396-458 | At most `numberIterations` corrections are applied, each at a position inside the region. `Fail` means the position left the region. `Completed` means the stop test held at an iteration of at least 1, and it held at no earlier one. `Uncompleted` means the budget ran out. |
| FlowCalculator.Tracking2d | lib/src/sonar/ImageTools/OpticalFlowCalculator.cpp:259-277 | A seed outside the first region, or a determinant below the threshold, fails before any correction, with the position unmoved. Only the recorded determinant changes. A non-failing result came through both gates and follows the 2-D refinement. A `Completed` result saw no earlier close step, and `Fail` after the gates means the position left the second region. |
| FlowCalculator.HorizontalTracking | lib/src/sonar/ImageTools/OpticalFlowCalculator.cpp:313-331 | As 2-D tracking, plus a one-time row check against the second region that fails without recording the determinant. Only x moves. A `Completed` result saw no earlier close step in x, and `Fail` after the gates means x left the second region. |
| OpticalFlow.NewFlow | lib/src/sonar/ImageTools/OpticalFlow.cpp:9-13 | Three levels, cursor (20,20) so a velocity bound of 400, no pyramids. |
| OpticalFlow.SetCursorSize | lib/src/sonar/ImageTools/OpticalFlow.cpp:20-25 | Forwards the cursor to the calculator and sets the squared velocity bound to `min(cx,cy)^2`, at least 1. |
| OpticalFlow.SetNumberLevels | lib/src/sonar/ImageTools/OpticalFlow.cpp:52-57 | Needs a positive count (asserted); only the count changes. |
| OpticalFlow.SetPixelEps | lib/src/sonar/ImageTools/OpticalFlow.cpp:32-35 | Forwards to the calculator, which stores `|eps|`; nothing else changes. |
| OpticalFlow.SetMaxNumberIterations | lib/src/sonar/ImageTools/OpticalFlow.cpp:42-45 | Forwards the iteration budget to the calculator; nothing else changes. |
| OpticalFlow.SetDetThreshold | lib/src/sonar/ImageTools/OpticalFlow.cpp:64-67 | Forwards the determinant gate to the calculator; nothing else changes. |
| OpticalFlow.Reset | lib/src/sonar/ImageTools/OpticalFlow.cpp:103-107 | Both pyramids are cleared and nothing else changes. |
| OpticalFlow.SwapFirstSecond | lib/src/sonar/ImageTools/OpticalFlow.cpp:328-333 | The pyramids change places and nothing else changes. |
| OpticalFlow.SwapTwiceIsIdentity | lib/src/sonar/ImageTools/OpticalFlow.cpp:328-333 | Swapping twice restores the tracker. |
| OpticalFlow.Scale | lib/src/sonar/ImageTools/OpticalFlow.cpp:116 | A level's scale `1 << level` is at least 1. |
| OpticalFlow.Countdown | lib/src/sonar/ImageTools/OpticalFlow.cpp:112 | The coarse loop's levels run from `top - 1` down to `k`, one per step, and there are none when `top <= k`. |
| OpticalFlow.LevelStep | lib/src/sonar/ImageTools/OpticalFlow.cpp:114-129 | A calculator failure leaves the point alone. A displacement at or over the bound rejects it. An accepted estimate becomes the new full-resolution position, the estimate scaled back by `2^level`. |
| OpticalFlow.Coarse | lib/src/sonar/ImageTools/OpticalFlow.cpp:112-130 | The coarse loop visits the levels top-down. It stops only on a velocity rejection and otherwise visits every level down to the bound. |
| OpticalFlow.CountdownSplit | lib/src/sonar/ImageTools/OpticalFlow.cpp:112 | The levels down to `k` are the levels down to `k+1` followed by `k`. |
| OpticalFlow.Finish | lib/src/sonar/ImageTools/OpticalFlow.cpp:132-148 | The final level-0 call: a rejected descent fails unchanged. Otherwise the verdict is the calculator's exactly when it succeeded within the velocity bound, else `Fail` with the position kept. |
| OpticalFlow.TrackPoint | lib/src/sonar/ImageTools/OpticalFlow.cpp:109-149 | Single-point tracking as written: the calculator runs on every level down to 0 and then on 0 again. A success is the final level-0 verdict of an unrejected descent. |
| OpticalFlow.TrackPointOnce | lib/src/sonar/ImageTools/OpticalFlow.cpp:109-149 | The intended driver runs every level exactly once, coarsest first. |
| OpticalFlow.FailingTrackerKeepsSeed | lib/src/sonar/ImageTools/OpticalFlow.cpp:119-129 | A calculator that always fails never moves or rejects the point during the descent. |
| OpticalFlow.FailingTrackerFails | lib/src/sonar/ImageTools/OpticalFlow.cpp:132-148 | Such a calculator makes the point fail at its seed. |
| OpticalFlow.UnmovedLevel | lib/src/sonar/ImageTools/OpticalFlow.cpp:119-124 | A level whose calculator returns its seed moves the point onto itself. |
| OpticalFlow.StationaryKeepsSeed | lib/src/sonar/ImageTools/OpticalFlow.cpp:112-130 | A calculator that always returns its seed keeps the point in place through the descent. |
| OpticalFlow.StationaryCompletes | lib/src/sonar/ImageTools/OpticalFlow.cpp:109-149 | Such a calculator completes at the seed after visiting every level and level 0 again. |
| OpticalFlow.LevelZeroTrackedTwice | lib/src/sonar/ImageTools/OpticalFlow.cpp:112-136 | With one level, the written driver visits `[0, 0]` and the intended one `[0]`. |
| OpticalFlow.PointAtLevel | lib/src/sonar/ImageTools/OpticalFlow.cpp:172-189 | A failed point is skipped. A point becomes `Fail` exactly when the calculator succeeded but moved too far. It moves only to an accepted estimate scaled back by `2^level`. |
| OpticalFlow.PointAtLevelAdvances | lib/src/sonar/ImageTools/OpticalFlow.cpp:172-189 | One batched coarse step advances a point's descent by one level, matching the single-point loop. |
| OpticalFlow.PointAtFinest | lib/src/sonar/ImageTools/OpticalFlow.cpp:197-215 | A point keeps the calculator's verdict and estimate exactly when the calculator succeeded within the velocity bound. Otherwise it fails in place, and failed points are skipped. |
| OpticalFlow.PointAtFinestFinishes | lib/src/sonar/ImageTools/OpticalFlow.cpp:192-215 | The batched level-0 step on a point gives the single-point result. |
| OpticalFlow.StartMatches | lib/src/sonar/ImageTools/OpticalFlow.cpp:155-161 | The initial statuses and positions match every point's empty descent. |
| OpticalFlow.CoarsePass | lib/src/sonar/ImageTools/OpticalFlow.cpp:172-189 | One pass over the points at a level advances every point's descent by that level. |
| OpticalFlow.CoarseLevels | lib/src/sonar/ImageTools/OpticalFlow.cpp:163-190 | After the coarse loop, every point's status and position match its single-point descent to level 0. |
| OpticalFlow.FinestPass | lib/src/sonar/ImageTools/OpticalFlow.cpp:192-215 | The final pass gives each point the single-point result. |
| OpticalFlow.TrackPoints | lib/src/sonar/ImageTools/OpticalFlow.cpp:151-216 | Batched tracking gives every point exactly the status and position of tracking it alone. |
| Camera.TypeOf | lib/src/sonar/CameraTools/CameraIntrinsics.cpp:17-20 | The base camera reports `Undefined`. |
| Camera.ResolutionIsConstructorArgument | lib/src/sonar/CameraTools/CameraIntrinsics.cpp:10-25 | `resolution()` returns the constructor's argument. |
| Camera.DefaultProjectPointsAsWritten | lib/src/sonar/CameraTools/CameraIntrinsics.cpp:27-33 | The written base `projectPoints` fills every slot with the projection of the output's blank element. |
| Camera.DefaultProjectPointsIgnoresInput | lib/src/sonar/CameraTools/CameraIntrinsics.cpp:29-31 | The written batch projection depends only on the number of points. |
| Camera.DefaultBatch | lib/src/sonar/CameraTools/CameraIntrinsics.cpp:35-41 | The base `unprojectPoints` maps each point through `unprojectPoint` at its own index, keeping the length; the intended `projectPoints` is the same loop over `projectPoint`. |
| Camera.DefaultBatchRoundTrip | lib/src/sonar/CameraTools/CameraIntrinsics.cpp:27-41 | When the per-point functions invert each other, the batch unprojection undoes the intended batch projection. |
| Camera.DefaultProjectPointsLosesInput | lib/src/sonar/CameraTools/CameraIntrinsics.cpp:27-33 | A camera that inherits the written base batch projection, with the pinhole formulas as its per-point functions, breaks that round trip: every slot is the projection of the blank element, so `[(1,1)]` comes back as `[(0,0)]`. The pinhole camera itself overrides the loop. |
| Camera.PinholeType | lib/src/CameraTools/PinholeCameraIntrinsics.cpp:18-21 | A pinhole camera reports `Pinhole`, not the base type. |
| Camera.PinholeAccessors | lib/src/CameraTools/PinholeCameraIntrinsics.cpp:10-31 | The accessors return the constructor's arguments. |
| Camera.Project | lib/src/CameraTools/PinholeCameraIntrinsics.cpp:33-37 | With nonzero focal lengths, unprojecting the projected pixel gives the point back. |
| Camera.Unproject | lib/src/CameraTools/PinholeCameraIntrinsics.cpp:51-55 | The unprojected point scaled by the focal length is the pixel shifted by half a pixel and the optical centre. |
| Camera.UnprojectProject | lib/src/CameraTools/PinholeCameraIntrinsics.cpp:33-55 | With nonzero focal lengths, unprojecting a projected point gives the point back. |
| Camera.ProjectUnproject | lib/src/CameraTools/PinholeCameraIntrinsics.cpp:33-55 | With nonzero focal lengths, projecting an unprojected pixel gives the pixel back. |
| Camera.ProjectPoints | lib/src/CameraTools/PinholeCameraIntrinsics.cpp:39-49 | The pinhole batch projection projects each point and agrees with the intended base behaviour. |
| Camera.UnprojectPoints | lib/src/CameraTools/PinholeCameraIntrinsics.cpp:57-67 | The pinhole batch unprojection unprojects each pixel, and each result projects back onto its pixel. |
| Camera.ProjectThenUnproject | lib/src/CameraTools/PinholeCameraIntrinsics.cpp:39-67 | Batch unprojection undoes batch projection. |
| Poses.DefaultPose | lib/src/sonar/global_types.h:70-71 | The default pose is the identity rotation with zero translation and maps every point to itself. |
| Poses.Transform | lib/src/sonar/global_types.h:93-96 | The origin maps to the translation, and an identity rotation only translates. |
| Poses.WorldPosition | lib/src/sonar/global_types.h:73-76 | For an invertible rotation, the pose maps the world position to the origin. |
| Poses.WorldRotation | lib/src/sonar/global_types.h:83-86 | For an invertible rotation, the world rotation is its two-sided inverse. |
| Poses.Compose | lib/src/sonar/global_types.h:98-104 | The composed pose applies the inner pose and then the outer one. |
| Poses.ComposeAssoc | lib/src/sonar/global_types.h:98-104 | Composition is associative. |
| Poses.Inverse | lib/src/sonar/global_types.h:106-112 | The inverse pose's rotation is the inverse matrix. |
| Poses.InverseUndoes | lib/src/sonar/global_types.h:106-112 | For an invertible rotation, the inverse pose undoes the pose on every point, from either side. |
| Poses.InverseComposeIsDefault | lib/src/sonar/global_types.h:98-112 | A pose composed with its inverse, on either side, is the default pose. |
| Poses.WorldPoseIsInverse | lib/src/sonar/global_types.h:73-86 | The world rotation and world position are the inverse pose's rotation and translation. |
| Poses.WorldPoseLocatesCamera | lib/src/sonar/global_types.h:73-86 | The world position is the one point the pose maps to the origin, and the world rotation inverts the pose's rotation. |
| Poses.SetWorldPosition | lib/src/sonar/global_types.h:78-81 | The rotation is kept and the given world point is mapped to the origin. |
| Poses.WorldPositionRoundTrip | lib/src/sonar/global_types.h:73-81 | Reading the world position after setting it gives the value set. |
| Poses.SetWorldRotation | lib/src/sonar/global_types.h:88-91 | The translation is kept. |
| Poses.WorldRotationRoundTrip | lib/src/sonar/global_types.h:83-91 | Reading the world rotation after setting an invertible one gives the value set. |
| Tracking.NewSystem | lib/src/sonar/AbstractTrackingSystem.cpp:29-34 | A new system keeps its intrinsics, starts `Undefining` and holds the default pose. |
| Tracking.CreateTrackingSystem | lib/src/sonar/AbstractTrackingSystem.cpp:14-27 | Marker searching gives a fresh system when OpenCV is built in and throws otherwise; any other type gives null. |
| Tracking.GetWorldCameraPose | lib/src/sonar/AbstractTrackingSystem.cpp:51-57 | Reports success exactly while tracking, together with the last pose's world rotation and position. |
| Tracking.WorldCameraPoseLocatesCamera | lib/src/sonar/AbstractTrackingSystem.cpp:51-57 | For an invertible last pose, the reported position maps to the origin and the reported rotation inverts the pose's rotation. |
| Tracking.FreshSystemReportsOrigin | lib/src/sonar/AbstractTrackingSystem.cpp:29-57 | A new system reports no success, the identity rotation and the origin. |
| Tracking.CheckFlippings | lib/src/sonar/MarkerTrackingSystem.cpp:38-44 | For a positive resolution, the horizontal flip is set exactly when `fx < 0` and the vertical flip exactly when `fy > 0`. |
| Tracking.FocalCorners | lib/src/sonar/MarkerTrackingSystem.cpp:26 | The unprojected marker corners project back onto the detected ones. |
| Tracking.Process | lib/src/sonar/MarkerTrackingSystem.cpp:20-36 | A frame with no marker sets `LostTracking` and keeps the last pose. A marker sets `Tracking` with the pose solved from its unprojected corners. The intrinsics are kept and the returned state is the stored one. |
| Tracking.ProcessThenReport | lib/src/sonar/MarkerTrackingSystem.cpp:20-36 | After a frame, the world pose is reported valid exactly when a marker was found. |
| Tracking.LostFrameKeepsWorldPose | lib/src/sonar/MarkerTrackingSystem.cpp:27-31 | A frame without the marker changes the reported world pose only in its success flag. |
| Markers.NewFinder | lib/src/sonar/MarkerFinder.cpp:17-22 | A new finder remembers no marker. |
| Markers.Reset | lib/src/sonar/MarkerFinder.cpp:24-27 | Reset forgets the remembered marker and equals a new finder. |
| Markers.Find | lib/src/sonar/MarkerFinder.cpp:43 | `std::find` gives the first occurrence, or the end exactly when the id is absent. |
| Markers.ChooseIndex | lib/src/sonar/MarkerFinder.cpp:40-59 | The first occurrence of the requested id when it is non-negative and detected. Else the first occurrence of the remembered id when that is detected. Else index 0. |
| Markers.ChosenIsFirstOccurrence | lib/src/sonar/MarkerFinder.cpp:40-59 | The chosen index is the first occurrence of the id found there. |
| Markers.FindMarker | lib/src/sonar/MarkerFinder.cpp:29-64 | No detection returns nothing and leaves the finder alone. Otherwise it returns the chosen marker's corners and remembers its id. |
| Markers.StaysOnRememberedMarker | lib/src/sonar/MarkerFinder.cpp:48-56 | Without a request, a remembered marker that is still visible is reported again. |
| Markers.FindMarkerIdempotent | lib/src/sonar/MarkerFinder.cpp:29-64 | Repeating the search on the same detection gives the same corners and the same state. |
| Markers.FindAffineTransformOfMarker | lib/src/sonar/MarkerFinder.cpp:66-73 | Returns the identity and `false` when no marker is found, else the fitted transform of the found corners; the finder state is the search's. |

## Left out

- The KLT numerics are oracles: image gradients, the structure matrix, its inverse and the
  Gaussian window (OpticalFlowCalculator.cpp:335-395 and 416-446). The model takes the
  determinant and the per-iteration correction as inputs, so nothing is stated about
  convergence or accuracy.
- The two calculator variants (`tracking2d` and `tracking2dLK`, and the horizontal pair)
  share one model. They differ only in how the determinant and the correction are
  computed, which are the oracles.
- The integer-seed overloads (OpticalFlowCalculator.cpp:279-311) are left out. They
  repeat the float-seed overloads with an integer patch origin.
- The patch-only `tracking2d_patch` variants are left out.
- FAST corner detection and the Shi-Tomasi score are oracles. The model keeps the
  per-level candidate lists (assumed to respect the border window) and the score of a
  level-0 position.
- The random shuffle is an arbitrary permutation argument.
- Images and pyramids are represented by their sizes, plus a pixel function where pixels
  are read. A null image has size (0, 0). Building pyramids and setting them on the
  tracker (`setFirstImage`, `setSecondImage` and the pyramid setters of OpticalFlow) is
  not modelled beyond that.
- Floating point is modelled with reals. The `cast<uchar>` truncation of the byte
  sampler is modelled; float rounding is not.
- Eigen's 3x3 inverse is a parameter `inv`, assumed to be a two-sided inverse on
  matrices with a nonzero determinant.
- `Pose::cast` and `PinholeCameraIntrinsics::glProjectionMatrix` are left out: they are a
  type conversion and an OpenGL helper.
- The MarkerFinder solvers (MarkerFinder.cpp:75-148) are left out. The affine
  least-squares fit is a parameter, and so is the ArUco call at line 35.
- The `findMarker(image, horizontal, vertical)` overload and `getPose` that
  `MarkerTrackingSystem::process` calls are not part of this model. They are the
  `search` and `solve` parameters.
- Tracking.Process: requires nonzero focal lengths because unprojection divides by them.
  The source has no such check, and a zero focal length would divide by zero there.
- Tracking.CheckFlippings: requires nonzero focal lengths for the same reason.
- Camera.UnprojectPoints: requires nonzero focal lengths. The source divides anyway, and a
  real has no infinity or NaN to model the result of dividing by zero.
- Tracking.FocalCorners: requires nonzero focal lengths for the same reason.
- Camera.Unproject: requires nonzero focal lengths for the same reason; the source
  divides by them without a check.
- FlowCalculator.NewCalculator: the constructor never assigns the four margins; the model
  takes them as (0, 0), which makes the entry check reject every seed until images are
  bound.
- FlowCalculator.Tracking2d: on a calculator whose margins are stale (the cursor changed
  while no second image was bound), the source's sampler asserts may fire or its reads
  leave the image; the model treats that state like any other and does not represent the
  abort or the out-of-range read.
- FlowCalculator.HorizontalTracking: the same as for FlowCalculator.Tracking2d.
- The null-intrinsics assertion in the tracking-system constructor is not modelled,
  because a null camera cannot be represented here.
- Only the pinhole camera is modelled as a concrete camera, which is the only subclass.
- FeatureDetector.DetectCornersExcluding: requires the existing corners (integer pixels,
  as in the source) to lie inside the level-0 image. The source computes `blockCells[k]`
  with no bounds check, so an outside corner either writes out of range or silently
  blocks an unrelated cell: (W, 0) with at least two grid rows gives `k = gridSize.x`.
- FeatureDetector.DetectCorners: its debug `assert(false)` is modelled as an
  `OutsideImage` result rather than an abort.
- Threading, logging, the C ABI, the Unity and Python bindings, and the tests are outside
  the modelled core.

## Findings

| source | as written | input that shows it | evidently intended | confidence | as-written member | corrected member |
|---|---|---|---|---|---|---|
| lib/src/sonar/ImageTools/FeatureDetector.cpp:201-203 | The feature is pushed first, and the loop stops only once `size() > m_maxCountFeatures`. | `maxCountFeatures = 0` with one cell above the threshold: one feature is returned. | At most `maxCountFeatures` features. | medium, not executed | FeatureDetector.EmitAsWrittenZeroCap | FeatureDetector.EmitCapped |
| lib/src/sonar/ImageTools/FeatureDetector.cpp:151-154 | The level loop breaks after the first level above 0. | Level range 0..2 on a 3-level pyramid: level 2 is never searched. | Every level from `minLevelForFeature` to `maxLevelForFeature`. | low, not executed | FeatureDetector.VisitedLevelsSkipsLevels | FeatureDetector.AllLevels |
| lib/src/sonar/ImageTools/FeatureDetector.cpp:39-47 | `indexOfCell` uses row stride `m_gridSize.y`. | 1x2 grid on a 1x2 image, pixel (0,1): index 2 of 2 cells. | Stride `m_gridSize.x`, as in the selector at line 179. | high, not executed | FeatureDetector.IndexOfCellAsWrittenOutOfRange | FeatureDetector.IndexOfCellMatchesSelector |
| lib/src/sonar/CameraTools/CameraIntrinsics.cpp:29-31 | The base `projectPoints` projects `p_points[i]`, its own output. The defect is latent: the pinhole camera overrides `projectPoints`, so only a camera inheriting the base loop is affected. | Such a camera whose `projectPoint` is the pinhole formula (f = 1, c = 0.5), input `[(1,1)]`: every slot is `projectPoint` of the blank output element, so with a zero blank the result is `[(0,0)]`, not the projection of (1,1). | `projectPoint(points[i])`. | high, not executed | Camera.DefaultProjectPointsLosesInput | Camera.DefaultBatchRoundTrip |
| lib/src/sonar/ImageTools/OpticalFlow.cpp:112-136 | The coarse loop runs down to level 0 inclusive, and level 0 is then tracked again. | `numberLevels = 1` with a calculator that keeps its seed: levels visited are `[0, 0]`. | Coarse levels down to 1, then one full-resolution pass. | medium, not executed | OpticalFlow.LevelZeroTrackedTwice | OpticalFlow.TrackPointOnce |
