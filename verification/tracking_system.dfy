/**
  The tracking-system layer: creating a system by type, the state it starts
  in, the world camera pose it reports, and one frame of
  `MarkerTrackingSystem::process`: look for the marker, then either lose
  tracking (keeping the last pose) or adopt the pose solved from the marker.

  The camera is the pinhole camera. The marker search with flip flags and
  the pose solver are parameters: the overloads `process` calls
  (`findMarker(image, horizontal, vertical)` and `getPose`) are not part of
  this model.
*/
module Tracking {
  import opened Geometry
  import Camera
  import Poses

  datatype SystemType = Unknown | MarkerSearching

  datatype TrackingState = Undefining | Tracking | LostTracking

  /** The state shared by every tracking system: intrinsics, tracking state and last pose. */
  datatype System = System(camera: Camera.PinholeIntrinsics, state: TrackingState, lastPose: Poses.Pose)

  /** The constructor: `Undefining`, with the default pose. */
  function NewSystem(camera: Camera.PinholeIntrinsics): (s: System)
    ensures s.camera == camera && s.state == Undefining
    ensures s.lastPose.r == Poses.Identity() && s.lastPose.t == Poses.Zero()
  {
    System(camera, Undefining, Poses.DefaultPose())
  }

  /** What `createTrackingSystem` yields: a system, a null pointer, or a thrown `runtime_error`. */
  datatype Creation = Created(system: System) | Null | Thrown

  /** `withOpenCv` stands for the build flag that decides whether marker tracking exists. */
  function CreateTrackingSystem(kind: SystemType, camera: Camera.PinholeIntrinsics, withOpenCv: bool): (c: Creation)
    ensures c.Created? <==> kind == MarkerSearching && withOpenCv
    ensures c.Thrown? <==> kind == MarkerSearching && !withOpenCv
    ensures c.Null? <==> kind != MarkerSearching
    ensures c.Created? ==> c.system.camera == camera && c.system.state == Undefining
                           && c.system.lastPose == Poses.DefaultPose()
  {
    match kind
    case MarkerSearching => if withOpenCv then Created(NewSystem(camera)) else Thrown
    case Unknown => Null
  }

  datatype WorldCameraPose = WorldCameraPose(success: bool, rotation: Poses.Mat3, position: Poses.Vec3)

  /**
    `getWorldCameraPose()`: success exactly while tracking, and the camera's
    world rotation and position taken from the last pose.
  */
  function GetWorldCameraPose(inv: Poses.Inverter, s: System): (w: WorldCameraPose)
    ensures w.success <==> s.state == Tracking
    ensures w.rotation == Poses.WorldRotation(inv, s.lastPose)
    ensures w.position == Poses.WorldPosition(inv, s.lastPose)
  {
    var rotation := inv(s.lastPose.r);
    var position := Poses.Neg(Poses.MulV(rotation, s.lastPose.t));
    WorldCameraPose(s.state == Tracking, rotation, position)
  }

  /**
    While the last pose is invertible, the reported position is the point
    the last pose maps to the origin, and the reported rotation undoes the
    last pose's rotation.
  */
  lemma WorldCameraPoseLocatesCamera(inv: Poses.Inverter, s: System)
    requires Poses.IsInverter(inv) && Poses.Invertible(s.lastPose.r)
    ensures var w := GetWorldCameraPose(inv, s);
            && Poses.Transform(s.lastPose, w.position) == Poses.Zero()
            && Poses.MulM(w.rotation, s.lastPose.r) == Poses.Identity()
  {
    Poses.WorldPoseLocatesCamera(inv, s.lastPose);
  }

  /** The inverse of the identity is the identity. */
  lemma InverseOfIdentity(inv: Poses.Inverter)
    requires Poses.IsInverter(inv)
    ensures inv(Poses.Identity()) == Poses.Identity()
  {
    assert Poses.Invertible(Poses.Identity());
    Poses.MulMIdentity(inv(Poses.Identity()));
  }

  /** A new system reports no success, the identity rotation and the origin. */
  lemma FreshSystemReportsOrigin(inv: Poses.Inverter, camera: Camera.PinholeIntrinsics)
    requires Poses.IsInverter(inv)
    ensures var w := GetWorldCameraPose(inv, NewSystem(camera));
            !w.success && w.rotation == Poses.Identity() && w.position == Poses.Zero()
  {
    InverseOfIdentity(inv);
    Poses.MulVZero(Poses.Identity());
  }

  // ---------------------------------------------------------------------------
  // Marker tracking

  /** `(a - b) / f` written as the difference of the quotients. */
  lemma DivDifference(a: real, b: real, f: real)
    requires f != 0.0
    ensures a / f - b / f == (a - b) / f
  {
  }

  /** For `a < b`, `a / f > b / f` exactly when `f` is negative. */
  lemma DivReverses(a: real, b: real, f: real)
    requires f != 0.0 && a < b
    ensures a / f > b / f <==> f < 0.0
  {
    DivDifference(a, b, f);
    var q := (a - b) / f;
    assert q * f == a - b;
    if f < 0.0 {
      assert q > 0.0;
    } else {
      assert q < 0.0;
    }
  }

  /** The `(horizontalFlipping, verticalFlipping)` pair. */
  datatype Flips = Flips(horizontal: bool, vertical: bool)

  /**
    `_checkFlippings()`: compares the unprojected image corner with the
    unprojected image centre. With a positive resolution that is the sign
    of the focal lengths: a horizontal flip for `fx < 0`, a vertical one
    for `fy > 0`.
  */
  function CheckFlippings(c: Camera.PinholeIntrinsics): (flips: Flips)
    requires Camera.Invertible(c)
    ensures c.resolution.x > 0 ==> (flips.horizontal <==> c.focalLength.x < 0.0)
    ensures c.resolution.y > 0 ==> (flips.vertical <==> c.focalLength.y > 0.0)
  {
    var corner := Camera.Unproject(c, Point2(0.0, 0.0));
    var center := Camera.Unproject(c, ToReal(c.resolution).Times(0.5));
    var flips := Flips(corner.x > center.x, !(corner.y > center.y));
    assert c.resolution.x > 0 ==> (flips.horizontal <==> c.focalLength.x < 0.0) by {
      if c.resolution.x > 0 {
        DivReverses(0.0 + 0.5 - c.opticalCenter.x,
                    c.resolution.x as real * 0.5 + 0.5 - c.opticalCenter.x, c.focalLength.x);
      }
    }
    assert c.resolution.y > 0 ==> (flips.vertical <==> c.focalLength.y > 0.0) by {
      if c.resolution.y > 0 {
        DivReverses(0.0 + 0.5 - c.opticalCenter.y,
                    c.resolution.y as real * 0.5 + 0.5 - c.opticalCenter.y, c.focalLength.y);
      }
    }
    flips
  }

  /** The marker corners found in the current frame, given the flip flags. */
  type MarkerSearch = Flips -> seq<Point2>

  /** The pose solved from marker corners on the normalised image plane. */
  type PoseSolver = seq<Point2> -> Poses.Pose

  datatype Processed = Processed(system: System, state: TrackingState)

  /** The marker corners a frame yields, on the normalised image plane. */
  function FocalCorners(c: Camera.PinholeIntrinsics, corners: seq<Point2>): (r: seq<Point2>)
    requires Camera.Invertible(c)
    ensures |r| == |corners|
    ensures forall i :: 0 <= i < |r| ==> Camera.Project(c, r[i]) == corners[i]
  {
    var r := Camera.DefaultBatch(p requires Camera.Invertible(c) => Camera.Unproject(c, p), corners);
    assert forall i :: 0 <= i < |r| ==> Camera.Project(c, r[i]) == corners[i] by {
      forall i | 0 <= i < |r|
        ensures Camera.Project(c, r[i]) == corners[i]
      {
        Camera.ProjectUnproject(c, corners[i]);
      }
    }
    r
  }

  /**
    `MarkerTrackingSystem::process`: no marker means `LostTracking` with the
    last pose kept; a marker means `Tracking` with the pose solved from its
    unprojected corners. The returned state is the stored one.
  */
  function Process(s: System, search: MarkerSearch, solve: PoseSolver): (r: Processed)
    requires Camera.Invertible(s.camera)
    ensures r.state == r.system.state
    ensures r.system.camera == s.camera
    ensures var corners := search(CheckFlippings(s.camera));
            && (corners == [] ==> r.state == LostTracking && r.system.lastPose == s.lastPose)
            && (corners != [] ==> r.state == Tracking
                                  && r.system.lastPose == solve(FocalCorners(s.camera, corners)))
  {
    var flips := CheckFlippings(s.camera);
    var corners := search(flips);
    var focal := FocalCorners(s.camera, corners);
    if corners == [] then
      Processed(s.(state := LostTracking), LostTracking)
    else
      var tracked := s.(lastPose := solve(focal), state := Tracking);
      Processed(tracked, Tracking)
  }

  /** After a frame, the world pose is reported as valid exactly when the marker was found. */
  lemma ProcessThenReport(inv: Poses.Inverter, s: System, search: MarkerSearch, solve: PoseSolver)
    requires Camera.Invertible(s.camera)
    ensures GetWorldCameraPose(inv, Process(s, search, solve).system).success
            <==> search(CheckFlippings(s.camera)) != []
  {
  }

  /** A frame without the marker changes the reported world pose only in its success flag. */
  lemma LostFrameKeepsWorldPose(inv: Poses.Inverter, s: System, search: MarkerSearch, solve: PoseSolver)
    requires Camera.Invertible(s.camera) && search(CheckFlippings(s.camera)) == []
    ensures var before := GetWorldCameraPose(inv, s);
            var after := GetWorldCameraPose(inv, Process(s, search, solve).system);
            !after.success && after.rotation == before.rotation && after.position == before.position
  {
  }
}
