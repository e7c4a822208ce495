/**
  Camera intrinsics: the base class's resolution, type tag and default batch
  projections, and the pinhole camera's affine projection
  `pixel = point * focal + centre - 0.5` with its inverse.

  The base class's `projectPoint` / `unprojectPoint` are pure virtual; the
  default batch methods are modelled over the per-point function of the
  subclass that inherits them.
*/
module Camera {
  import opened Geometry

  datatype CameraType = Undefined | Pinhole

  /** The base `CameraIntrinsics`: only a resolution. */
  datatype Intrinsics = Intrinsics(resolution: Point2i)

  function TypeOf(c: Intrinsics): (t: CameraType)
    ensures t == Undefined
  {
    Undefined
  }

  /** `resolution()` returns what the constructor was given. */
  lemma ResolutionIsConstructorArgument(size: Point2i)
    ensures Intrinsics(size).resolution == size
  {
  }

  // ---------------------------------------------------------------------------
  // Default batch projections of the base class

  /**
    The base `projectPoints` as written: it fills the output with
    `projectPoint(p_points[i])`, the output's own default-initialised
    element `blank`, instead of `projectPoint(points[i])`.
  */
  function DefaultProjectPointsAsWritten(project: Point2 -> Point2, blank: Point2, points: seq<Point2>): (r: seq<Point2>)
    ensures |r| == |points|
    ensures forall i :: 0 <= i < |r| ==> r[i] == project(blank)
  {
    seq(|points|, _ => project(blank))
  }

  /** The as-written batch projection sees only the number of points. */
  lemma DefaultProjectPointsIgnoresInput(project: Point2 -> Point2, blank: Point2, a: seq<Point2>, b: seq<Point2>)
    requires |a| == |b|
    ensures DefaultProjectPointsAsWritten(project, blank, a) == DefaultProjectPointsAsWritten(project, blank, b)
  {
  }

  /**
    The base class's batch loop: the per-point function applied element by
    element. The base `unprojectPoints` is this loop over `unprojectPoint`;
    the base `projectPoints`, as evidently intended, is the same loop over
    `projectPoint`.
  */
  function DefaultBatch(f: Point2 -> Point2, points: seq<Point2>): (r: seq<Point2>)
    ensures |r| == |points|
    ensures forall i :: 0 <= i < |r| ==> r[i] == f(points[i])
  {
    seq(|points|, i requires 0 <= i < |points| => f(points[i]))
  }

  ghost predicate Inverts(unproject: Point2 -> Point2, project: Point2 -> Point2) {
    forall p: Point2 :: unproject(project(p)) == p
  }

  /** With per-point inverses, the corrected batch projection is undone by the default batch unprojection. */
  lemma DefaultBatchRoundTrip(project: Point2 -> Point2, unproject: Point2 -> Point2, points: seq<Point2>)
    requires Inverts(unproject, project)
    ensures DefaultBatch(unproject, DefaultBatch(project, points)) == points
  {
    var r := DefaultBatch(unproject, DefaultBatch(project, points));
    forall i | 0 <= i < |points|
      ensures r[i] == points[i]
    {
      assert r[i] == unproject(project(points[i]));
    }
  }

  /**
    The as-written base batch projection breaks that round trip. The defect is
    latent: the pinhole camera overrides `projectPoints`, so it reaches only a
    camera that inherits the base loop. Here the pinhole formulas serve only as
    that camera's per-point functions, and every slot becomes the projection of
    the output's blank element (taken to be the origin).
  */
  lemma DefaultProjectPointsLosesInput()
    ensures var c := PinholeIntrinsics(Point2i(640, 480), Point2(1.0, 1.0), Point2(0.5, 0.5));
            var project := p => Project(c, p);
            var unproject := p => Unproject(c, p);
            && Inverts(unproject, project)
            && DefaultBatch(unproject, DefaultProjectPointsAsWritten(project, Point2(0.0, 0.0), [Point2(1.0, 1.0)]))
               == [Point2(0.0, 0.0)]
  {
    var c := PinholeIntrinsics(Point2i(640, 480), Point2(1.0, 1.0), Point2(0.5, 0.5));
    forall p: Point2
      ensures Unproject(c, Project(c, p)) == p
    {
      UnprojectProject(c, p);
    }
    assert Project(c, Point2(0.0, 0.0)) == Point2(0.0, 0.0);
    assert Unproject(c, Point2(0.0, 0.0)) == Point2(0.0, 0.0);
  }

  // ---------------------------------------------------------------------------
  // Pinhole camera

  datatype PinholeIntrinsics = PinholeIntrinsics(resolution: Point2i, focalLength: Point2, opticalCenter: Point2)

  function PinholeType(c: PinholeIntrinsics): (t: CameraType)
    ensures t == Pinhole && t != TypeOf(Intrinsics(c.resolution))
  {
    Pinhole
  }

  /** The accessors return the constructor's arguments. */
  lemma PinholeAccessors(resolution: Point2i, focal: Point2, center: Point2)
    ensures var c := PinholeIntrinsics(resolution, focal, center);
            c.resolution == resolution && c.focalLength == focal && c.opticalCenter == center
  {
  }

  /** Unprojection divides by the focal lengths. */
  predicate Invertible(c: PinholeIntrinsics) {
    c.focalLength.x != 0.0 && c.focalLength.y != 0.0
  }

  /** `projectPoint`: normalised image coordinates to pixels; unprojection recovers the point. */
  function Project(c: PinholeIntrinsics, p: Point2): (r: Point2)
    ensures Invertible(c) ==> Unproject(c, r) == p
  {
    var r := Point2(p.x * c.focalLength.x + c.opticalCenter.x - 0.5, p.y * c.focalLength.y + c.opticalCenter.y - 0.5);
    assert Invertible(c) ==> Unproject(c, r) == p by {
      if Invertible(c) {
        DivideBack(p.x, c.focalLength.x);
        DivideBack(p.y, c.focalLength.y);
      }
    }
    r
  }

  /**
    `unprojectPoint`: pixels to normalised image coordinates. The result is
    the point whose offset, scaled by the focal length, is the pixel's offset
    from the pixel-centre-corrected optical centre.
  */
  function Unproject(c: PinholeIntrinsics, p: Point2): (r: Point2)
    requires Invertible(c)
    ensures r.x * c.focalLength.x == p.x + 0.5 - c.opticalCenter.x
    ensures r.y * c.focalLength.y == p.y + 0.5 - c.opticalCenter.y
  {
    MultiplyBack(p.x + 0.5 - c.opticalCenter.x, c.focalLength.x);
    MultiplyBack(p.y + 0.5 - c.opticalCenter.y, c.focalLength.y);
    Point2((p.x + 0.5 - c.opticalCenter.x) / c.focalLength.x, (p.y + 0.5 - c.opticalCenter.y) / c.focalLength.y)
  }

  lemma DivideBack(a: real, f: real)
    requires f != 0.0
    ensures (a * f) / f == a
  {
  }

  lemma MultiplyBack(a: real, f: real)
    requires f != 0.0
    ensures (a / f) * f == a
  {
  }

  lemma UnprojectProject(c: PinholeIntrinsics, p: Point2)
    requires Invertible(c)
    ensures Unproject(c, Project(c, p)) == p
  {
    var q := Project(c, p);
    assert q.x + 0.5 - c.opticalCenter.x == p.x * c.focalLength.x;
    assert q.y + 0.5 - c.opticalCenter.y == p.y * c.focalLength.y;
    DivideBack(p.x, c.focalLength.x);
    DivideBack(p.y, c.focalLength.y);
  }

  lemma ProjectUnproject(c: PinholeIntrinsics, p: Point2)
    requires Invertible(c)
    ensures Project(c, Unproject(c, p)) == p
  {
    var u := Unproject(c, p);
    MultiplyBack(p.x + 0.5 - c.opticalCenter.x, c.focalLength.x);
    MultiplyBack(p.y + 0.5 - c.opticalCenter.y, c.focalLength.y);
    assert u.x * c.focalLength.x == p.x + 0.5 - c.opticalCenter.x;
    assert u.y * c.focalLength.y == p.y + 0.5 - c.opticalCenter.y;
    var q := Project(c, u);
    assert q.x == u.x * c.focalLength.x + c.opticalCenter.x - 0.5;
    assert q.y == u.y * c.focalLength.y + c.opticalCenter.y - 0.5;
  }

  /**
    The pinhole `projectPoints` override: the formula is applied to
    `points[i]` in a loop, so each element is the projection of its input.
  */
  method ProjectPoints(c: PinholeIntrinsics, points: seq<Point2>) returns (r: seq<Point2>)
    ensures |r| == |points|
    ensures forall i :: 0 <= i < |r| ==> r[i] == Project(c, points[i])
    ensures r == DefaultBatch(p => Project(c, p), points)
  {
    r := seq(|points|, _ => Point2(0.0, 0.0));
    var i := 0;
    while i < |points|
      invariant 0 <= i <= |points| && |r| == |points|
      invariant forall j :: 0 <= j < i ==> r[j] == Project(c, points[j])
    {
      var p := points[i];
      r := r[i := Point2(p.x * c.focalLength.x + c.opticalCenter.x - 0.5, p.y * c.focalLength.y + c.opticalCenter.y - 0.5)];
      i := i + 1;
    }
  }

  /** The pinhole `unprojectPoints` override, element by element. */
  method UnprojectPoints(c: PinholeIntrinsics, points: seq<Point2>) returns (r: seq<Point2>)
    requires Invertible(c)
    ensures |r| == |points|
    ensures forall i :: 0 <= i < |r| ==> r[i] == Unproject(c, points[i])
    ensures forall i :: 0 <= i < |r| ==> Project(c, r[i]) == points[i]
  {
    r := seq(|points|, _ => Point2(0.0, 0.0));
    var i := 0;
    while i < |points|
      invariant 0 <= i <= |points| && |r| == |points|
      invariant forall j :: 0 <= j < i ==> r[j] == Unproject(c, points[j])
      invariant forall j :: 0 <= j < i ==> Project(c, r[j]) == points[j]
    {
      var p := points[i];
      r := r[i := Point2((p.x + 0.5 - c.opticalCenter.x) / c.focalLength.x, (p.y + 0.5 - c.opticalCenter.y) / c.focalLength.y)];
      ProjectUnproject(c, p);
      i := i + 1;
    }
  }

  /** Batch unprojection undoes batch projection point by point. */
  method ProjectThenUnproject(c: PinholeIntrinsics, points: seq<Point2>) returns (r: seq<Point2>)
    requires Invertible(c)
    ensures r == points
  {
    var pixels := ProjectPoints(c, points);
    r := UnprojectPoints(c, pixels);
    forall i | 0 <= i < |points|
      ensures r[i] == points[i]
    {
      UnprojectProject(c, points[i]);
    }
  }
}
