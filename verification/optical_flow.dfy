/**
  Pyramidal tracking (`OpticalFlow`): the per-level calculator is called from
  the coarsest level down to level 0, every accepted estimate is rescaled by
  `2^level`, a displacement at or above the velocity bound rejects the point,
  and level 0 is then tracked once more at full resolution.

  The single-level calculator is an oracle `Tracker`: given the level, the
  seed position and the first-image position (both already divided by the
  level's scale) it returns the calculator's verdict and its new estimate.
  The same oracle stands for `tracking2d` and for `tracking2dLK`, whose
  pyramidal drivers differ only in which calculator method they call.
*/
module OpticalFlow {
  import opened Geometry
  import FlowCalculator

  /** The calculator at one level: `(level, seed, first) -> (verdict, estimate)`. */
  type Tracker = (nat, Point2, Point2) -> (TrackingResult, Point2)

  /** A pyramid, represented by the sizes of its levels. */
  type Pyramid = seq<Point2i>

  datatype Flow = Flow(
    calculator: FlowCalculator.Calculator,
    numberLevels: int,
    /** `m_maxVelocitySquared`: a squared displacement at or above it rejects the point. */
    maxVelocitySquared: real,
    firstPyramid: Pyramid,
    secondPyramid: Pyramid)

  /** `setNumberLevels` asserts a positive count; every constructor path keeps it. */
  predicate Valid(f: Flow) {
    f.numberLevels > 0 && FlowCalculator.Valid(f.calculator)
  }

  // ---------------------------------------------------------------------------
  // Configuration

  /** `setCursorSize`: the calculator's window, and a velocity bound of `min(cx, cy)^2`. */
  function SetCursorSize(f: Flow, size: Point2i): (r: Flow)
    requires size.x > 0 && size.y > 0
    ensures r.calculator == FlowCalculator.SetCursorSize(f.calculator, size)
    ensures var m := Min(size.x, size.y) as real;
            r.maxVelocitySquared == m * m
    ensures r.maxVelocitySquared >= 1.0
    ensures r.(calculator := f.calculator, maxVelocitySquared := f.maxVelocitySquared) == f
  {
    var m := Min(size.x, size.y) as real;
    MulLe(m, 1.0, m);
    f.(calculator := FlowCalculator.SetCursorSize(f.calculator, size), maxVelocitySquared := m * m)
  }

  function SetNumberLevels(f: Flow, numberLevels: int): (r: Flow)
    requires numberLevels > 0
    ensures Valid(f) ==> Valid(r)
    ensures r.numberLevels == numberLevels && r.(numberLevels := f.numberLevels) == f
  {
    f.(numberLevels := numberLevels)
  }

  /** `setPixelEps`: forwarded to the calculator, which stores the magnitude. */
  function SetPixelEps(f: Flow, eps: real): (r: Flow)
    ensures Valid(f) ==> Valid(r)
    ensures r.calculator.pixelEps == Abs(eps)
    ensures r.calculator == FlowCalculator.SetPixelEps(f.calculator, eps)
    ensures r.(calculator := f.calculator) == f
  {
    f.(calculator := FlowCalculator.SetPixelEps(f.calculator, eps))
  }

  /** `setMaxNumberIterations`: forwarded to the calculator's iteration budget. */
  function SetMaxNumberIterations(f: Flow, count: int): (r: Flow)
    ensures Valid(f) ==> Valid(r)
    ensures r.calculator.numberIterations == count
    ensures r.calculator == FlowCalculator.SetNumberIterations(f.calculator, count)
    ensures r.(calculator := f.calculator) == f
  {
    f.(calculator := FlowCalculator.SetNumberIterations(f.calculator, count))
  }

  /** `setDetThreashold` (sic): forwarded to the calculator's determinant gate. */
  function SetDetThreshold(f: Flow, value: real): (r: Flow)
    ensures Valid(f) ==> Valid(r)
    ensures r.calculator.detThreshold == value
    ensures r.calculator == FlowCalculator.SetDetThreshold(f.calculator, value)
    ensures r.(calculator := f.calculator) == f
  {
    f.(calculator := FlowCalculator.SetDetThreshold(f.calculator, value))
  }

  /** The constructor: three levels, cursor (20, 20), so a velocity bound of 400, and no images. */
  function NewFlow(): (r: Flow)
    ensures Valid(r)
    ensures r.numberLevels == 3 && r.maxVelocitySquared == 400.0
    ensures r.calculator.cursorSize == Point2i(20, 20)
    ensures r.firstPyramid == [] && r.secondPyramid == []
  {
    var blank := Flow(FlowCalculator.NewCalculator(), 0, 0.0, [], []);
    SetCursorSize(SetNumberLevels(blank, 3), Point2i(20, 20))
  }

  /** `swapFirstSecond`: the two pyramids change places. */
  function SwapFirstSecond(f: Flow): (r: Flow)
    ensures r.firstPyramid == f.secondPyramid && r.secondPyramid == f.firstPyramid
    ensures r.(firstPyramid := f.firstPyramid, secondPyramid := f.secondPyramid) == f
  {
    f.(firstPyramid := f.secondPyramid, secondPyramid := f.firstPyramid)
  }

  lemma SwapTwiceIsIdentity(f: Flow)
    ensures SwapFirstSecond(SwapFirstSecond(f)) == f
  {
  }

  /** `reset`: both pyramids are cleared. */
  function Reset(f: Flow): (r: Flow)
    ensures r.firstPyramid == [] && r.secondPyramid == []
    ensures r.(firstPyramid := f.firstPyramid, secondPyramid := f.secondPyramid) == f
  {
    f.(firstPyramid := [], secondPyramid := [])
  }

  // ---------------------------------------------------------------------------
  // The coarse-to-fine descent

  /** `cast<float>(1 << level)`. */
  function Scale(level: nat): (s: real)
    ensures s >= 1.0
  {
    Pow2(level) as real
  }

  /** What one coarse level does to the full-resolution position. */
  datatype LevelOutcome =
    | Kept              // the calculator failed: the position is left alone
    | Moved(to: Point2) // accepted: the estimate, scaled back to level 0
    | TooFast           // the estimate moved too far: the point is rejected

  /** One level of the descent loop (OpticalFlow.cpp:114-129). */
  function LevelStep(track: Tracker, maxVelocitySquared: real, level: nat, second: Point2, first: Point2): (o: LevelOutcome)
    ensures var scale := Scale(level);
            var seed := second.Over(scale);
            var (result, estimate) := track(level, seed, first.Over(scale));
            && (o.Kept? <==> result == Fail)
            && (o.TooFast? <==> result != Fail && estimate.Minus(seed).LengthSquared() >= maxVelocitySquared)
            && (o.Moved? ==> && estimate.Minus(seed).LengthSquared() < maxVelocitySquared
                             && o.to.Over(scale) == estimate
                             && o.to == estimate.Times(scale))
  {
    var scale := Scale(level);
    var seed := second.Over(scale);
    var (result, estimate) := track(level, seed, first.Over(scale));
    if result == Fail then Kept
    else if estimate.Minus(seed).LengthSquared() < maxVelocitySquared then
      TimesOver(estimate, scale);
      Moved(estimate.Times(scale))
    else TooFast
  }

  /** The levels `top - 1, top - 2, …, k`, coarsest first. */
  function Countdown(top: int, k: nat): (s: seq<nat>)
    ensures |s| == Max(top - k, 0)
    ensures forall i :: 0 <= i < |s| ==> s[i] == top - 1 - i
  {
    if top <= k then [] else seq(top - k, i requires 0 <= i < top - k => (top - 1 - i) as nat)
  }

  /** The countdown to `k` is the countdown to `k + 1` followed by `k`. */
  lemma CountdownSplit(top: int, k: nat)
    requires k < top
    ensures Countdown(top, k) == Countdown(top, k + 1) + [k]
  {
    var a, b := Countdown(top, k), Countdown(top, k + 1) + [k];
    assert |a| == |b|;
    forall i | 0 <= i < |a|
      ensures a[i] == b[i]
    {
      if i < |a| - 1 {
        assert b[i] == Countdown(top, k + 1)[i];
      }
    }
  }

  predicate StrictlyDecreasing(s: seq<nat>) {
    forall i, j :: 0 <= i < j < |s| ==> s[i] > s[j]
  }

  lemma CountdownDecreases(top: int, k: nat)
    ensures StrictlyDecreasing(Countdown(top, k))
  {
  }

  /**
    The state of the descent: whether the velocity check has already
    returned `Fail`, the full-resolution position, and the levels visited.
  */
  datatype Descent = Descent(rejected: bool, position: Point2, visited: seq<nat>)

  /**
    The descent after levels `levels - 1` down to `k` have been processed.
    A calculator `Fail` leaves the position as it is and goes on to the next
    level; only the velocity check stops the descent.
  */
  function Coarse(track: Tracker, maxVelocitySquared: real, levels: int, second: Point2, first: Point2, k: nat): (d: Descent)
    decreases levels - k
    ensures |d.visited| <= |Countdown(levels, k)| && d.visited == Countdown(levels, k)[..|d.visited|]
    ensures !d.rejected ==> d.visited == Countdown(levels, k)
    ensures d.rejected ==> |d.visited| >= 1
  {
    if k >= levels then Descent(false, second, [])
    else
      var d := Coarse(track, maxVelocitySquared, levels, second, first, k + 1);
      if d.rejected then d
      else
        var visited := d.visited + [k];
        match LevelStep(track, maxVelocitySquared, k, d.position, first)
        case Kept => Descent(false, d.position, visited)
        case Moved(p) => Descent(false, p, visited)
        case TooFast => Descent(true, d.position, visited)
  }

  /** The outcome of tracking one point: the verdict, the position and the levels the calculator ran at. */
  datatype Tracked = Tracked(result: TrackingResult, position: Point2, visited: seq<nat>)

  /** The final level-0 call with its velocity check (OpticalFlow.cpp:132-148). */
  function Finish(track: Tracker, maxVelocitySquared: real, d: Descent, first: Point2): (r: Tracked)
    ensures d.rejected ==> r == Tracked(Fail, d.position, d.visited)
    ensures !d.rejected ==>
              var (result, estimate) := track(0, d.position, first);
              && r.visited == d.visited + [0]
              && (r.result == Fail || r.result == result)
              && (r.result != Fail ==> r.position == estimate && estimate.Minus(d.position).LengthSquared() < maxVelocitySquared)
              && (r.result == Fail ==> r.position == d.position)
              && (result != Fail && estimate.Minus(d.position).LengthSquared() < maxVelocitySquared ==> r.result == result)
  {
    if d.rejected then Tracked(Fail, d.position, d.visited)
    else
      var (result, estimate) := track(0, d.position, first);
      var visited := d.visited + [0];
      if result != Fail && estimate.Minus(d.position).LengthSquared() < maxVelocitySquared then
        Tracked(result, estimate, visited)
      else
        Tracked(Fail, d.position, visited)
  }

  /**
    Single-point `tracking2d` / `tracking2dLK` as written: the loop visits
    every level down to 0, then level 0 is tracked again. The verdict is
    the final calculator verdict unless a velocity check rejects the point.
  */
  function TrackPoint(f: Flow, track: Tracker, second: Point2, first: Point2): (r: Tracked)
    ensures var d := Coarse(track, f.maxVelocitySquared, f.numberLevels, second, first, 0);
            && (d.rejected ==> r.result == Fail && r.position == d.position)
            && (!d.rejected ==> r.visited == Countdown(f.numberLevels, 0) + [0])
            && (r.result != Fail ==> !d.rejected && r.result == track(0, d.position, first).0)
  {
    Finish(track, f.maxVelocitySquared, Coarse(track, f.maxVelocitySquared, f.numberLevels, second, first, 0), first)
  }

  /**
    The evidently intended driver: the coarse levels down to 1, then a single
    full-resolution call at level 0, so every level is tracked exactly once.
  */
  function TrackPointOnce(f: Flow, track: Tracker, second: Point2, first: Point2): (r: Tracked)
    requires f.numberLevels > 0
    ensures var d := Coarse(track, f.maxVelocitySquared, f.numberLevels, second, first, 1);
            && (d.rejected ==> r.result == Fail && r.position == d.position)
            && (!d.rejected ==> r.visited == Countdown(f.numberLevels, 0))
            && (r.result != Fail ==> !d.rejected && r.result == track(0, d.position, first).0)
    ensures StrictlyDecreasing(r.visited)
  {
    var d := Coarse(track, f.maxVelocitySquared, f.numberLevels, second, first, 1);
    var r := Finish(track, f.maxVelocitySquared, d, first);
    assert !d.rejected ==> r.visited == Countdown(f.numberLevels, 0) by {
      if !d.rejected {
        CountdownSplit(f.numberLevels, 0);
      }
    }
    assert StrictlyDecreasing(r.visited) by {
      CountdownDecreases(f.numberLevels, 1);
      CountdownDecreases(f.numberLevels, 0);
    }
    r
  }

  // ---------------------------------------------------------------------------
  // Properties of the descent

  ghost predicate AlwaysFails(track: Tracker) {
    forall level: nat, seed: Point2, first: Point2 :: track(level, seed, first).0 == Fail
  }

  /** A calculator that always fails never moves the point, and the point is then reported as failed. */
  lemma {:induction false} FailingTrackerKeepsSeed(track: Tracker, maxVelocitySquared: real, levels: int, second: Point2, first: Point2, k: nat)
    requires AlwaysFails(track)
    ensures var d := Coarse(track, maxVelocitySquared, levels, second, first, k);
            !d.rejected && d.position == second
    decreases levels - k
  {
    if k < levels {
      FailingTrackerKeepsSeed(track, maxVelocitySquared, levels, second, first, k + 1);
    }
  }

  lemma FailingTrackerFails(f: Flow, track: Tracker, second: Point2, first: Point2)
    requires AlwaysFails(track)
    ensures TrackPoint(f, track, second, first).result == Fail
    ensures TrackPoint(f, track, second, first).position == second
  {
    FailingTrackerKeepsSeed(track, f.maxVelocitySquared, f.numberLevels, second, first, 0);
  }

  /** A calculator that accepts its seed unchanged: the point stays where it is. */
  ghost predicate Stationary(track: Tracker) {
    forall level: nat, seed: Point2, first: Point2 :: track(level, seed, first) == (Completed, seed)
  }

  /** A level whose calculator returns the seed unchanged moves the point onto itself. */
  lemma UnmovedLevel(track: Tracker, maxVelocitySquared: real, level: nat, second: Point2, first: Point2)
    requires maxVelocitySquared > 0.0
    requires var s := Scale(level); track(level, second.Over(s), first.Over(s)) == (Completed, second.Over(s))
    ensures LevelStep(track, maxVelocitySquared, level, second, first) == Moved(second)
  {
    var s := Scale(level);
    var seed := second.Over(s);
    var zero := seed.Minus(seed);
    assert zero.x == 0.0 && zero.y == 0.0;
    assert zero.LengthSquared() < maxVelocitySquared;
    OverTimes(second, s);
    var o := LevelStep(track, maxVelocitySquared, level, second, first);
    assert !o.Kept?;
    assert !o.TooFast?;
    assert o.to == seed.Times(s);
  }

  lemma {:induction false} StationaryKeepsSeed(track: Tracker, maxVelocitySquared: real, levels: int, second: Point2, first: Point2, k: nat)
    requires Stationary(track) && maxVelocitySquared > 0.0
    ensures var d := Coarse(track, maxVelocitySquared, levels, second, first, k);
            !d.rejected && d.position == second
    decreases levels - k
  {
    if k < levels {
      StationaryKeepsSeed(track, maxVelocitySquared, levels, second, first, k + 1);
      var s := Scale(k);
      assert track(k, second.Over(s), first.Over(s)) == (Completed, second.Over(s));
      UnmovedLevel(track, maxVelocitySquared, k, second, first);
    }
  }

  lemma StationaryCompletes(f: Flow, track: Tracker, second: Point2, first: Point2)
    requires Stationary(track) && f.maxVelocitySquared > 0.0
    ensures TrackPoint(f, track, second, first) == Tracked(Completed, second, Countdown(f.numberLevels, 0) + [0])
  {
    StationaryKeepsSeed(track, f.maxVelocitySquared, f.numberLevels, second, first, 0);
  }

  /** With one level, the as-written driver runs the calculator at level 0 twice; the corrected one once. */
  lemma LevelZeroTrackedTwice(f: Flow, track: Tracker, second: Point2, first: Point2)
    requires Stationary(track) && f.maxVelocitySquared > 0.0 && f.numberLevels == 1
    ensures TrackPoint(f, track, second, first).visited == [0, 0]
    ensures TrackPointOnce(f, track, second, first).visited == [0]
  {
    StationaryCompletes(f, track, second, first);
    StationaryKeepsSeed(track, f.maxVelocitySquared, 1, second, first, 1);
  }

  // ---------------------------------------------------------------------------
  // Batched tracking

  /** The status and position of one point agree with a descent state. */
  predicate Matches(d: Descent, status: TrackingResult, position: Point2) {
    position == d.position && status == (if d.rejected then Fail else Completed)
  }

  /** The body of the batched coarse loop for one point (OpticalFlow.cpp:174-188). */
  function PointAtLevel(track: Tracker, maxVelocitySquared: real, level: nat, status: TrackingResult, position: Point2, first: Point2): (r: (TrackingResult, Point2))
    ensures status == Fail ==> r == (status, position)
    ensures r.0 == status || r.0 == Fail
    ensures status != Fail ==>
              var scale := Scale(level);
              var seed := position.Over(scale);
              var (result, estimate) := track(level, seed, first.Over(scale));
              && (r.0 == Fail <==> result != Fail && estimate.Minus(seed).LengthSquared() >= maxVelocitySquared)
              && (r.1 != position ==> r.0 == status && result != Fail && r.1 == estimate.Times(scale))
              && (r.0 == Fail ==> r.1 == position)
  {
    if status == Fail then (status, position)
    else
      var scale := Scale(level);
      var seed := position.Over(scale);
      var (result, estimate) := track(level, seed, first.Over(scale));
      if result == Fail then (status, position)
      else if estimate.Minus(seed).LengthSquared() < maxVelocitySquared then (status, estimate.Times(scale))
      else (Fail, position)
  }

  /** One batched coarse step on a point advances its descent by one level. */
  lemma PointAtLevelAdvances(track: Tracker, maxVelocitySquared: real, levels: int, second: Point2, first: Point2,
                             level: nat, status: TrackingResult, position: Point2)
    requires level < levels
    requires Matches(Coarse(track, maxVelocitySquared, levels, second, first, level + 1), status, position)
    ensures var (s, p) := PointAtLevel(track, maxVelocitySquared, level, status, position, first);
            Matches(Coarse(track, maxVelocitySquared, levels, second, first, level), s, p)
  {
  }

  /** The body of the batched level-0 loop for one point (OpticalFlow.cpp:199-214). */
  function PointAtFinest(track: Tracker, maxVelocitySquared: real, status: TrackingResult, position: Point2, first: Point2): (r: (TrackingResult, Point2))
    ensures status == Fail ==> r == (status, position)
    ensures status != Fail ==>
              var (result, estimate) := track(0, position, first);
              && (r.0 == Fail || r.0 == result)
              && (r.0 != Fail <==> result != Fail && estimate.Minus(position).LengthSquared() < maxVelocitySquared)
              && (r.0 != Fail ==> r.1 == estimate)
              && (r.0 == Fail ==> r.1 == position)
  {
    if status == Fail then (status, position)
    else
      var (result, estimate) := track(0, position, first);
      if result == Fail then (result, position)
      else if estimate.Minus(position).LengthSquared() < maxVelocitySquared then (result, estimate)
      else (Fail, position)
  }

  /** The batched level-0 step on a point completes single-point tracking. */
  lemma PointAtFinestFinishes(f: Flow, track: Tracker, second: Point2, first: Point2, status: TrackingResult, position: Point2)
    requires Matches(Coarse(track, f.maxVelocitySquared, f.numberLevels, second, first, 0), status, position)
    ensures var (s, p) := PointAtFinest(track, f.maxVelocitySquared, status, position, first);
            var r := TrackPoint(f, track, second, first);
            s == r.result && p == r.position
  {
  }

  /** Every point's status and position agree with its descent down to `level`. */
  ghost predicate DescendedTo(track: Tracker, maxVelocitySquared: real, levels: int, second: seq<Point2>, first: seq<Point2>,
                              level: nat, status: seq<TrackingResult>, points: seq<Point2>)
    requires |first| == |second| == |status| == |points|
  {
    forall i :: 0 <= i < |second| ==>
      Matches(Coarse(track, maxVelocitySquared, levels, second[i], first[i], level), status[i], points[i])
  }

  /** The inner loop over the points at one coarse level (OpticalFlow.cpp:172-189). */
  method CoarsePass(track: Tracker, maxVelocitySquared: real, levels: int, level: nat, second: seq<Point2>, first: seq<Point2>,
                    status0: seq<TrackingResult>, points0: seq<Point2>)
    returns (status: seq<TrackingResult>, points: seq<Point2>)
    requires level < levels
    requires |first| == |second| == |status0| == |points0|
    requires DescendedTo(track, maxVelocitySquared, levels, second, first, level + 1, status0, points0)
    ensures |status| == |second| && |points| == |second|
    ensures DescendedTo(track, maxVelocitySquared, levels, second, first, level, status, points)
  {
    var n := |second|;
    status, points := status0, points0;
    var i := 0;
    while i < n
      invariant 0 <= i <= n
      invariant |status| == n && |points| == n
      invariant forall j :: 0 <= j < i ==>
                  Matches(Coarse(track, maxVelocitySquared, levels, second[j], first[j], level), status[j], points[j])
      invariant forall j :: i <= j < n ==> status[j] == status0[j] && points[j] == points0[j]
    {
      assert Matches(Coarse(track, maxVelocitySquared, levels, second[i], first[i], level + 1), status[i], points[i]);
      PointAtLevelAdvances(track, maxVelocitySquared, levels, second[i], first[i], level, status[i], points[i]);
      var (s, p) := PointAtLevel(track, maxVelocitySquared, level, status[i], points[i], first[i]);
      status := status[i := s];
      points := points[i := p];
      i := i + 1;
    }
  }

  /** The final loop over the points at level 0 (OpticalFlow.cpp:197-215). */
  method FinestPass(f: Flow, track: Tracker, second: seq<Point2>, first: seq<Point2>,
                    status0: seq<TrackingResult>, points0: seq<Point2>)
    returns (status: seq<TrackingResult>, points: seq<Point2>)
    requires |first| == |second| == |status0| == |points0|
    requires DescendedTo(track, f.maxVelocitySquared, f.numberLevels, second, first, 0, status0, points0)
    ensures |status| == |second| && |points| == |second|
    ensures forall i :: 0 <= i < |second| ==>
              var r := TrackPoint(f, track, second[i], first[i]);
              status[i] == r.result && points[i] == r.position
  {
    var n := |second|;
    status, points := status0, points0;
    var i := 0;
    while i < n
      invariant 0 <= i <= n
      invariant |status| == n && |points| == n
      invariant forall j :: 0 <= j < i ==>
                  var r := TrackPoint(f, track, second[j], first[j]);
                  status[j] == r.result && points[j] == r.position
      invariant forall j :: i <= j < n ==> status[j] == status0[j] && points[j] == points0[j]
    {
      assert Matches(Coarse(track, f.maxVelocitySquared, f.numberLevels, second[i], first[i], 0), status[i], points[i]);
      PointAtFinestFinishes(f, track, second[i], first[i], status[i], points[i]);
      var (s, p) := PointAtFinest(track, f.maxVelocitySquared, status[i], points[i], first[i]);
      status := status[i := s];
      points := points[i := p];
      i := i + 1;
    }
  }

  /** Before any level is processed every point is `Completed` at its seed: the empty descent. */
  lemma StartMatches(track: Tracker, maxVelocitySquared: real, levels: int, second: seq<Point2>, first: seq<Point2>)
    requires |first| == |second| && levels > 0
    ensures DescendedTo(track, maxVelocitySquared, levels, second, first, levels, seq(|second|, _ => Completed), second)
  {
  }

  /** The coarse levels of the batched driver, outermost loop (OpticalFlow.cpp:166-190). */
  method CoarseLevels(track: Tracker, maxVelocitySquared: real, levels: int, second: seq<Point2>, first: seq<Point2>)
    returns (status: seq<TrackingResult>, points: seq<Point2>)
    requires levels > 0 && |second| == |first|
    ensures |status| == |second| && |points| == |second|
    ensures DescendedTo(track, maxVelocitySquared, levels, second, first, 0, status, points)
  {
    status := seq(|second|, _ => Completed);
    points := second;
    StartMatches(track, maxVelocitySquared, levels, second, first);
    var done: nat := levels;
    while done > 0
      invariant done <= levels
      invariant |status| == |second| && |points| == |second|
      invariant DescendedTo(track, maxVelocitySquared, levels, second, first, done, status, points)
    {
      status, points := CoarsePass(track, maxVelocitySquared, levels, done - 1, second, first, status, points);
      done := done - 1;
    }
  }

  /**
    Batched `tracking2d` / `tracking2dLK`: every status is reset to
    `Completed` whatever it held, the levels are walked outermost and the
    points innermost, a failed point is skipped, and the level-0 pass
    stores the calculator's verdict. Each point ends exactly where
    single-point tracking would leave it.
  */
  method TrackPoints(f: Flow, track: Tracker, status0: seq<TrackingResult>, second: seq<Point2>, first: seq<Point2>)
    returns (status: seq<TrackingResult>, points: seq<Point2>)
    requires Valid(f)
    requires |second| == |first|
    ensures |status| == |second| && |points| == |second|
    ensures forall i :: 0 <= i < |second| ==>
              var r := TrackPoint(f, track, second[i], first[i]);
              status[i] == r.result && points[i] == r.position
  {
    status, points := CoarseLevels(track, f.maxVelocitySquared, f.numberLevels, second, first);
    status, points := FinestPass(f, track, second, first, status, points);
  }
}
