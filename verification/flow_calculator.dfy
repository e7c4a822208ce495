/**
  The single-level KLT tracker (`OpticalFlowCalculator`): its configuration
  and valid-region margins, bilinear sub-pixel sampling, the determinant gate
  and the refinement loop with its `|delta + prevDelta| < eps` stop test.

  Images are represented by their sizes (`None` for a null image, whose size
  is taken as (0, 0)) and, where pixels are read, by a pixel oracle. The
  structure matrix, its determinant and the per-iteration correction are
  oracles: `det` is the determinant the accumulation produces and
  `delta(iteration, position)` the correction computed at that iteration.
*/
module FlowCalculator {
  import opened Geometry

  datatype Calculator = Calculator(
    cursorSize: Point2i,
    /** `m_pathSize`: the tracked window, `2 * cursor + 1` pixels per axis. */
    pathSize: Point2i,
    /** The size of the `m_path` buffer: the window plus a one-pixel border. */
    patchSize: Point2i,
    numberIterations: int,
    pixelEps: real,
    detThreshold: real,
    lastDet: real,
    firstImage: Option<Point2i>,
    secondImage: Option<Point2i>,
    beginFirst: Point2i,
    endFirst: Point2i,
    beginSecond: Point2i,
    endSecond: Point2i)

  function SizeOf(image: Option<Point2i>): Point2i {
    if image.Some? then image.value else Point2i(0, 0)
  }

  /** First valid integer position: its window starts two pixels inside the image. */
  function BeginMargin(cursor: Point2i): (r: Point2i)
    ensures r.x - cursor.x == 2 && r.y - cursor.y == 2
  {
    Point2i(cursor.x + 2, cursor.y + 2)
  }

  /**
    One past the last valid integer position: the last valid position's
    window and its bilinear neighbour end three pixels before the edge.
  */
  function EndMargin(size: Point2i, cursor: Point2i): (r: Point2i)
    ensures (r.x - 1) + cursor.x + 1 == size.x - 3 && (r.y - 1) + cursor.y + 1 == size.y - 3
  {
    Point2i(size.x - (cursor.x + 3), size.y - (cursor.y + 3))
  }

  /** The window and buffer sizes follow the (positive) cursor size. */
  predicate Valid(c: Calculator) {
    && c.cursorSize.x > 0 && c.cursorSize.y > 0
    && c.pathSize == Point2i(2 * c.cursorSize.x + 1, 2 * c.cursorSize.y + 1)
    && c.patchSize == Point2i(c.pathSize.x + 2, c.pathSize.y + 2)
  }

  predicate FirstFresh(c: Calculator) {
    c.beginFirst == BeginMargin(c.cursorSize) && c.endFirst == EndMargin(SizeOf(c.firstImage), c.cursorSize)
  }

  predicate SecondFresh(c: Calculator) {
    c.beginSecond == BeginMargin(c.cursorSize) && c.endSecond == EndMargin(SizeOf(c.secondImage), c.cursorSize)
  }

  /** The margins match the current cursor size and bound images. */
  predicate MarginsFresh(c: Calculator) {
    FirstFresh(c) && SecondFresh(c)
  }

  // ---------------------------------------------------------------------------
  // Configuration

  /**
    `setCursorSize`: the window is `2c + 1` and the patch buffer `2c + 3`; the
    margins are recomputed only when a second image is bound.
  */
  function SetCursorSize(c: Calculator, cursorSize: Point2i): (r: Calculator)
    requires cursorSize.x > 0 && cursorSize.y > 0
    ensures Valid(r) && r.cursorSize == cursorSize
    ensures r.pathSize == Point2i(2 * cursorSize.x + 1, 2 * cursorSize.y + 1)
    ensures r.patchSize == Point2i(2 * cursorSize.x + 3, 2 * cursorSize.y + 3)
    ensures c.secondImage.Some? ==> MarginsFresh(r)
    ensures c.secondImage.None? ==>
              r.beginFirst == c.beginFirst && r.endFirst == c.endFirst &&
              r.beginSecond == c.beginSecond && r.endSecond == c.endSecond
    ensures r.(cursorSize := c.cursorSize, pathSize := c.pathSize, patchSize := c.patchSize,
               beginFirst := c.beginFirst, endFirst := c.endFirst,
               beginSecond := c.beginSecond, endSecond := c.endSecond) == c
  {
    var pathSize := Point2i(2 * cursorSize.x + 1, 2 * cursorSize.y + 1);
    var sized := c.(cursorSize := cursorSize, pathSize := pathSize,
                    patchSize := Point2i(pathSize.x + 2, pathSize.y + 2));
    if c.secondImage.Some? then
      sized.(beginFirst := BeginMargin(cursorSize), endFirst := EndMargin(SizeOf(c.firstImage), cursorSize),
             beginSecond := BeginMargin(cursorSize), endSecond := EndMargin(SizeOf(c.secondImage), cursorSize))
    else
      sized
  }

  /**
    The constructor: cursor (4, 4), `pixelEps` and `detThreshold` 0.01, 8
    iterations, `lastDet` 0, no images. The margins are never assigned
    there (no second image is bound); they are taken as (0, 0).
  */
  function NewCalculator(): (r: Calculator)
    ensures Valid(r) && r.cursorSize == Point2i(4, 4) && r.pathSize == Point2i(9, 9)
    ensures r.pixelEps == 0.01 && r.detThreshold == 0.01 && r.numberIterations == 8 && r.lastDet == 0.0
    ensures r.firstImage.None? && r.secondImage.None?
  {
    var zero := Point2i(0, 0);
    var blank := Calculator(zero, zero, zero, 0, 0.0, 0.0, 0.0, None, None, zero, zero, zero, zero);
    SetCursorSize(blank, Point2i(4, 4)).(pixelEps := 0.01, detThreshold := 0.01, numberIterations := 8, lastDet := 0.0)
  }

  /** `setFirstImage`: binds the image and recomputes the first image's margins. */
  function SetFirstImage(c: Calculator, image: Option<Point2i>): (r: Calculator)
    ensures r.firstImage == image && FirstFresh(r)
    ensures SecondFresh(c) ==> MarginsFresh(r)
    ensures r.(firstImage := c.firstImage, beginFirst := c.beginFirst, endFirst := c.endFirst) == c
  {
    c.(firstImage := image, beginFirst := BeginMargin(c.cursorSize), endFirst := EndMargin(SizeOf(image), c.cursorSize))
  }

  /** `setSecondImage`: binds the image and recomputes the second image's margins. */
  function SetSecondImage(c: Calculator, image: Option<Point2i>): (r: Calculator)
    ensures r.secondImage == image && SecondFresh(r)
    ensures FirstFresh(c) ==> MarginsFresh(r)
    ensures r.(secondImage := c.secondImage, beginSecond := c.beginSecond, endSecond := c.endSecond) == c
  {
    c.(secondImage := image, beginSecond := BeginMargin(c.cursorSize), endSecond := EndMargin(SizeOf(image), c.cursorSize))
  }

  /** `setPixelEps` stores the magnitude, so the tolerance is never negative. */
  function SetPixelEps(c: Calculator, eps: real): (r: Calculator)
    ensures r.pixelEps >= 0.0
    ensures r.pixelEps == eps || r.pixelEps == -eps
    ensures eps >= 0.0 ==> r.pixelEps == eps
    ensures r.(pixelEps := c.pixelEps) == c
  {
    c.(pixelEps := Abs(eps))
  }

  /** `setNumberIterations`: an unchecked store; a count of 0 or less makes the loop apply no correction. */
  function SetNumberIterations(c: Calculator, numberIterations: int): (r: Calculator)
    ensures Valid(c) ==> Valid(r)
    ensures r.numberIterations == numberIterations
    ensures r.(numberIterations := c.numberIterations) == c
  {
    c.(numberIterations := numberIterations)
  }

  /** `setDetThreshold`: an unchecked store of the determinant gate. */
  function SetDetThreshold(c: Calculator, detThreshold: real): (r: Calculator)
    ensures Valid(c) ==> Valid(r)
    ensures r.detThreshold == detThreshold
    ensures r.(detThreshold := c.detThreshold) == c
  {
    c.(detThreshold := detThreshold)
  }

  /** Binding both images after a cursor change leaves every margin fresh. */
  lemma RebindingRefreshes(c: Calculator, cursorSize: Point2i, first: Option<Point2i>, second: Option<Point2i>)
    requires cursorSize.x > 0 && cursorSize.y > 0
    ensures MarginsFresh(SetSecondImage(SetFirstImage(SetCursorSize(c, cursorSize), first), second))
  {
  }

  /**
    With no second image bound, `setCursorSize` leaves the first image's
    margins computed for the old cursor.
  */
  lemma StaleMarginsWithoutSecondImage()
    ensures var c := SetFirstImage(NewCalculator(), Some(Point2i(100, 100)));
            FirstFresh(c) && !FirstFresh(SetCursorSize(c, Point2i(8, 8)))
  {
    var c := SetFirstImage(NewCalculator(), Some(Point2i(100, 100)));
    assert c.beginFirst == Point2i(6, 6);
    assert SetCursorSize(c, Point2i(8, 8)).beginFirst == Point2i(6, 6);
  }

  // ---------------------------------------------------------------------------
  // Sub-pixel sampling

  /** Bilinear interpolation weights for the four neighbouring pixels. */
  datatype Weights = Weights(tl: real, tr: real, bl: real, br: real)

  function BilinearWeights(sub: Point2): (w: Weights)
    ensures w.tl + w.tr + w.bl + w.br == 1.0
    ensures 0.0 <= sub.x <= 1.0 && 0.0 <= sub.y <= 1.0 ==>
              && 0.0 <= w.tl <= 1.0 && 0.0 <= w.tr <= 1.0
              && 0.0 <= w.bl <= 1.0 && 0.0 <= w.br <= 1.0
    ensures sub == Point2(0.0, 0.0) ==> w == Weights(1.0, 0.0, 0.0, 0.0)
  {
    var x, y := sub.x, sub.y;
    var w := Weights((1.0 - x) * (1.0 - y), x * (1.0 - y), (1.0 - x) * y, x * y);
    WeightsSum(x, y);
    WeightBounds(x, y);
    w
  }

  /** Inside the unit square each bilinear weight lies in [0, 1]. */
  lemma WeightBounds(x: real, y: real)
    ensures 0.0 <= x <= 1.0 && 0.0 <= y <= 1.0 ==>
              && 0.0 <= (1.0 - x) * (1.0 - y) <= 1.0 && 0.0 <= x * (1.0 - y) <= 1.0
              && 0.0 <= (1.0 - x) * y <= 1.0 && 0.0 <= x * y <= 1.0
  {
    if 0.0 <= x <= 1.0 && 0.0 <= y <= 1.0 {
      var tl := UnitProduct(1.0 - x, 1.0 - y);
      var tr := UnitProduct(x, 1.0 - y);
      var bl := UnitProduct(1.0 - x, y);
      var br := UnitProduct(x, y);
    }
  }

  /** The four bilinear weights always add up to one. */
  lemma WeightsSum(x: real, y: real)
    ensures (1.0 - x) * (1.0 - y) + x * (1.0 - y) + (1.0 - x) * y + x * y == 1.0
  {
    assert (1.0 - x) * (1.0 - y) + x * (1.0 - y) == 1.0 - y;
    assert (1.0 - x) * y + x * y == y;
  }

  /** The product of two factors in [0, 1], returned as `t` so the bound is stated on a name. */
  lemma UnitProduct(a: real, b: real) returns (t: real)
    requires 0.0 <= a <= 1.0 && 0.0 <= b <= 1.0
    ensures t == a * b
    ensures 0.0 <= t <= 1.0
  {
    t := a * b;
    MulNonneg(a, b);
    assert 1.0 - t == (1.0 - a) + a * (1.0 - b);
    MulNonneg(a, 1.0 - b);
  }

  /** The fractional part of a position: `position - floor(position)`, in [0, 1). */
  function SubPixel(p: Point2): (s: Point2)
    ensures 0.0 <= s.x < 1.0 && 0.0 <= s.y < 1.0
  {
    FloorBounds(p.x);
    FloorBounds(p.y);
    Point2(p.x - p.x.Floor as real, p.y - p.y.Floor as real)
  }

  /** The `getSubPixelImage` assertions: the sampled block and its right/bottom neighbours fit. */
  predicate SubPixelFits(begin: Point2, outSize: Point2i, imageSize: Point2i) {
    && outSize.x >= 0 && outSize.y >= 0
    && begin.x.Floor >= 0 && begin.y.Floor >= 0
    && begin.x.Floor + outSize.x + 1 <= imageSize.x
    && begin.y.Floor + outSize.y + 1 <= imageSize.y
  }

  function Offset(p: Point2i, dx: int, dy: int): Point2i {
    Point2i(p.x + dx, p.y + dy)
  }

  /** One output pixel: the weighted sum of the four pixels around `base`. */
  function Interpolate(pixel: Point2i -> int, base: Point2i, w: Weights): real {
    w.tl * pixel(base) as real + w.tr * pixel(Offset(base, 1, 0)) as real
      + w.bl * pixel(Offset(base, 0, 1)) as real + w.br * pixel(Offset(base, 1, 1)) as real
  }

  /** `getSubPixelImageF`: the image resampled on a grid starting at `begin`. */
  function GetSubPixelImageF(pixel: Point2i -> int, imageSize: Point2i, begin: Point2, outSize: Point2i): (r: seq<seq<real>>)
    requires SubPixelFits(begin, outSize, imageSize)
    ensures |r| == outSize.y
    ensures forall y :: 0 <= y < |r| ==> |r[y]| == outSize.x
    ensures forall y, x :: 0 <= y < |r| && 0 <= x < outSize.x ==>
              r[y][x] == Interpolate(pixel, Offset(FloorPoint(begin), x, y), BilinearWeights(SubPixel(begin)))
  {
    var w := BilinearWeights(SubPixel(begin));
    var origin := FloorPoint(begin);
    seq(outSize.y, y => seq(outSize.x, x => Interpolate(pixel, Offset(origin, x, y), w)))
  }

  /** `cast<uchar>` of a non-negative float: truncation toward zero. */
  function Truncate(v: real): int {
    if v >= 0.0 then v.Floor else -((-v).Floor)
  }

  /** `getSubPixelImage`: the float samples truncated to bytes. */
  function GetSubPixelImage(pixel: Point2i -> int, imageSize: Point2i, begin: Point2, outSize: Point2i): (r: seq<seq<int>>)
    requires SubPixelFits(begin, outSize, imageSize)
    ensures |r| == outSize.y
    ensures forall y :: 0 <= y < |r| ==> |r[y]| == outSize.x
    ensures forall y, x :: 0 <= y < |r| && 0 <= x < outSize.x ==>
              r[y][x] == Truncate(GetSubPixelImageF(pixel, imageSize, begin, outSize)[y][x])
  {
    var f := GetSubPixelImageF(pixel, imageSize, begin, outSize);
    seq(outSize.y, y requires 0 <= y < outSize.y => seq(outSize.x, x requires 0 <= x < outSize.x => Truncate(f[y][x])))
  }

  /** Every pixel a sample reads lies inside the source image. */
  lemma SubPixelReadsInImage(begin: Point2, outSize: Point2i, imageSize: Point2i, x: int, y: int)
    requires SubPixelFits(begin, outSize, imageSize)
    requires 0 <= x < outSize.x && 0 <= y < outSize.y
    ensures var base := Offset(FloorPoint(begin), x, y);
            && 0 <= base.x && base.x + 1 < imageSize.x
            && 0 <= base.y && base.y + 1 < imageSize.y
  {
  }

  ghost predicate BytePixels(pixel: Point2i -> int, size: Point2i) {
    forall p: Point2i :: 0 <= p.x < size.x && 0 <= p.y < size.y ==> 0 <= pixel(p) <= 255
  }

  /** A weight times a byte value, returned as `t`: it lies between 0 and 255 times the weight. */
  lemma ScaledByte(w: real, v: real) returns (t: real)
    requires 0.0 <= w && 0.0 <= v <= 255.0
    ensures t == w * v
    ensures 0.0 <= t <= 255.0 * w
  {
    t := w * v;
    MulNonneg(w, v);
    assert 255.0 * w - t == w * (255.0 - v);
    MulNonneg(w, 255.0 - v);
  }

  /** A convex combination of values in [0, 255] lies in [0, 255]. */
  lemma ConvexByte(w: Weights, a: real, b: real, c: real, d: real)
    requires 0.0 <= w.tl && 0.0 <= w.tr && 0.0 <= w.bl && 0.0 <= w.br
    requires w.tl + w.tr + w.bl + w.br == 1.0
    requires 0.0 <= a <= 255.0 && 0.0 <= b <= 255.0 && 0.0 <= c <= 255.0 && 0.0 <= d <= 255.0
    ensures 0.0 <= w.tl * a + w.tr * b + w.bl * c + w.br * d <= 255.0
  {
    var ta := ScaledByte(w.tl, a);
    var tb := ScaledByte(w.tr, b);
    var tc := ScaledByte(w.bl, c);
    var td := ScaledByte(w.br, d);
  }

  /** Resampling a byte image yields values in [0, 255]: the weights are a convex combination. */
  lemma SubPixelRange(pixel: Point2i -> int, imageSize: Point2i, begin: Point2, outSize: Point2i, x: int, y: int)
    requires SubPixelFits(begin, outSize, imageSize) && BytePixels(pixel, imageSize)
    requires 0 <= x < outSize.x && 0 <= y < outSize.y
    ensures 0.0 <= GetSubPixelImageF(pixel, imageSize, begin, outSize)[y][x] <= 255.0
    ensures 0 <= GetSubPixelImage(pixel, imageSize, begin, outSize)[y][x] <= 255
  {
    var base := Offset(FloorPoint(begin), x, y);
    var w := BilinearWeights(SubPixel(begin));
    SubPixelReadsInImage(begin, outSize, imageSize, x, y);
    assert 0 <= pixel(base) <= 255;
    assert 0 <= pixel(Offset(base, 1, 0)) <= 255;
    assert 0 <= pixel(Offset(base, 0, 1)) <= 255;
    assert 0 <= pixel(Offset(base, 1, 1)) <= 255;
    var a, b, c, d := pixel(base) as real, pixel(Offset(base, 1, 0)) as real,
                      pixel(Offset(base, 0, 1)) as real, pixel(Offset(base, 1, 1)) as real;
    ConvexByte(w, a, b, c, d);
    var v := GetSubPixelImageF(pixel, imageSize, begin, outSize)[y][x];
    assert v == w.tl * a + w.tr * b + w.bl * c + w.br * d;
    FloorAtLeast(v, 0);
    FloorBelow(v, 256);
  }

  /** Unit weight on the top-left pixel reads that pixel exactly. */
  lemma InterpolateUnit(pixel: Point2i -> int, base: Point2i)
    ensures Interpolate(pixel, base, Weights(1.0, 0.0, 0.0, 0.0)) == pixel(base) as real
  {
  }

  /** At an integer position the resampled float image copies the block. */
  lemma IntegralSamplingCopiesF(pixel: Point2i -> int, imageSize: Point2i, origin: Point2i, outSize: Point2i, x: int, y: int)
    requires SubPixelFits(ToReal(origin), outSize, imageSize)
    requires 0 <= x < outSize.x && 0 <= y < outSize.y
    ensures GetSubPixelImageF(pixel, imageSize, ToReal(origin), outSize)[y][x] == pixel(Offset(origin, x, y)) as real
  {
    var begin := ToReal(origin);
    assert FloorPoint(begin) == origin;
    assert SubPixel(begin) == Point2(0.0, 0.0);
    assert BilinearWeights(SubPixel(begin)) == Weights(1.0, 0.0, 0.0, 0.0);
    InterpolateUnit(pixel, Offset(origin, x, y));
  }

  /** At an integer position the byte image copies the block too. */
  lemma IntegralSamplingCopies(pixel: Point2i -> int, imageSize: Point2i, origin: Point2i, outSize: Point2i, x: int, y: int)
    requires SubPixelFits(ToReal(origin), outSize, imageSize)
    requires 0 <= x < outSize.x && 0 <= y < outSize.y
    ensures GetSubPixelImage(pixel, imageSize, ToReal(origin), outSize)[y][x] == pixel(Offset(origin, x, y))
  {
    IntegralSamplingCopiesF(pixel, imageSize, origin, outSize, x, y);
    TruncateInteger(pixel(Offset(origin, x, y)));
  }

  lemma TruncateInteger(k: int)
    ensures Truncate(k as real) == k
  {
  }

  // ---------------------------------------------------------------------------
  // Entry checks and read bounds

  /**
    The float-seed entry check: `beginFirst <= first < endFirst` on both axes.
    With fresh margins it accepts only seeds at least `cursor + 2` pixels
    inside the top-left edge and `cursor + 3` inside the bottom-right edge,
    so nothing is accepted without a first image.
  */
  predicate SeedInFirstRegion(c: Calculator, first: Point2)
    ensures FirstFresh(c) && SeedInFirstRegion(c, first) ==>
              && (c.cursorSize.x + 2) as real <= first.x < (SizeOf(c.firstImage).x - c.cursorSize.x - 3) as real
              && (c.cursorSize.y + 2) as real <= first.y < (SizeOf(c.firstImage).y - c.cursorSize.y - 3) as real
    ensures Valid(c) && FirstFresh(c) && SeedInFirstRegion(c, first) ==> c.firstImage.Some?
  {
    && c.beginFirst.x as real <= first.x < c.endFirst.x as real
    && c.beginFirst.y as real <= first.y < c.endFirst.y as real
  }

  /** The top-left corner of the patch cut around a float seed: `first - (cursor + 1.5)`. */
  function PatchOrigin(c: Calculator, first: Point2): Point2 {
    Point2(first.x - (c.cursorSize.x as real + 1.5), first.y - (c.cursorSize.y as real + 1.5))
  }

  /**
    A seed that passes the entry check lies in a bound first image, and the
    patch cut around it satisfies the assertions of `getSubPixelImage`.
  */
  lemma PatchExtractionFits(c: Calculator, first: Point2)
    requires Valid(c) && FirstFresh(c) && SeedInFirstRegion(c, first)
    ensures c.firstImage.Some?
    ensures SubPixelFits(PatchOrigin(c, first), c.patchSize, SizeOf(c.firstImage))
  {
    var o := PatchOrigin(c, first);
    var size := SizeOf(c.firstImage);
    FloorAtLeast(o.x, 0);
    FloorAtLeast(o.y, 0);
    FloorBelow(o.x, size.x - 2 * c.cursorSize.x - 4);
    FloorBelow(o.y, size.y - 2 * c.cursorSize.y - 4);
  }

  /** A null first image has an empty valid region: every seed is rejected. */
  lemma NullFirstImageRejects(c: Calculator, first: Point2)
    requires Valid(c) && FirstFresh(c) && c.firstImage.None?
    ensures !SeedInFirstRegion(c, first)
  {
  }

  /**
    The central differences at window pixel `p` read the patch at `p + (1, 1)`
    and its four neighbours, all inside the `(2c + 3)`-square patch.
  */
  lemma PatchReadsInBounds(c: Calculator, p: Point2i)
    requires Valid(c)
    requires 0 <= p.x < c.pathSize.x && 0 <= p.y < c.pathSize.y
    ensures 0 <= p.x && p.x + 2 < c.patchSize.x
    ensures 0 <= p.y && p.y + 2 < c.patchSize.y
  {
  }

  predicate InRegion(p: Point2i, begin: Point2i, end: Point2i) {
    begin.x <= p.x < end.x && begin.y <= p.y < end.y
  }

  /**
    Once the integer position passes the per-iteration check, the bilinear
    reads of window pixel `p` (at `position - cursor + p` and one pixel right
    and down) stay within rows and columns `[2, size - 3]`.
  */
  lemma SecondReadsInBounds(c: Calculator, position: Point2i, p: Point2i)
    requires Valid(c) && SecondFresh(c)
    requires InRegion(position, c.beginSecond, c.endSecond)
    requires 0 <= p.x < c.pathSize.x && 0 <= p.y < c.pathSize.y
    ensures var size := SizeOf(c.secondImage);
            var base := Point2i(position.x - c.cursorSize.x + p.x, position.y - c.cursorSize.y + p.y);
            && 2 <= base.x && base.x + 1 <= size.x - 3
            && 2 <= base.y && base.y + 1 <= size.y - 3
  {
  }

  // ---------------------------------------------------------------------------
  // The refinement loop

  /** The 2-D variants move on both axes (`position -= delta`); the horizontal ones on x only (`x += delta`). */
  datatype Axes = Both | XOnly

  function Apply(axes: Axes, position: Point2, delta: Point2): Point2 {
    match axes
    case Both => position.Minus(delta)
    case XOnly => Point2(position.x + delta.x, position.y)
  }

  /** The per-iteration region check: both axes, or x alone once y was checked. */
  predicate InsideRegion(axes: Axes, p: Point2i, begin: Point2i, end: Point2i) {
    match axes
    case Both => InRegion(p, begin, end)
    case XOnly => begin.x <= p.x < end.x
  }

  /** The stop test: `|delta + prevDelta| < eps` on every moving axis. */
  predicate Close(axes: Axes, delta: Point2, prevDelta: Point2, eps: real) {
    match axes
    case Both => Abs(delta.x + prevDelta.x) < eps && Abs(delta.y + prevDelta.y) < eps
    case XOnly => Abs(delta.x + prevDelta.x) < eps
  }

  /** The position after `k` corrections. */
  function Trajectory(axes: Axes, start: Point2, delta: (nat, Point2) -> Point2, k: nat): Point2 {
    if k == 0 then start
    else
      var p := Trajectory(axes, start, delta, k - 1);
      Apply(axes, p, delta(k - 1, p))
  }

  /** The correction computed at iteration `k`. */
  function StepDelta(axes: Axes, start: Point2, delta: (nat, Point2) -> Point2, k: nat): Point2 {
    delta(k, Trajectory(axes, start, delta, k))
  }

  /** The horizontal variants never move the position vertically. */
  lemma {:induction false} XOnlyKeepsY(start: Point2, delta: (nat, Point2) -> Point2, k: nat)
    ensures Trajectory(XOnly, start, delta, k).y == start.y
  {
    if k > 0 {
      XOnlyKeepsY(start, delta, k - 1);
    }
  }

  /**
    The iteration loop shared by the four `_…OnSecondImage…` routines. It
    applies at most `numberIterations` corrections; `steps` is how many were
    applied. `Fail` means the position left the region before a correction,
    `Completed` that the stop test held at an iteration >= 1, `Uncompleted`
    that the budget ran out.
  */
  method Refine(axes: Axes, begin: Point2i, end: Point2i, numberIterations: int, eps: real,
                start: Point2, delta: (nat, Point2) -> Point2)
    returns (result: TrackingResult, position: Point2, steps: nat)
    ensures steps <= Max(numberIterations, 0)
    ensures position == Trajectory(axes, start, delta, steps)
    ensures forall k :: 0 <= k < steps ==> InsideRegion(axes, FloorPoint(Trajectory(axes, start, delta, k)), begin, end)
    ensures forall k :: 1 <= k < steps && !(result == Completed && k == steps - 1) ==>
              !Close(axes, StepDelta(axes, start, delta, k), StepDelta(axes, start, delta, k - 1), eps)
    ensures result == Fail ==> steps < numberIterations && !InsideRegion(axes, FloorPoint(position), begin, end)
    ensures result == Completed ==>
              steps >= 2 && Close(axes, StepDelta(axes, start, delta, steps - 1), StepDelta(axes, start, delta, steps - 2), eps)
    ensures result == Uncompleted ==> steps == Max(numberIterations, 0)
    ensures numberIterations <= 1 ==> result != Completed
  {
    position := start;
    var prevDelta := Point2(0.0, 0.0);
    var iteration: nat := 0;
    while iteration < numberIterations
      invariant iteration <= Max(numberIterations, 0)
      invariant position == Trajectory(axes, start, delta, iteration)
      invariant iteration > 0 ==> prevDelta == StepDelta(axes, start, delta, iteration - 1)
      invariant forall k :: 0 <= k < iteration ==> InsideRegion(axes, FloorPoint(Trajectory(axes, start, delta, k)), begin, end)
      invariant forall k :: 1 <= k < iteration ==>
                  !Close(axes, StepDelta(axes, start, delta, k), StepDelta(axes, start, delta, k - 1), eps)
      decreases numberIterations - iteration
    {
      if !InsideRegion(axes, FloorPoint(position), begin, end) {
        return Fail, position, iteration;
      }
      var d := delta(iteration, position);
      position := Apply(axes, position, d);
      if iteration > 0 && Close(axes, d, prevDelta, eps) {
        return Completed, position, iteration + 1;
      }
      prevDelta := d;
      iteration := iteration + 1;
    }
    return Uncompleted, position, iteration;
  }

  /**
    `tracking2d` / `tracking2dLK` with a float seed: the entry check on the
    first image, the recorded determinant and its gate, then the 2-D loop
    from the estimate `second` over the second image's region. The two
    variants differ only in the determinant and the corrections, which are
    the oracles here.
  */
  method Tracking2d(c: Calculator, second: Point2, first: Point2, det: real, delta: (nat, Point2) -> Point2)
    returns (result: TrackingResult, position: Point2, r: Calculator, steps: nat)
    requires Valid(c)
    ensures !SeedInFirstRegion(c, first) ==> result == Fail && position == second && r == c && steps == 0
    ensures SeedInFirstRegion(c, first) ==> r == c.(lastDet := det)
    ensures SeedInFirstRegion(c, first) && Abs(det) < c.detThreshold ==> result == Fail && position == second && steps == 0
    ensures result != Fail ==> SeedInFirstRegion(c, first) && Abs(det) >= c.detThreshold
    ensures position == Trajectory(Both, second, delta, steps)
    ensures steps <= Max(c.numberIterations, 0)
    ensures forall k :: 0 <= k < steps ==> InRegion(FloorPoint(Trajectory(Both, second, delta, k)), c.beginSecond, c.endSecond)
    ensures forall k :: 1 <= k < steps && !(result == Completed && k == steps - 1) ==>
              !Close(Both, StepDelta(Both, second, delta, k), StepDelta(Both, second, delta, k - 1), c.pixelEps)
    ensures result == Fail ==>
              || !SeedInFirstRegion(c, first)
              || Abs(det) < c.detThreshold
              || (steps < c.numberIterations && !InRegion(FloorPoint(position), c.beginSecond, c.endSecond))
    ensures result == Completed ==>
              steps >= 2 && Close(Both, StepDelta(Both, second, delta, steps - 1), StepDelta(Both, second, delta, steps - 2), c.pixelEps)
    ensures result == Uncompleted ==> steps == Max(c.numberIterations, 0)
    ensures c.numberIterations <= 1 ==> result != Completed
  {
    if !SeedInFirstRegion(c, first) {
      return Fail, second, c, 0;
    }
    if FirstFresh(c) {
      PatchExtractionFits(c, first);
    }
    r := c.(lastDet := det);
    if Abs(det) < c.detThreshold {
      return Fail, second, r, 0;
    }
    result, position, steps := Refine(Both, c.beginSecond, c.endSecond, c.numberIterations, c.pixelEps, second, delta);
  }

  /**
    `horizontalTracking` / `horizontalTrackingLK` with a float seed: after the
    entry check, the row of the estimate is checked once against the second
    image's region, and the loop then moves x only.
  */
  method HorizontalTracking(c: Calculator, second: Point2, first: Point2, det: real, delta: (nat, Point2) -> Point2)
    returns (result: TrackingResult, position: Point2, r: Calculator, steps: nat)
    requires Valid(c)
    ensures position.y == second.y
    ensures !SeedInFirstRegion(c, first) ==> result == Fail && position == second && r == c && steps == 0
    ensures var row := second.y.Floor;
            SeedInFirstRegion(c, first) && !(c.beginSecond.y <= row < c.endSecond.y) ==>
              result == Fail && position == second && r == c && steps == 0
    ensures var row := second.y.Floor;
            SeedInFirstRegion(c, first) && c.beginSecond.y <= row < c.endSecond.y ==> r == c.(lastDet := det)
    ensures result != Fail ==> SeedInFirstRegion(c, first) && Abs(det) >= c.detThreshold
    ensures position == Trajectory(XOnly, second, delta, steps)
    ensures steps <= Max(c.numberIterations, 0)
    ensures forall k :: 0 <= k < steps ==> InRegion(FloorPoint(Trajectory(XOnly, second, delta, k)), c.beginSecond, c.endSecond)
    ensures forall k :: 1 <= k < steps && !(result == Completed && k == steps - 1) ==>
              !Close(XOnly, StepDelta(XOnly, second, delta, k), StepDelta(XOnly, second, delta, k - 1), c.pixelEps)
    ensures var row := second.y.Floor;
            result == Fail ==>
              || !SeedInFirstRegion(c, first)
              || !(c.beginSecond.y <= row < c.endSecond.y)
              || Abs(det) < c.detThreshold
              || (steps < c.numberIterations && !(c.beginSecond.x <= FloorPoint(position).x < c.endSecond.x))
    ensures result == Completed ==>
              steps >= 2 && Close(XOnly, StepDelta(XOnly, second, delta, steps - 1), StepDelta(XOnly, second, delta, steps - 2), c.pixelEps)
    ensures result == Uncompleted ==> steps == Max(c.numberIterations, 0)
    ensures c.numberIterations <= 1 ==> result != Completed
  {
    if !SeedInFirstRegion(c, first) {
      return Fail, second, c, 0;
    }
    if FirstFresh(c) {
      PatchExtractionFits(c, first);
    }
    var row := second.y.Floor;
    if !(c.beginSecond.y <= row < c.endSecond.y) {
      return Fail, second, c, 0;
    }
    r := c.(lastDet := det);
    if Abs(det) < c.detThreshold {
      return Fail, second, r, 0;
    }
    result, position, steps := Refine(XOnly, c.beginSecond, c.endSecond, c.numberIterations, c.pixelEps, second, delta);
    XOnlyKeepsY(second, delta, steps);
    forall k | 0 <= k < steps
      ensures InRegion(FloorPoint(Trajectory(XOnly, second, delta, k)), c.beginSecond, c.endSecond)
    {
      XOnlyKeepsY(second, delta, k);
    }
  }
}
