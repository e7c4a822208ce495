/**
  The grid feature selector (`FeatureDetector`): runs the FAST detector over a
  range of pyramid levels, lifts coarse candidates to level-0 coordinates,
  keeps the best Shi-Tomasi-scored candidate per grid cell, and emits the
  qualifying cells in shuffled order up to a count cap.

  FAST and Shi-Tomasi are oracles: `fast(level)` is the list of candidate
  positions FAST reports on that level (in that level's coordinates), and
  `score(pos)` is the Shi-Tomasi response at a level-0 position. The shuffle
  is an arbitrary permutation `order` of the cell indices.
*/
module FeatureDetector {
  import opened Geometry

  /** `FastCorner::Corner` after lifting: a level-0 position and the level it came from. */
  datatype Corner = Corner(pos: Point2i, level: int)

  /** One grid partition's current best candidate. */
  datatype Cell = Cell(pos: Point2i, score: real, level: int)

  /** Selector output: a level-0 position and the level it was detected on. */
  datatype FeatureCorner = FeatureCorner(pos: Point2i, level: int)

  /** The selector's configuration plus its scratch cells (`m_cells`). */
  datatype Detector = Detector(
    borderSize: Point2i,
    barrier: int,
    detectionThreshold: real,
    minLevelForFeature: int,
    maxLevelForFeature: int,
    maxCountFeatures: int,
    gridSize: Point2i,
    cells: seq<Cell>)

  /** What the setters' assertions keep true of every detector. */
  predicate Valid(d: Detector) {
    && d.gridSize.x > 0 && d.gridSize.y > 0
    && |d.cells| == d.gridSize.x * d.gridSize.y
    && d.detectionThreshold > 0.0
    && d.borderSize.x >= 0 && d.borderSize.y >= 0
  }

  const ZeroCell := Cell(Point2i(0, 0), 0.0, 0)

  /** `std::vector::resize(n, fill)`: keeps the first elements, pads with `fill`. */
  function Resize<T>(s: seq<T>, n: nat, fill: T): (r: seq<T>)
    ensures |r| == n
    ensures forall i :: 0 <= i < n && i < |s| ==> r[i] == s[i]
    ensures forall i :: |s| <= i < n ==> r[i] == fill
  {
    if n <= |s| then s[..n] else s + seq(n - |s|, _ => fill)
  }

  // ---------------------------------------------------------------------------
  // Configuration

  /** `setGridSize`: one cell per grid partition; existing cells survive the resize. */
  function SetGridSize(d: Detector, gridSize: Point2i): (r: Detector)
    requires gridSize.x > 0 && gridSize.y > 0
    ensures r.gridSize == gridSize
    ensures |r.cells| == gridSize.x * gridSize.y
    ensures forall i :: |d.cells| <= i < |r.cells| ==> r.cells[i] == ZeroCell
    ensures r.(gridSize := d.gridSize, cells := d.cells) == d
    ensures d.detectionThreshold > 0.0 && d.borderSize.x >= 0 && d.borderSize.y >= 0 ==> Valid(r)
  {
    d.(gridSize := gridSize, cells := Resize(d.cells, gridSize.x * gridSize.y, ZeroCell))
  }

  /** The default constructor. */
  function NewDetector(): (r: Detector)
    ensures Valid(r)
    ensures r.barrier == 4 && r.detectionThreshold == 80.0
    ensures r.minLevelForFeature == 1 && r.maxLevelForFeature == -1
    ensures r.gridSize == Point2i(25, 25) && r.maxCountFeatures == 1000
    ensures r.borderSize == Point2i(12, 12)
    ensures forall i :: 0 <= i < |r.cells| ==> r.cells[i] == ZeroCell
  {
    var d := Detector(Point2i(0, 0), 4, 80.0, 1, -1, 0, Point2i(0, 0), []);
    SetGridSize(d, Point2i(25, 25)).(maxCountFeatures := 1000, borderSize := Point2i(12, 12))
  }

  function SetDetectionThreshold(d: Detector, threshold: real): (r: Detector)
    requires Valid(d)
    requires threshold > 0.0
    ensures Valid(r) && r.detectionThreshold == threshold
    ensures r.(detectionThreshold := d.detectionThreshold) == d
  {
    d.(detectionThreshold := threshold)
  }

  function SetBorderSize(d: Detector, borderSize: Point2i): (r: Detector)
    requires Valid(d)
    requires borderSize.x >= 0 && borderSize.y >= 0
    ensures Valid(r) && r.borderSize == borderSize
    ensures r.(borderSize := d.borderSize) == d
  {
    d.(borderSize := borderSize)
  }

  /** The unchecked setters: barrier, level range and feature cap take any value. */
  function SetBarrier(d: Detector, barrier: int): (r: Detector)
    requires Valid(d)
    ensures Valid(r) && r.barrier == barrier
    ensures r.(barrier := d.barrier) == d
  {
    d.(barrier := barrier)
  }

  function SetLevelForFeature(d: Detector, minLevel: int, maxLevel: int): (r: Detector)
    requires Valid(d)
    ensures Valid(r)
    ensures r.minLevelForFeature == minLevel && r.maxLevelForFeature == maxLevel
    ensures r.(minLevelForFeature := d.minLevelForFeature, maxLevelForFeature := d.maxLevelForFeature) == d
  {
    d.(minLevelForFeature := minLevel, maxLevelForFeature := maxLevel)
  }

  function SetMaxCountFeatures(d: Detector, maxCountFeatures: int): (r: Detector)
    requires Valid(d)
    ensures Valid(r) && r.maxCountFeatures == maxCountFeatures
    ensures r.(maxCountFeatures := d.maxCountFeatures) == d
  {
    d.(maxCountFeatures := maxCountFeatures)
  }

  // ---------------------------------------------------------------------------
  // Pyramid levels

  /**
    The inclusive level range a pass uses: a negative minimum becomes 0, and a
    maximum that is negative or beyond the pyramid becomes the top level.
  */
  function LevelRange(d: Detector, numberLevels: int): (r: (int, int))
    ensures r.0 == Max(d.minLevelForFeature, 0)
    ensures 0 <= d.maxLevelForFeature < numberLevels ==> r.1 == d.maxLevelForFeature
    ensures !(0 <= d.maxLevelForFeature < numberLevels) ==> r.1 == numberLevels - 1
    ensures r.1 < numberLevels
  {
    var minLevel := if d.minLevelForFeature < 0 then 0 else d.minLevelForFeature;
    var maxLevel := if d.maxLevelForFeature < 0 || d.maxLevelForFeature >= numberLevels
                    then numberLevels - 1 else d.maxLevelForFeature;
    (minLevel, maxLevel)
  }

  /**
    The levels the detection loop actually visits from `level` up to
    `maxLevel`: it `break`s right after the first positive level.
  */
  function VisitedLevels(level: nat, maxLevel: int): (r: seq<nat>)
    ensures forall i :: 0 <= i < |r| ==> level <= r[i] <= maxLevel
    ensures |r| <= if level > 0 then 1 else 2
    decreases maxLevel - level
  {
    if level > maxLevel then []
    else if level > 0 then [level]
    else [level] + VisitedLevels(level + 1, maxLevel)
  }

  /**
    Candidates come from level 0 (when the range starts there) plus at most
    one positive level: the first one of the range.
  */
  lemma {:induction false} VisitedLevelsShape(minLevel: nat, maxLevel: int)
    ensures minLevel > maxLevel ==> VisitedLevels(minLevel, maxLevel) == []
    ensures 0 < minLevel <= maxLevel ==> VisitedLevels(minLevel, maxLevel) == [minLevel]
    ensures minLevel == 0 == maxLevel ==> VisitedLevels(minLevel, maxLevel) == [0]
    ensures minLevel == 0 < maxLevel ==> VisitedLevels(minLevel, maxLevel) == [0, 1]
  {
    if minLevel == 0 && 0 < maxLevel {
      assert VisitedLevels(1, maxLevel) == [1];
    }
  }

  /** The levels the evident intent visits: every level of the range. */
  function AllLevels(level: nat, maxLevel: int): (r: seq<nat>)
    ensures forall l :: level <= l <= maxLevel ==> l in r
    ensures forall i :: 0 <= i < |r| ==> level <= r[i] <= maxLevel
    ensures |r| == Max(maxLevel - level + 1, 0)
    decreases maxLevel - level
  {
    if level > maxLevel then [] else [level] + AllLevels(level + 1, maxLevel)
  }

  /** A range starting at 0 and reaching level 2 never visits level 2. */
  lemma VisitedLevelsSkipsLevels()
    ensures VisitedLevels(0, 2) == [0, 1]
    ensures 2 !in VisitedLevels(0, 2) && 2 in AllLevels(0, 2)
  {
    VisitedLevelsShape(0, 2);
    assert AllLevels(0, 2)[2] == 2;
  }

  /** Level `k` of a pyramid is no larger than `ceil(size0 / 2^k)`. */
  predicate WellFormedPyramid(sizes: seq<Point2i>) {
    && |sizes| >= 1
    && sizes[0].x > 0 && sizes[0].y > 0
    && forall k :: 0 <= k < |sizes| ==>
         && 0 <= sizes[k].x <= CeilDiv(sizes[0].x, Pow2(k))
         && 0 <= sizes[k].y <= CeilDiv(sizes[0].y, Pow2(k))
  }

  /** FAST scans the window `[border, size - border - 1)` of each level it is run on. */
  predicate InWindow(p: Point2i, size: Point2i, border: Point2i) {
    border.x <= p.x < size.x - border.x - 1 && border.y <= p.y < size.y - border.y - 1
  }

  predicate FastRespectsWindow(fast: int -> seq<Point2i>, sizes: seq<Point2i>, border: Point2i) {
    forall l, i :: 0 <= l < |sizes| && 0 <= i < |fast(l)| ==> InWindow(fast(l)[i], sizes[l], border)
  }

  predicate InImage(p: Point2i, size: Point2i) {
    0 <= p.x < size.x && 0 <= p.y < size.y
  }

  /** `it->pos *= scale` for a positive level, the identity (tag 0) on level 0. */
  function LiftLevel(ps: seq<Point2i>, level: nat): (r: seq<Corner>)
    ensures |r| == |ps|
    ensures forall i :: 0 <= i < |ps| ==>
              r[i] == Corner(Point2i(ps[i].x * Pow2(level), ps[i].y * Pow2(level)), level)
  {
    if level > 0 then
      seq(|ps|, i requires 0 <= i < |ps| => Corner(Point2i(ps[i].x * Pow2(level), ps[i].y * Pow2(level)), level))
    else
      seq(|ps|, i requires 0 <= i < |ps| => Corner(ps[i], 0))
  }

  /** A corner whose level-`k` position lay in FAST's window on that level. */
  predicate FromWindow(c: Corner, sizes: seq<Point2i>, border: Point2i) {
    && 0 <= c.level < |sizes|
    && border.x * Pow2(c.level) <= c.pos.x <= (sizes[c.level].x - border.x - 2) * Pow2(c.level)
    && border.y * Pow2(c.level) <= c.pos.y <= (sizes[c.level].y - border.y - 2) * Pow2(c.level)
  }

  lemma ScaleMonotone(a: int, b: int, m: nat)
    requires a <= b
    ensures a * m <= b * m
  {
  }

  /** All candidates of the visited levels, in detection order. */
  function Gather(levels: seq<nat>, fast: int -> seq<Point2i>, sizes: seq<Point2i>, border: Point2i): (r: seq<Corner>)
    requires forall i :: 0 <= i < |levels| ==> levels[i] < |sizes|
    requires FastRespectsWindow(fast, sizes, border)
    ensures forall i :: 0 <= i < |r| ==> r[i].level in levels && FromWindow(r[i], sizes, border)
  {
    if |levels| == 0 then []
    else
      var l := levels[|levels| - 1];
      var last := LiftLevel(fast(l), l);
      var prefix := Gather(levels[..|levels| - 1], fast, sizes, border);
      assert forall i :: 0 <= i < |last| ==> FromWindow(last[i], sizes, border) by {
        forall i | 0 <= i < |last|
          ensures FromWindow(last[i], sizes, border)
        {
          var p := fast(l)[i];
          assert InWindow(p, sizes[l], border);
          ScaleMonotone(border.x, p.x, Pow2(l));
          ScaleMonotone(p.x, sizes[l].x - border.x - 2, Pow2(l));
          ScaleMonotone(border.y, p.y, Pow2(l));
          ScaleMonotone(p.y, sizes[l].y - border.y - 2, Pow2(l));
        }
      }
      prefix + last
  }

  lemma CeilDivBound(a: int, m: int, q: int)
    requires a > 0 && m > 0 && q <= CeilDiv(a, m)
    ensures (q - 1) * m < a
  {
    var c := CeilDiv(a, m);
    assert c * m <= a + m - 1;
    ScaleMonotone(q - 1, c - 1, m);
  }

  /**
    On a well-formed pyramid every candidate lies inside the level-0 image,
    so the `assert(false)` guard of the lifting loop never fires.
  */
  lemma FromWindowInImage(c: Corner, sizes: seq<Point2i>, border: Point2i)
    requires WellFormedPyramid(sizes)
    requires border.x >= 0 && border.y >= 0
    requires FromWindow(c, sizes, border)
    ensures InImage(c.pos, sizes[0])
  {
    var m := Pow2(c.level);
    var s := sizes[c.level];
    ScaleMonotone(0, border.x, m);
    ScaleMonotone(0, border.y, m);
    ScaleMonotone(s.x - border.x - 2, s.x - 1, m);
    ScaleMonotone(s.y - border.y - 2, s.y - 1, m);
    CeilDivBound(sizes[0].x, m, s.x);
    CeilDivBound(sizes[0].y, m, s.y);
  }

  // ---------------------------------------------------------------------------
  // Grid cells

  predicate ValidGrid(size: Point2i, grid: Point2i) {
    size.x > 0 && size.y > 0 && grid.x > 0 && grid.y > 0
  }

  /** The cell size: image size divided by grid size, per axis. */
  function CellSize(size: Point2i, grid: Point2i): Point2
    requires ValidGrid(size, grid)
  {
    Point2(size.x as real / grid.x as real, size.y as real / grid.y as real)
  }

  /** Column of a coordinate: `floor(v / (size / grid))`. */
  function CellCoord(v: int, size: int, grid: int): int
    requires size > 0 && grid > 0
  {
    (v as real / (size as real / grid as real)).Floor
  }

  lemma CellCoordInRange(v: int, size: int, grid: int)
    requires size > 0 && grid > 0 && 0 <= v < size
    ensures 0 <= CellCoord(v, size, grid) < grid
  {
    var w := size as real / grid as real;
    var q := v as real / w;
    assert q == (v as real) * (grid as real) / (size as real);
    assert (v as real) * (grid as real) < (size as real) * (grid as real);
    assert q < grid as real;
    FloorBelow(q, grid);
    FloorAtLeast(q, 0);
  }

  lemma RowMajorInRange(row: int, col: int, rows: int, cols: int)
    requires 0 <= row < rows && 0 <= col < cols
    ensures 0 <= row * cols + col < rows * cols
  {
    ScaleMonotone(row, rows - 1, cols);
  }

  /** A row-major index decodes back to its row (quotient) and column (remainder). */
  lemma RowMajorDecodes(row: int, col: int, cols: int)
    requires 0 <= col < cols
    ensures (row * cols + col) / cols == row && (row * cols + col) % cols == col
  {
    var a := row * cols + col;
    var q, m := a / cols, a % cols;
    assert q * cols + m == row * cols + col;
    assert (q - row) * cols == col - m;
    if q > row {
      ScaleMonotone(1, q - row, cols);
    } else if q < row {
      ScaleMonotone(1, row - q, cols);
    }
  }

  /**
    The selector's internal row-major index: `floor(y / cellH) * gridX + floor(x / cellW)`.
    For a pixel inside the image it names one of the `gridX * gridY` cells,
    and dividing by `gridX` gives back the pixel's grid row and column.
  */
  function CellIndex(p: Point2i, size: Point2i, grid: Point2i): (k: int)
    requires ValidGrid(size, grid)
    ensures InImage(p, size) ==> 0 <= k < grid.x * grid.y
    ensures InImage(p, size) ==>
              k / grid.x == CellCoord(p.y, size.y, grid.y) && k % grid.x == CellCoord(p.x, size.x, grid.x)
  {
    var row, col := CellCoord(p.y, size.y, grid.y), CellCoord(p.x, size.x, grid.x);
    var k := row * grid.x + col;
    assert InImage(p, size) ==> 0 <= k < grid.x * grid.y && k / grid.x == row && k % grid.x == col by {
      if InImage(p, size) {
        CellCoordInRange(p.x, size.x, grid.x);
        CellCoordInRange(p.y, size.y, grid.y);
        RowMajorInRange(row, col, grid.y, grid.x);
        RowMajorDecodes(row, col, grid.x);
      }
    }
    k
  }

  /** Every position inside the level-0 image maps to one of the `gridX * gridY` cells. */
  lemma CellIndexInRange(p: Point2i, size: Point2i, grid: Point2i)
    requires ValidGrid(size, grid) && InImage(p, size)
    ensures 0 <= CellIndex(p, size, grid) < grid.x * grid.y
  {
    CellCoordInRange(p.x, size.x, grid.x);
    CellCoordInRange(p.y, size.y, grid.y);
    RowMajorInRange(CellCoord(p.y, size.y, grid.y), CellCoord(p.x, size.x, grid.x), grid.y, grid.x);
  }

  /**
    The public `indexOfCell` as written: it uses `gridSize.y` as the row
    stride, so the index decodes to (row, column) by dividing by `gridSize.y`.
  */
  function IndexOfCellAsWritten(d: Detector, p: Point2, cellSize: Point2): (k: int)
    requires cellSize.x > 0.0 && cellSize.y > 0.0
    ensures 0 <= (p.x / cellSize.x).Floor < d.gridSize.y ==>
              k / d.gridSize.y == (p.y / cellSize.y).Floor && k % d.gridSize.y == (p.x / cellSize.x).Floor
  {
    var row, col := (p.y / cellSize.y).Floor, (p.x / cellSize.x).Floor;
    var k := row * d.gridSize.y + col;
    assert 0 <= col < d.gridSize.y ==> k / d.gridSize.y == row && k % d.gridSize.y == col by {
      if 0 <= col < d.gridSize.y {
        RowMajorDecodes(row, col, d.gridSize.y);
      }
    }
    k
  }

  /**
    `indexOfCell` with the row stride the selector itself uses (`gridSize.x`):
    the index decodes to (row, column) by dividing by `gridSize.x`, the
    layout of `m_cells`.
  */
  function IndexOfCell(d: Detector, p: Point2, cellSize: Point2): (k: int)
    requires cellSize.x > 0.0 && cellSize.y > 0.0
    ensures 0 <= (p.x / cellSize.x).Floor < d.gridSize.x ==>
              k / d.gridSize.x == (p.y / cellSize.y).Floor && k % d.gridSize.x == (p.x / cellSize.x).Floor
  {
    var row, col := (p.y / cellSize.y).Floor, (p.x / cellSize.x).Floor;
    var k := row * d.gridSize.x + col;
    assert 0 <= col < d.gridSize.x ==> k / d.gridSize.x == row && k % d.gridSize.x == col by {
      if 0 <= col < d.gridSize.x {
        RowMajorDecodes(row, col, d.gridSize.x);
      }
    }
    k
  }

  /** Called with the selector's cell size, the corrected index is the selector's own cell. */
  lemma IndexOfCellMatchesSelector(d: Detector, p: Point2i, size: Point2i)
    requires ValidGrid(size, d.gridSize) && InImage(p, size)
    ensures IndexOfCell(d, ToReal(p), CellSize(size, d.gridSize)) == CellIndex(p, size, d.gridSize)
    ensures 0 <= IndexOfCell(d, ToReal(p), CellSize(size, d.gridSize)) < d.gridSize.x * d.gridSize.y
  {
    CellIndexInRange(p, size, d.gridSize);
  }

  /** The written stride agrees with the selector's only on square grids. */
  lemma IndexOfCellAsWrittenSquare(d: Detector, p: Point2i, size: Point2i)
    requires ValidGrid(size, d.gridSize) && d.gridSize.x == d.gridSize.y
    ensures IndexOfCellAsWritten(d, ToReal(p), CellSize(size, d.gridSize)) == CellIndex(p, size, d.gridSize)
  {
  }

  /**
    On a 1 x 2 grid over a 1 x 2 image the pixel (0, 1) lies in cell 1, but the
    written `indexOfCell` returns 2, past the end of the two cells.
  */
  lemma IndexOfCellAsWrittenOutOfRange()
    ensures Valid(OneByTwo()) && |OneByTwo().cells| == 2
    ensures CellSize(Point2i(1, 2), OneByTwo().gridSize) == Point2(1.0, 1.0)
    ensures CellIndex(Point2i(0, 1), Point2i(1, 2), OneByTwo().gridSize) == 1
    ensures IndexOfCellAsWritten(OneByTwo(), Point2(0.0, 1.0), Point2(1.0, 1.0)) == 2
    ensures IndexOfCell(OneByTwo(), Point2(0.0, 1.0), Point2(1.0, 1.0)) == 1
  {
    OneByTwoSelector();
    OneByTwoIndices();
  }

  /** A detector with a 1 x 2 grid and two empty cells. */
  function OneByTwo(): Detector {
    Detector(Point2i(0, 0), 4, 80.0, 1, -1, 1000, Point2i(1, 2), [ZeroCell, ZeroCell])
  }

  lemma OneByTwoSelector()
    ensures Valid(OneByTwo()) && |OneByTwo().cells| == 2
    ensures CellSize(Point2i(1, 2), OneByTwo().gridSize) == Point2(1.0, 1.0)
    ensures CellIndex(Point2i(0, 1), Point2i(1, 2), OneByTwo().gridSize) == 1
  {
  }

  lemma OneByTwoIndices()
    ensures IndexOfCellAsWritten(OneByTwo(), Point2(0.0, 1.0), Point2(1.0, 1.0)) == 2
    ensures IndexOfCell(OneByTwo(), Point2(0.0, 1.0), Point2(1.0, 1.0)) == 1
  {
  }

  // ---------------------------------------------------------------------------
  // Cell update

  /** The cell a level-0 position falls into, as the selection loop computes it. */
  function CellOf(p: Point2i, size: Point2i, grid: Point2i): (k: int)
    requires ValidGrid(size, grid) && InImage(p, size)
    ensures 0 <= k < grid.x * grid.y
    ensures k == CellIndex(p, size, grid)
  {
    CellIndexInRange(p, size, grid);
    CellIndex(p, size, grid)
  }

  predicate AllInImage(cands: seq<Corner>, size: Point2i) {
    forall i :: 0 <= i < |cands| ==> InImage(cands[i].pos, size)
  }

  /** The cell contents a candidate writes when it wins its cell. */
  function CellFrom(c: Corner, score: Point2i -> real): Cell {
    Cell(c.pos, score(c.pos), c.level)
  }

  /** `it->score = value` for every cell; positions and levels are kept */
  function ResetScores(cells: seq<Cell>, value: real): (r: seq<Cell>)
    ensures |r| == |cells|
    ensures forall k :: 0 <= k < |r| ==> r[k] == cells[k].(score := value)
  {
    seq(|cells|, k requires 0 <= k < |cells| => cells[k].(score := value))
  }

  /**
    Candidate `j` beats every earlier candidate of its cell strictly: of
    several equally scored candidates only the first can win the cell.
  */
  predicate BeatsEarlier(cands: seq<Corner>, j: int, size: Point2i, grid: Point2i, score: Point2i -> real)
    requires ValidGrid(size, grid) && AllInImage(cands, size) && 0 <= j < |cands|
  {
    forall i :: 0 <= i < j && CellOf(cands[i].pos, size, grid) == CellOf(cands[j].pos, size, grid) ==>
      score(cands[i].pos) < score(cands[j].pos)
  }

  /** Cell `k` holds candidate `j`, which beat every earlier candidate of that cell. */
  predicate WonBy(c: Cell, k: int, cands: seq<Corner>, j: int, size: Point2i, grid: Point2i, score: Point2i -> real)
    requires ValidGrid(size, grid) && AllInImage(cands, size)
  {
    && 0 <= j < |cands|
    && CellOf(cands[j].pos, size, grid) == k
    && c == CellFrom(cands[j], score)
    && BeatsEarlier(cands, j, size, grid, score)
  }

  lemma WonByPrefix(c: Cell, k: int, cands: seq<Corner>, n: int, j: int, size: Point2i, grid: Point2i, score: Point2i -> real)
    requires ValidGrid(size, grid) && AllInImage(cands, size) && 0 <= n <= |cands|
    requires WonBy(c, k, cands[..n], j, size, grid, score)
    ensures WonBy(c, k, cands, j, size, grid, score)
  {
    assert cands[..n][j] == cands[j];
    forall i | 0 <= i < j && CellOf(cands[i].pos, size, grid) == k
      ensures score(cands[i].pos) < score(cands[j].pos)
    {
      assert cands[..n][i] == cands[i];
    }
  }

  /** Winners of the cells of a prefix of the candidates stay winners of the whole list. */
  lemma WinnersExtend(cells: seq<Cell>, prior: seq<Cell>, cands: seq<Corner>, n: int,
                      size: Point2i, grid: Point2i, score: Point2i -> real)
    requires ValidGrid(size, grid) && AllInImage(cands, size) && 0 <= n <= |cands| && |prior| == |cells|
    requires forall k :: 0 <= k < |prior| && prior[k] != cells[k] ==> exists j :: WonBy(prior[k], k, cands[..n], j, size, grid, score)
    ensures forall k :: 0 <= k < |prior| && prior[k] != cells[k] ==> exists j :: WonBy(prior[k], k, cands, j, size, grid, score)
  {
    forall k | 0 <= k < |prior| && prior[k] != cells[k]
      ensures exists j :: WonBy(prior[k], k, cands, j, size, grid, score)
    {
      var j :| WonBy(prior[k], k, cands[..n], j, size, grid, score);
      WonByPrefix(prior[k], k, cands, n, j, size, grid, score);
    }
  }

  /** The last candidate, strictly better than its cell's best so far, wins that cell. */
  lemma LastCandidateWins(prior: seq<Cell>, cands: seq<Corner>, size: Point2i, grid: Point2i,
                          score: Point2i -> real, blocked: seq<bool>)
    requires ValidGrid(size, grid) && AllInImage(cands, size) && |cands| > 0
    requires |prior| == grid.x * grid.y && |blocked| == |prior|
    requires !blocked[CellOf(cands[|cands| - 1].pos, size, grid)]
    requires score(cands[|cands| - 1].pos) > prior[CellOf(cands[|cands| - 1].pos, size, grid)].score
    requires forall j :: 0 <= j < |cands| - 1 && !blocked[CellOf(cands[j].pos, size, grid)] ==>
               score(cands[j].pos) <= prior[CellOf(cands[j].pos, size, grid)].score
    ensures WonBy(CellFrom(cands[|cands| - 1], score), CellOf(cands[|cands| - 1].pos, size, grid), cands, |cands| - 1, size, grid, score)
  {
  }

  /**
    What the per-candidate loop leaves behind: scores only grow, blocked
    cells are untouched, no unblocked candidate beats its cell's final
    score, and every changed cell holds a candidate that strictly beat the
    earlier ones of that cell.
  */
  ghost predicate Selected(r: seq<Cell>, cells: seq<Cell>, cands: seq<Corner>, size: Point2i, grid: Point2i,
                           score: Point2i -> real, blocked: seq<bool>)
    requires ValidGrid(size, grid) && |cells| == grid.x * grid.y && |blocked| == |cells|
    requires AllInImage(cands, size)
  {
    && |r| == |cells|
    && (forall k :: 0 <= k < |r| ==> r[k].score >= cells[k].score)
    && (forall k :: 0 <= k < |r| && blocked[k] ==> r[k] == cells[k])
    && (forall j :: 0 <= j < |cands| && !blocked[CellOf(cands[j].pos, size, grid)] ==>
          score(cands[j].pos) <= r[CellOf(cands[j].pos, size, grid)].score)
    && (forall k :: 0 <= k < |r| && r[k] != cells[k] ==>
          && !blocked[k]
          && r[k].score > cells[k].score
          && exists j :: WonBy(r[k], k, cands, j, size, grid, score))
  }

  /** A last candidate that is blocked or not strictly better changes nothing. */
  lemma SelectedIgnoring(prior: seq<Cell>, cells: seq<Cell>, cands: seq<Corner>, size: Point2i, grid: Point2i,
                         score: Point2i -> real, blocked: seq<bool>)
    requires ValidGrid(size, grid) && |cells| == grid.x * grid.y && |blocked| == |cells|
    requires AllInImage(cands, size) && |cands| > 0
    requires Selected(prior, cells, cands[..|cands| - 1], size, grid, score, blocked)
    requires var k := CellOf(cands[|cands| - 1].pos, size, grid);
             blocked[k] || !(score(cands[|cands| - 1].pos) > prior[k].score)
    ensures Selected(prior, cells, cands, size, grid, score, blocked)
  {
    var n := |cands| - 1;
    assert forall i :: 0 <= i < n ==> cands[..n][i] == cands[i];
    WinnersExtend(cells, prior, cands, n, size, grid, score);
  }

  /** A last candidate that is unblocked and strictly better takes its cell. */
  lemma SelectedReplacing(prior: seq<Cell>, cells: seq<Cell>, cands: seq<Corner>, size: Point2i, grid: Point2i,
                          score: Point2i -> real, blocked: seq<bool>)
    requires ValidGrid(size, grid) && |cells| == grid.x * grid.y && |blocked| == |cells|
    requires AllInImage(cands, size) && |cands| > 0
    requires Selected(prior, cells, cands[..|cands| - 1], size, grid, score, blocked)
    requires var k := CellOf(cands[|cands| - 1].pos, size, grid);
             !blocked[k] && score(cands[|cands| - 1].pos) > prior[k].score
    ensures var c := cands[|cands| - 1];
            Selected(prior[CellOf(c.pos, size, grid) := CellFrom(c, score)], cells, cands, size, grid, score, blocked)
  {
    var n := |cands| - 1;
    var c := cands[n];
    var k := CellOf(c.pos, size, grid);
    assert forall i :: 0 <= i < n ==> cands[..n][i] == cands[i];
    WinnersExtend(cells, prior, cands, n, size, grid, score);
    LastCandidateWins(prior, cands, size, grid, score, blocked);
    var r := prior[k := CellFrom(c, score)];
    assert r[k] != cells[k] ==> exists j :: WonBy(r[k], k, cands, j, size, grid, score);
  }

  /**
    The per-candidate loop: a candidate whose cell is not blocked replaces the
    cell's contents when its score is strictly greater than the cell's
    current score.
  */
  function UpdateCells(cells: seq<Cell>, cands: seq<Corner>, size: Point2i, grid: Point2i,
                       score: Point2i -> real, blocked: seq<bool>): (r: seq<Cell>)
    requires ValidGrid(size, grid) && |cells| == grid.x * grid.y && |blocked| == |cells|
    requires AllInImage(cands, size)
    ensures |r| == |cells|
    ensures Selected(r, cells, cands, size, grid, score, blocked)
  {
    if |cands| == 0 then cells
    else
      var n := |cands| - 1;
      var prior := UpdateCells(cells, cands[..n], size, grid, score, blocked);
      var c := cands[n];
      var k := CellOf(c.pos, size, grid);
      if blocked[k] || !(score(c.pos) > prior[k].score) then
        SelectedIgnoring(prior, cells, cands, size, grid, score, blocked);
        prior
      else
        SelectedReplacing(prior, cells, cands, size, grid, score, blocked);
        prior[k := CellFrom(c, score)]
  }

  /**
    `blockCells`: a cell is blocked exactly when some already tracked corner
    falls into it.
  */
  function BlockedCells(existing: seq<Point2i>, size: Point2i, grid: Point2i): (r: seq<bool>)
    requires ValidGrid(size, grid)
    requires forall i :: 0 <= i < |existing| ==> InImage(existing[i], size)
    ensures |r| == grid.x * grid.y
    ensures forall k :: 0 <= k < |r| ==>
              (r[k] <==> exists i :: 0 <= i < |existing| && CellOf(existing[i], size, grid) == k)
  {
    if |existing| == 0 then seq(grid.x * grid.y, _ => false)
    else
      var n := |existing| - 1;
      var prior := BlockedCells(existing[..n], size, grid);
      var r := prior[CellOf(existing[n], size, grid) := true];
      assert forall i :: 0 <= i < n ==> existing[..n][i] == existing[i];
      r
  }

  // ---------------------------------------------------------------------------
  // Emission

  /** The shuffled cell order: every cell index exactly once. */
  predicate IsPermutation(order: seq<int>, n: int) {
    && |order| == n
    && (forall i :: 0 <= i < |order| ==> 0 <= order[i] < n)
    && (forall i, j :: 0 <= i < j < |order| ==> order[i] != order[j])
    && (forall k :: 0 <= k < n ==> k in order)
  }

  predicate Distinct(s: seq<int>) {
    forall i, j :: 0 <= i < j < |s| ==> s[i] != s[j]
  }

  predicate IndicesOf(order: seq<int>, n: int) {
    forall i :: 0 <= i < |order| ==> 0 <= order[i] < n
  }

  /** The cells, in shuffled order, whose score exceeds the threshold. */
  function Qualifying(order: seq<int>, cells: seq<Cell>, threshold: real): (r: seq<int>)
    requires IndicesOf(order, |cells|)
    ensures |r| <= |order|
    ensures forall i :: 0 <= i < |r| ==> r[i] in order && cells[r[i]].score > threshold
    ensures forall i :: 0 <= i < |order| && cells[order[i]].score > threshold ==> order[i] in r
    ensures Distinct(order) ==> Distinct(r)
  {
    if |order| == 0 then []
    else
      var rest := Qualifying(order[1..], cells, threshold);
      assert forall i :: 1 <= i < |order| ==> order[i] == order[1..][i - 1];
      if cells[order[0]].score > threshold then
        ConsDistinct(order, rest);
        [order[0]] + rest
      else rest
  }

  /** Putting the head of a distinct sequence before elements of its tail keeps them distinct. */
  lemma ConsDistinct(order: seq<int>, rest: seq<int>)
    requires |order| > 0
    requires forall i :: 0 <= i < |rest| ==> rest[i] in order[1..]
    requires Distinct(order) ==> Distinct(rest)
    ensures Distinct(order) ==> Distinct([order[0]] + rest)
  {
    if Distinct(order) {
      var r := [order[0]] + rest;
      forall i, j | 0 <= i < j < |r|
        ensures r[i] != r[j]
      {
        if i == 0 {
          var m :| 0 <= m < |order[1..]| && order[1..][m] == r[j];
          assert order[m + 1] == r[j];
        } else {
          assert r[i] == rest[i - 1] && r[j] == rest[j - 1];
        }
      }
    }
  }

  /** The first `n` elements of `s` (all of it when it is shorter). */
  function Take<T>(s: seq<T>, n: int): (r: seq<T>)
    ensures n >= 0 ==> |r| == Min(|s|, n)
    ensures n < 0 ==> r == []
    ensures forall i :: 0 <= i < |r| ==> r[i] == s[i]
  {
    if n < 0 then [] else if |s| <= n then s else s[..n]
  }

  /** Taking from a sequence with a known head: the head, then the rest of the take. */
  lemma AppendTake(acc: seq<int>, x: int, s: seq<int>, n: int)
    requires n >= 1
    ensures acc + Take([x] + s, n) == (acc + [x]) + Take(s, n - 1)
  {
    var t := Take([x] + s, n);
    assert t == [x] + Take(s, n - 1);
  }

  /** One step of `Qualifying`: the head is kept exactly when its score beats the threshold. */
  lemma QualifyingStep(order: seq<int>, cells: seq<Cell>, threshold: real)
    requires IndicesOf(order, |cells|) && |order| > 0
    ensures cells[order[0]].score > threshold ==>
              Qualifying(order, cells, threshold) == [order[0]] + Qualifying(order[1..], cells, threshold)
    ensures cells[order[0]].score <= threshold ==>
              Qualifying(order, cells, threshold) == Qualifying(order[1..], cells, threshold)
  {
  }

  /**
    The emission loop as written: a qualifying cell is pushed first, and only
    then is the count compared with `maxCountFeatures` using `>`, so one
    feature more than the cap can be returned.
  */
  function EmitAsWritten(order: seq<int>, cells: seq<Cell>, threshold: real, maxCount: int, acc: seq<int>): (r: seq<int>)
    requires IndicesOf(order, |cells|)
    requires |acc| <= Max(maxCount, 0)
    ensures r == acc + Take(Qualifying(order, cells, threshold), Max(maxCount, 0) + 1 - |acc|)
  {
    if |order| == 0 then acc
    else if cells[order[0]].score > threshold then
      var pushed := acc + [order[0]];
      QualifyingStep(order, cells, threshold);
      AppendTake(acc, order[0], Qualifying(order[1..], cells, threshold), Max(maxCount, 0) + 1 - |acc|);
      if |pushed| > maxCount then
        pushed
      else
        EmitAsWritten(order[1..], cells, threshold, maxCount, pushed)
    else
      QualifyingStep(order, cells, threshold);
      EmitAsWritten(order[1..], cells, threshold, maxCount, acc)
  }

  /** The emission loop with the cap checked before pushing: never more than `maxCountFeatures`. */
  function EmitCapped(order: seq<int>, cells: seq<Cell>, threshold: real, maxCount: int, acc: seq<int>): (r: seq<int>)
    requires IndicesOf(order, |cells|)
    requires |acc| <= Max(maxCount, 0)
    ensures r == acc + Take(Qualifying(order, cells, threshold), Max(maxCount, 0) - |acc|)
  {
    if |order| == 0 || |acc| >= maxCount then acc
    else if cells[order[0]].score > threshold then
      QualifyingStep(order, cells, threshold);
      AppendTake(acc, order[0], Qualifying(order[1..], cells, threshold), Max(maxCount, 0) - |acc|);
      EmitCapped(order[1..], cells, threshold, maxCount, acc + [order[0]])
    else
      QualifyingStep(order, cells, threshold);
      EmitCapped(order[1..], cells, threshold, maxCount, acc)
  }

  /** With more qualifying cells than the cap allows, the written loop returns one feature too many. */
  lemma EmitAsWrittenExceedsCap(order: seq<int>, cells: seq<Cell>, threshold: real, maxCount: int)
    requires IndicesOf(order, |cells|)
    requires |Qualifying(order, cells, threshold)| > Max(maxCount, 0)
    ensures |EmitAsWritten(order, cells, threshold, maxCount, [])| == Max(maxCount, 0) + 1
    ensures |EmitCapped(order, cells, threshold, maxCount, [])| == Max(maxCount, 0)
  {
  }

  /** A cap of 0 with one qualifying cell: the written loop still emits it. */
  lemma EmitAsWrittenZeroCap()
    ensures EmitAsWritten([0], [Cell(Point2i(3, 4), 100.0, 0)], 80.0, 0, []) == [0]
    ensures EmitCapped([0], [Cell(Point2i(3, 4), 100.0, 0)], 80.0, 0, []) == []
  {
    assert Qualifying([0], [Cell(Point2i(3, 4), 100.0, 0)], 80.0) == [0];
  }

  /** `FeatureCorner(cell.pos, cell.level)` for each emitted cell index */
  function ToFeatures(idx: seq<int>, cells: seq<Cell>): (r: seq<FeatureCorner>)
    requires IndicesOf(idx, |cells|)
    ensures |r| == |idx|
    ensures forall i :: 0 <= i < |r| ==> r[i] == FeatureCorner(cells[idx[i]].pos, cells[idx[i]].level)
  {
    seq(|idx|, i requires 0 <= i < |idx| => FeatureCorner(cells[idx[i]].pos, cells[idx[i]].level))
  }

  // ---------------------------------------------------------------------------
  // The two detection passes

  datatype Detection =
    | Detected(corners: seq<FeatureCorner>, detector: Detector)
      /** A lifted candidate left the level-0 image: the debug `assert(false)`. */
    | OutsideImage

  /**
    What the selector promises of its output: each feature is a candidate of
    this pass inside the image whose score beats the threshold, it is the
    best-scored candidate of its cell, and no two features share a cell.
  */
  predicate Sound(corners: seq<FeatureCorner>, cands: seq<Corner>, size: Point2i, grid: Point2i,
                  score: Point2i -> real, threshold: real)
    requires ValidGrid(size, grid) && AllInImage(cands, size)
  {
    && (forall i :: 0 <= i < |corners| ==>
          && InImage(corners[i].pos, size)
          && score(corners[i].pos) > threshold
          && exists j :: 0 <= j < |cands| && cands[j].pos == corners[i].pos && cands[j].level == corners[i].level &&
               BeatsEarlier(cands, j, size, grid, score))
    && (forall i, j ::
          (0 <= i < |corners| && 0 <= j < |cands| && InImage(cands[j].pos, size) &&
           CellOf(cands[j].pos, size, grid) == CellOf(corners[i].pos, size, grid)) ==>
          score(cands[j].pos) <= score(corners[i].pos))
    && (forall i, i' :: 0 <= i < i' < |corners| ==>
          CellOf(corners[i].pos, size, grid) != CellOf(corners[i'].pos, size, grid))
  }

  /** Every unblocked cell holding a candidate that beats the threshold yields a feature. */
  predicate Complete(corners: seq<FeatureCorner>, cands: seq<Corner>, size: Point2i, grid: Point2i,
                     score: Point2i -> real, threshold: real, blocked: seq<bool>)
    requires ValidGrid(size, grid) && |blocked| == grid.x * grid.y
  {
    forall j ::
      (0 <= j < |cands| && InImage(cands[j].pos, size) && score(cands[j].pos) > threshold &&
       !blocked[CellOf(cands[j].pos, size, grid)]) ==>
      exists i :: 0 <= i < |corners| && InImage(corners[i].pos, size) &&
        CellOf(corners[i].pos, size, grid) == CellOf(cands[j].pos, size, grid)
  }

  function NoBlocks(n: nat): (r: seq<bool>)
    ensures |r| == n && forall k :: 0 <= k < n ==> !r[k]
  {
    seq(n, _ => false)
  }

  /** Reset every score, then let the candidates compete for their cells. */
  function SelectCells(d: Detector, size: Point2i, cands: seq<Corner>, score: Point2i -> real,
                       reset: real, blocked: seq<bool>): (r: seq<Cell>)
    requires Valid(d) && ValidGrid(size, d.gridSize) && |blocked| == |d.cells|
    requires AllInImage(cands, size)
    ensures |r| == |d.cells|
  {
    UpdateCells(ResetScores(d.cells, reset), cands, size, d.gridSize, score, blocked)
  }

  /** Emitting distinct cells that beat the threshold yields a sound feature list. */
  lemma EmittedSound(d: Detector, size: Point2i, cands: seq<Corner>, score: Point2i -> real,
                     reset: real, blocked: seq<bool>, idx: seq<int>)
    requires Valid(d) && ValidGrid(size, d.gridSize) && |blocked| == |d.cells|
    requires AllInImage(cands, size)
    requires reset <= d.detectionThreshold
    requires IndicesOf(idx, |d.cells|) && Distinct(idx)
    requires forall i :: 0 <= i < |idx| ==> SelectCells(d, size, cands, score, reset, blocked)[idx[i]].score > d.detectionThreshold
    ensures Sound(ToFeatures(idx, SelectCells(d, size, cands, score, reset, blocked)), cands, size, d.gridSize, score, d.detectionThreshold)
    ensures forall i :: 0 <= i < |idx| ==> !blocked[idx[i]]
    ensures forall i :: 0 <= i < |idx| ==>
              (InImage(ToFeatures(idx, SelectCells(d, size, cands, score, reset, blocked))[i].pos, size) &&
               CellOf(ToFeatures(idx, SelectCells(d, size, cands, score, reset, blocked))[i].pos, size, d.gridSize) == idx[i])
  {
    var start := ResetScores(d.cells, reset);
    var cells := SelectCells(d, size, cands, score, reset, blocked);
    var corners := ToFeatures(idx, cells);
    forall i | 0 <= i < |idx|
      ensures !blocked[idx[i]]
      ensures exists j :: WonBy(cells[idx[i]], idx[i], cands, j, size, d.gridSize, score)
    {
      assert cells[idx[i]] != start[idx[i]];
    }
    forall i | 0 <= i < |idx|
      ensures InImage(corners[i].pos, size) && CellOf(corners[i].pos, size, d.gridSize) == idx[i]
      ensures score(corners[i].pos) == cells[idx[i]].score
      ensures exists j :: 0 <= j < |cands| && cands[j].pos == corners[i].pos && cands[j].level == corners[i].level &&
                BeatsEarlier(cands, j, size, d.gridSize, score)
    {
      var j :| WonBy(cells[idx[i]], idx[i], cands, j, size, d.gridSize, score);
      assert corners[i].pos == cands[j].pos;
    }
  }

  /** When every qualifying cell is emitted, every qualifying unblocked candidate is represented. */
  lemma EmittedComplete(d: Detector, size: Point2i, cands: seq<Corner>, score: Point2i -> real,
                        reset: real, blocked: seq<bool>, idx: seq<int>)
    requires Valid(d) && ValidGrid(size, d.gridSize) && |blocked| == |d.cells|
    requires AllInImage(cands, size)
    requires reset <= d.detectionThreshold
    requires IndicesOf(idx, |d.cells|) && Distinct(idx)
    requires forall i :: 0 <= i < |idx| ==> SelectCells(d, size, cands, score, reset, blocked)[idx[i]].score > d.detectionThreshold
    requires forall k :: 0 <= k < |d.cells| && SelectCells(d, size, cands, score, reset, blocked)[k].score > d.detectionThreshold ==> k in idx
    ensures Complete(ToFeatures(idx, SelectCells(d, size, cands, score, reset, blocked)), cands, size, d.gridSize, score, d.detectionThreshold, blocked)
  {
    var cells := SelectCells(d, size, cands, score, reset, blocked);
    var corners := ToFeatures(idx, cells);
    EmittedSound(d, size, cands, score, reset, blocked, idx);
    forall j | 0 <= j < |cands| && score(cands[j].pos) > d.detectionThreshold && !blocked[CellOf(cands[j].pos, size, d.gridSize)]
      ensures exists i :: 0 <= i < |corners| && InImage(corners[i].pos, size) &&
                CellOf(corners[i].pos, size, d.gridSize) == CellOf(cands[j].pos, size, d.gridSize)
    {
      var k := CellOf(cands[j].pos, size, d.gridSize);
      assert cells[k].score >= score(cands[j].pos);
      var i :| 0 <= i < |idx| && idx[i] == k;
      assert CellOf(corners[i].pos, size, d.gridSize) == k;
    }
  }

  /** A prefix of the qualifying cells: distinct cells that beat the threshold; all of them when short. */
  lemma TakeQualifying(order: seq<int>, cells: seq<Cell>, threshold: real, n: int)
    requires IsPermutation(order, |cells|)
    ensures var t := Take(Qualifying(order, cells, threshold), n);
            && IndicesOf(t, |cells|) && Distinct(t)
            && (forall i :: 0 <= i < |t| ==> cells[t[i]].score > threshold)
            && (|t| < n ==> forall k :: 0 <= k < |cells| && cells[k].score > threshold ==> k in t)
  {
    var q := Qualifying(order, cells, threshold);
    var t := Take(q, n);
    assert Distinct(q);
    forall i | 0 <= i < |t|
      ensures t[i] == q[i] && 0 <= t[i] < |cells| && cells[t[i]].score > threshold
    {
      assert q[i] in order;
    }
    if |t| < n {
      assert t == q;
      forall k | 0 <= k < |cells| && cells[k].score > threshold
        ensures k in t
      {
        assert k in order;
        var i :| 0 <= i < |order| && order[i] == k;
      }
    }
  }

  /** Level-0 candidates come from FAST's window on the level-0 image itself. */
  lemma LevelZeroInImage(c: Corner, sizes: seq<Point2i>, border: Point2i)
    requires border.x >= 0 && border.y >= 0
    requires FromWindow(c, sizes, border) && c.level == 0
    ensures InImage(c.pos, sizes[0])
  {
  }

  /** The level-0 candidates of one pass over `levels`, in detection order. */
  function PassCandidates(d: Detector, sizes: seq<Point2i>, fast: int -> seq<Point2i>, levels: seq<nat>): (r: seq<Corner>)
    requires Valid(d)
    requires forall i :: 0 <= i < |levels| ==> levels[i] < |sizes|
    requires FastRespectsWindow(fast, sizes, d.borderSize)
    ensures forall i :: 0 <= i < |r| ==> r[i].level in levels && FromWindow(r[i], sizes, d.borderSize)
  {
    Gather(levels, fast, sizes, d.borderSize)
  }

  /** The levels `detectCorners` visits on a pyramid of `numberLevels` levels. */
  function DetectionLevels(d: Detector, numberLevels: int): (r: seq<nat>)
    ensures forall i :: 0 <= i < |r| ==> r[i] < numberLevels
  {
    var range := LevelRange(d, numberLevels);
    VisitedLevels(range.0, range.1)
  }

  /** The guard of the lifting loop: only lifted (positive-level) candidates are checked. */
  predicate LiftedInImage(cands: seq<Corner>, size: Point2i) {
    forall i :: 0 <= i < |cands| && cands[i].level > 0 ==> InImage(cands[i].pos, size)
  }

  lemma GuardCoversAll(d: Detector, sizes: seq<Point2i>, cands: seq<Corner>)
    requires Valid(d) && |sizes| >= 1
    requires forall i :: 0 <= i < |cands| ==> FromWindow(cands[i], sizes, d.borderSize)
    ensures AllInImage(cands, sizes[0]) <==> LiftedInImage(cands, sizes[0])
    ensures WellFormedPyramid(sizes) ==> AllInImage(cands, sizes[0])
  {
    forall i | 0 <= i < |cands| && cands[i].level == 0
      ensures InImage(cands[i].pos, sizes[0])
    {
      LevelZeroInImage(cands[i], sizes, d.borderSize);
    }
    if WellFormedPyramid(sizes) {
      forall i | 0 <= i < |cands|
        ensures InImage(cands[i].pos, sizes[0])
      {
        FromWindowInImage(cands[i], sizes, d.borderSize);
      }
    }
  }

  /**
    Emitting a prefix of the qualifying cells, in shuffled order, gives a
    sound feature list that avoids blocked cells, and a complete one when the
    prefix is shorter than its bound.
  */
  lemma PassFacts(d: Detector, size: Point2i, cands: seq<Corner>, score: Point2i -> real,
                  reset: real, blocked: seq<bool>, order: seq<int>, n: int)
    requires Valid(d) && ValidGrid(size, d.gridSize) && |blocked| == |d.cells|
    requires AllInImage(cands, size)
    requires reset <= d.detectionThreshold
    requires IsPermutation(order, |d.cells|)
    ensures var cells := SelectCells(d, size, cands, score, reset, blocked);
            var idx := Take(Qualifying(order, cells, d.detectionThreshold), n);
            && IndicesOf(idx, |cells|)
            && (n >= 0 ==> |idx| <= n)
            && Sound(ToFeatures(idx, cells), cands, size, d.gridSize, score, d.detectionThreshold)
            && (forall i :: 0 <= i < |idx| ==>
                  (InImage(ToFeatures(idx, cells)[i].pos, size) &&
                   !blocked[CellOf(ToFeatures(idx, cells)[i].pos, size, d.gridSize)]))
            && (|idx| < n ==> Complete(ToFeatures(idx, cells), cands, size, d.gridSize, score, d.detectionThreshold, blocked))
  {
    var cells := SelectCells(d, size, cands, score, reset, blocked);
    var idx := Take(Qualifying(order, cells, d.detectionThreshold), n);
    TakeQualifying(order, cells, d.detectionThreshold, n);
    EmittedSound(d, size, cands, score, reset, blocked, idx);
    if |idx| < n {
      EmittedComplete(d, size, cands, score, reset, blocked, idx);
    }
  }

  /** A feature in an unblocked cell shares its cell with no existing corner. */
  lemma AvoidsExisting(corners: seq<FeatureCorner>, existing: seq<Point2i>, size: Point2i, grid: Point2i)
    requires ValidGrid(size, grid)
    requires forall e :: 0 <= e < |existing| ==> InImage(existing[e], size)
    requires forall i :: 0 <= i < |corners| ==>
               (InImage(corners[i].pos, size) && !BlockedCells(existing, size, grid)[CellOf(corners[i].pos, size, grid)])
    ensures forall i, e :: 0 <= i < |corners| && 0 <= e < |existing| ==>
              (InImage(corners[i].pos, size) && CellOf(corners[i].pos, size, grid) != CellOf(existing[e], size, grid))
  {
  }

  /**
    The tail shared by every pass: the reset-and-compete cell update, then
    the features of the emitted cells. `idx`, the emitted cells, is a prefix
    of at most `n` of the qualifying cells in shuffled order.
  */
  function Finish(d: Detector, size: Point2i, cands: seq<Corner>, score: Point2i -> real,
                  reset: real, blocked: seq<bool>, order: seq<int>, n: int, idx: seq<int>): (r: Detection)
    requires Valid(d) && ValidGrid(size, d.gridSize) && |blocked| == |d.cells|
    requires AllInImage(cands, size)
    requires reset <= d.detectionThreshold
    requires IsPermutation(order, |d.cells|)
    requires idx == Take(Qualifying(order, SelectCells(d, size, cands, score, reset, blocked), d.detectionThreshold), n)
    ensures r.Detected?
    ensures Valid(r.detector) && r.detector.(cells := d.cells) == d
    ensures n >= 0 ==> |r.corners| <= n
    ensures Sound(r.corners, cands, size, d.gridSize, score, d.detectionThreshold)
    ensures forall i :: 0 <= i < |r.corners| ==>
              (InImage(r.corners[i].pos, size) && !blocked[CellOf(r.corners[i].pos, size, d.gridSize)])
    ensures |r.corners| < n ==> Complete(r.corners, cands, size, d.gridSize, score, d.detectionThreshold, blocked)
  {
    var cells := SelectCells(d, size, cands, score, reset, blocked);
    PassFacts(d, size, cands, score, reset, blocked, order, n);
    Detected(ToFeatures(idx, cells), d.(cells := cells))
  }

  /**
    `detectCorners(imagePyramid)`: scores reset to 0, no blocked cells, the
    written level loop and the written emission cap. `sizes[k]` is the size of
    pyramid level `k`.
  */
  function DetectCorners(d: Detector, sizes: seq<Point2i>, fast: int -> seq<Point2i>,
                         score: Point2i -> real, order: seq<int>): (r: Detection)
    requires Valid(d) && |sizes| >= 1 && sizes[0].x > 0 && sizes[0].y > 0
    requires FastRespectsWindow(fast, sizes, d.borderSize)
    requires IsPermutation(order, |d.cells|)
    ensures WellFormedPyramid(sizes) ==> r.Detected?
    ensures var cands := PassCandidates(d, sizes, fast, DetectionLevels(d, |sizes|));
            && (r.OutsideImage? <==> !AllInImage(cands, sizes[0]))
            && (r.Detected? ==>
                  && Valid(r.detector) && r.detector.(cells := d.cells) == d
                  && |r.corners| <= Max(d.maxCountFeatures, 0) + 1
                  && Sound(r.corners, cands, sizes[0], d.gridSize, score, d.detectionThreshold)
                  && (|r.corners| <= d.maxCountFeatures ==>
                        Complete(r.corners, cands, sizes[0], d.gridSize, score, d.detectionThreshold, NoBlocks(|d.cells|))))
  {
    var cands := PassCandidates(d, sizes, fast, DetectionLevels(d, |sizes|));
    GuardCoversAll(d, sizes, cands);
    if !LiftedInImage(cands, sizes[0]) then OutsideImage
    else
      var blocked := NoBlocks(|d.cells|);
      var cells := SelectCells(d, sizes[0], cands, score, 0.0, blocked);
      var idx := EmitAsWritten(order, cells, d.detectionThreshold, d.maxCountFeatures, []);
      Finish(d, sizes[0], cands, score, 0.0, blocked, order, Max(d.maxCountFeatures, 0) + 1, idx)
  }

  /**
    `detectCorners(imagePyramid, existCorners)`: cells holding an already
    tracked corner are skipped, and scores restart at the threshold.
  */
  function DetectCornersExcluding(d: Detector, sizes: seq<Point2i>, fast: int -> seq<Point2i>,
                                  score: Point2i -> real, order: seq<int>, existing: seq<Point2i>): (r: Detection)
    requires Valid(d) && |sizes| >= 1 && sizes[0].x > 0 && sizes[0].y > 0
    requires FastRespectsWindow(fast, sizes, d.borderSize)
    requires IsPermutation(order, |d.cells|)
    requires forall e :: 0 <= e < |existing| ==> InImage(existing[e], sizes[0])
    ensures WellFormedPyramid(sizes) ==> r.Detected?
    ensures var cands := PassCandidates(d, sizes, fast, DetectionLevels(d, |sizes|));
            && (r.OutsideImage? <==> !AllInImage(cands, sizes[0]))
            && (r.Detected? ==>
                  && Valid(r.detector) && r.detector.(cells := d.cells) == d
                  && |r.corners| <= Max(d.maxCountFeatures, 0) + 1
                  && Sound(r.corners, cands, sizes[0], d.gridSize, score, d.detectionThreshold)
                  && (forall i, e :: 0 <= i < |r.corners| && 0 <= e < |existing| ==>
                        (InImage(r.corners[i].pos, sizes[0]) &&
                         CellOf(r.corners[i].pos, sizes[0], d.gridSize) != CellOf(existing[e], sizes[0], d.gridSize)))
                  && (|r.corners| <= d.maxCountFeatures ==>
                        Complete(r.corners, cands, sizes[0], d.gridSize, score, d.detectionThreshold,
                                 BlockedCells(existing, sizes[0], d.gridSize))))
  {
    var cands := PassCandidates(d, sizes, fast, DetectionLevels(d, |sizes|));
    GuardCoversAll(d, sizes, cands);
    if !LiftedInImage(cands, sizes[0]) then OutsideImage
    else
      var blocked := BlockedCells(existing, sizes[0], d.gridSize);
      var cells := SelectCells(d, sizes[0], cands, score, d.detectionThreshold, blocked);
      var idx := EmitAsWritten(order, cells, d.detectionThreshold, d.maxCountFeatures, []);
      var r := Finish(d, sizes[0], cands, score, d.detectionThreshold, blocked, order, Max(d.maxCountFeatures, 0) + 1, idx);
      AvoidsExisting(r.corners, existing, sizes[0], d.gridSize);
      r
  }

  /**
    The first pass as evidently intended: every level of the range is
    detected on, and never more than `maxCountFeatures` features are returned.
  */
  function DetectCornersIntended(d: Detector, sizes: seq<Point2i>, fast: int -> seq<Point2i>,
                                 score: Point2i -> real, order: seq<int>): (r: Detection)
    requires Valid(d) && |sizes| >= 1 && sizes[0].x > 0 && sizes[0].y > 0
    requires FastRespectsWindow(fast, sizes, d.borderSize)
    requires IsPermutation(order, |d.cells|)
    ensures WellFormedPyramid(sizes) ==> r.Detected?
    ensures var range := LevelRange(d, |sizes|);
            var cands := PassCandidates(d, sizes, fast, AllLevels(range.0, range.1));
            && (r.OutsideImage? <==> !AllInImage(cands, sizes[0]))
            && (r.Detected? ==>
                  && Valid(r.detector) && r.detector.(cells := d.cells) == d
                  && |r.corners| <= Max(d.maxCountFeatures, 0)
                  && Sound(r.corners, cands, sizes[0], d.gridSize, score, d.detectionThreshold)
                  && (|r.corners| < d.maxCountFeatures ==>
                        Complete(r.corners, cands, sizes[0], d.gridSize, score, d.detectionThreshold, NoBlocks(|d.cells|))))
  {
    var range := LevelRange(d, |sizes|);
    var cands := PassCandidates(d, sizes, fast, AllLevels(range.0, range.1));
    GuardCoversAll(d, sizes, cands);
    if !LiftedInImage(cands, sizes[0]) then OutsideImage
    else
      var blocked := NoBlocks(|d.cells|);
      var cells := SelectCells(d, sizes[0], cands, score, 0.0, blocked);
      var idx := EmitCapped(order, cells, d.detectionThreshold, d.maxCountFeatures, []);
      Finish(d, sizes[0], cands, score, 0.0, blocked, order, Max(d.maxCountFeatures, 0), idx)
  }
}
