/**
  Value types shared by the whole front-end: 2-D points with real or integer
  coordinates, the per-point tracking verdict, and the few arithmetic helpers
  the C++ code gets from `std` (`floor`, `fabs`, `1 << level`).

  Coordinates are exact reals: the library computes in `float`, and rounding
  is not modelled anywhere in this project.
*/
module Geometry {

  /** `Point2f`: a sub-pixel position or displacement. */
  datatype Point2 = Point2(x: real, y: real) {

    function Plus(o: Point2): Point2 {
      Point2(x + o.x, y + o.y)
    }

    function Minus(o: Point2): Point2 {
      Point2(x - o.x, y - o.y)
    }

    function Times(s: real): Point2 {
      Point2(x * s, y * s)
    }

    /** Division by a (non-zero) scale, as in `secondPosition / scale`. */
    function Over(s: real): Point2
      requires s != 0.0
    {
      Point2(x / s, y / s)
    }

    function LengthSquared(): real {
      x * x + y * y
    }
  }

  /** `Point2i`: an integer pixel position or a size (width, height). */
  datatype Point2i = Point2i(x: int, y: int)

  function ToReal(p: Point2i): Point2 {
    Point2(p.x as real, p.y as real)
  }

  /** Component-wise `floor`, as in `position_i.x = cast<int>(floor(position.x))`. */
  function FloorPoint(p: Point2): Point2i {
    Point2i(p.x.Floor, p.y.Floor)
  }

  /** `TrackingResult` (OpticalFlowCalculator.h). */
  datatype TrackingResult = Fail | Completed | Uncompleted

  datatype Option<T> = None | Some(value: T)

  function Abs(r: real): (a: real)
    ensures a >= 0.0
    ensures a == r || a == -r
  {
    if r < 0.0 then -r else r
  }

  function Min(a: int, b: int): (m: int)
    ensures m <= a && m <= b
    ensures m == a || m == b
  {
    if a < b then a else b
  }

  function Max(a: int, b: int): (m: int)
    ensures m >= a && m >= b
    ensures m == a || m == b
  {
    if a < b then b else a
  }

  /** `1 << level`; the shift never overflows in the model. */
  function Pow2(k: nat): (r: nat)
    ensures r >= 1
    ensures k > 0 ==> r >= 2 && r % 2 == 0
  {
    if k == 0 then 1 else 2 * Pow2(k - 1)
  }

  /** Integer ceiling of `a / m` for a positive divisor. */
  function CeilDiv(a: int, m: int): int
    requires m > 0
  {
    (a + m - 1) / m
  }

  /** The real floor is the greatest integer not above its argument. */
  lemma FloorBounds(r: real)
    ensures (r.Floor as real) <= r < (r.Floor as real) + 1.0
  {
  }

  /** A real below an integer bound has a floor below that bound. */
  lemma FloorBelow(r: real, n: int)
    requires r < n as real
    ensures r.Floor < n
  {
  }

  /** A real at or above an integer bound has a floor at or above it. */
  lemma FloorAtLeast(r: real, n: int)
    requires n as real <= r
    ensures n <= r.Floor
  {
  }

  /** Scaling a point up and back down by the same non-zero factor returns it. */
  lemma TimesOver(p: Point2, s: real)
    requires s != 0.0
    ensures p.Times(s).Over(s) == p
  {
    var q := p.Times(s);
    assert q.x / s == p.x;
    assert q.y / s == p.y;
  }

  /** Scaling a point down and back up by the same non-zero factor returns it. */
  lemma OverTimes(p: Point2, s: real)
    requires s != 0.0
    ensures p.Over(s).Times(s) == p
  {
    var q := p.Over(s);
    assert q.x * s == p.x;
    assert q.y * s == p.y;
  }

  lemma MulNonneg(a: real, b: real)
    requires a >= 0.0 && b >= 0.0
    ensures a * b >= 0.0
  {
  }

  /** Multiplying by a non-negative factor preserves `<=`. */
  lemma MulLe(a: real, b: real, c: real)
    requires a >= 0.0 && b <= c
    ensures a * b <= a * c
  {
    assert a * c - a * b == a * (c - b);
    MulNonneg(a, c - b);
  }
}
