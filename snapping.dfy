/**
 * Grid snapping (`CGFloat.snap(to:)` and `CGPoint.snap(to:)` of Drawing.swift): a coordinate
 * is moved onto the nearest grid line only while its truncating remainder lies within one
 * fifth of a cell of a line; otherwise it is left where it is. A non-negative coordinate
 * therefore snaps only near a line, while a negative one, whose remainder is never
 * positive, always snaps.
 */
module Snapping {
  import opened Optional
  import opened Points

  /** Snapping divides by the cell size, so a grid, when present, has positive sides. */
  predicate GridValid(grid: Option<Size>) {
    grid.Some? ==> grid.value.width > 0.0 && grid.value.height > 0.0
  }

  /** `v` lies on a grid line of a grid with cell size `g`. */
  predicate OnLine(v: real, g: real)
    requires g > 0.0
  {
    IsWhole(v / g)
  }

  /** Conversion toward zero. */
  function Trunc(q: real): (n: int)
    ensures q >= 0.0 ==> n as real <= q < n as real + 1.0
    ensures q < 0.0 ==> n as real - 1.0 < q <= n as real
  {
    if q >= 0.0 then q.Floor else -((-q).Floor)
  }

  lemma ProductPositive(a: real, b: real)
    requires a > 0.0 && b > 0.0
    ensures a * b > 0.0
  {
  }

  /** Multiplying by a positive `g` keeps the order. */
  lemma MulMonotone(a: real, b: real, g: real)
    requires g > 0.0
    ensures a < b ==> a * g < b * g
    ensures a <= b ==> a * g <= b * g
  {
    if a < b {
      ProductPositive(b - a, g);
      assert (b - a) * g == b * g - a * g;
    }
  }

  /** `t * g` stays within `[lo * g, hi * g]` when `t` stays within `[lo, hi]`. */
  lemma Scale(t: real, lo: real, hi: real, g: real)
    requires g > 0.0 && lo <= t <= hi
    ensures lo * g <= t * g <= hi * g
    ensures t < hi ==> t * g < hi * g
    ensures lo < t ==> lo * g < t * g
  {
    MulMonotone(lo, t, g);
    MulMonotone(t, hi, g);
  }

  lemma DivMul(k: real, g: real)
    requires g > 0.0
    ensures (k * g) / g == k
  {
  }

  /**
   * `v.truncatingRemainder(dividingBy: g)`: the remainder of the division rounded toward zero.
   * It keeps the sign of `v` and differs from `v` by a whole number of cells.
   */
  function TruncatingRemainder(v: real, g: real): (m: real)
    requires g > 0.0
    ensures v >= 0.0 ==> 0.0 <= m < g
    ensures v < 0.0 ==> -g < m <= 0.0
    ensures OnLine(v - m, g)
  {
    var n := Trunc(v / g);
    RemainderBounds(v, g, n, v - n as real * g);
    v - n as real * g
  }

  lemma RemainderBounds(v: real, g: real, n: int, m: real)
    requires g > 0.0 && n == Trunc(v / g) && m == v - n as real * g
    ensures v >= 0.0 ==> 0.0 <= m < g
    ensures v < 0.0 ==> -g < m <= 0.0
    ensures OnLine(v - m, g)
  {
    QuotientSign(v, g);
    RemainderIsFraction(v, g, v / g, n, m);
    var x := n as real * g;
    assert v - m == x;
    MultipleOnLine(n, g);
  }

  /** Dividing by a positive cell size keeps the sign. */
  lemma QuotientSign(v: real, g: real)
    requires g > 0.0
    ensures v >= 0.0 <==> v / g >= 0.0
  {
    var q := v / g;
    QuotientTimes(v, g);
    if q < 0.0 {
      ProductPositive(-q, g);
      assert (-q) * g == -(q * g);
    } else if q > 0.0 {
      ProductPositive(q, g);
    }
  }

  /** The remainder is the fractional part of the quotient, scaled back by the cell size. */
  lemma RemainderIsFraction(v: real, g: real, q: real, n: int, m: real)
    requires g > 0.0 && q == v / g && m == v - n as real * g
    ensures n as real <= q < n as real + 1.0 ==> 0.0 <= m < g
    ensures n as real - 1.0 < q <= n as real ==> -g < m <= 0.0
  {
    QuotientTimes(v, g);
    var t := q - n as real;
    assert m == t * g;
    if 0.0 <= t < 1.0 {
      FractionOfCell(t, g, m);
    }
    if -1.0 < t <= 0.0 {
      NegativeFractionOfCell(t, g, m);
    }
  }

  /** A whole number of cells lies on a grid line. */
  lemma MultipleOnLine(k: int, g: real)
    requires g > 0.0
    ensures OnLine(k as real * g, g)
  {
    DivMul(k as real, g);
    WholeInt(k);
  }

  lemma QuotientTimes(v: real, g: real)
    requires g > 0.0
    ensures v == (v / g) * g
  {
  }

  /** A fraction `t` in `[0, 1)` of a cell is shorter than the cell. */
  lemma FractionOfCell(t: real, g: real, p: real)
    requires g > 0.0 && 0.0 <= t < 1.0 && p == t * g
    ensures 0.0 <= p < g
  {
    MulMonotone(0.0, t, g);
    MulMonotone(t, 1.0, g);
  }

  /** A fraction `t` in `(-1, 0]` of a cell is shorter than the cell. */
  lemma NegativeFractionOfCell(t: real, g: real, p: real)
    requires g > 0.0 && -1.0 < t <= 0.0 && p == t * g
    ensures -g < p <= 0.0
  {
    MulMonotone(-1.0, t, g);
    MulMonotone(t, 0.0, g);
    assert -1.0 * g == -g;
  }

  /** The grid test of `snap(to:)`: the remainder is within a fifth of a cell of a line. */
  predicate WithinThreshold(v: real, g: real)
    requires g > 0.0
    ensures v < 0.0 ==> WithinThreshold(v, g)
  {
    var threshold := g / 5.0;
    var modulo := TruncatingRemainder(v, g);
    modulo < threshold || g - modulo < threshold
  }

  /**
   * `CGFloat.snap(to:)`: the coordinate either stays where it is or lands on a grid line,
   * and it never moves by more than half a cell.
   */
  function SnapAxis(v: real, g: real): (r: real)
    requires g > 0.0
    ensures r == v || OnLine(r, g)
    ensures -g / 2.0 <= r - v <= g / 2.0
  {
    NearestLine(v, g);
    if WithinThreshold(v, g) then Round(v / g) as real * g else v
  }

  /** The nearest grid line lies on the grid, within half a cell. */
  lemma NearestLine(v: real, g: real)
    requires g > 0.0
    ensures OnLine(Round(v / g) as real * g, g)
    ensures -g / 2.0 <= Round(v / g) as real * g - v <= g / 2.0
  {
    var k := Round(v / g);
    var x := k as real * g;
    MultipleOnLine(k, g);
    assert OnLine(x, g);
    var t := k as real - v / g;
    var tg := t * g;
    HalfCell(t, g);
    assert -g / 2.0 <= tg <= g / 2.0;
    QuotientTimes(v, g);
    assert x - v == tg;
    assert x == Round(v / g) as real * g;
  }

  /** A fraction `t` in `[-1/2, 1/2]` of a cell is at most half a cell long. */
  lemma HalfCell(t: real, g: real)
    requires g > 0.0 && -0.5 <= t <= 0.5
    ensures -g / 2.0 <= t * g <= g / 2.0
  {
    MulMonotone(-0.5, t, g);
    MulMonotone(t, 0.5, g);
  }

  /** A coordinate on a grid line is left where it is. */
  lemma SnapOnLine(v: real, g: real)
    requires g > 0.0 && OnLine(v, g)
    ensures WithinThreshold(v, g)
    ensures SnapAxis(v, g) == v
  {
    var k := v / g;
    QuotientTimes(v, g);
    WholeArithmetic(k, k);
    assert Trunc(k) as real == k;
    assert TruncatingRemainder(v, g) == v - k * g == 0.0;
    RoundWhole(k);
    assert SnapAxis(v, g) == k * g;
  }

  /** Snapping twice is snapping once. */
  lemma {:induction false} SnapAxisIdempotent(v: real, g: real)
    requires g > 0.0
    ensures SnapAxis(SnapAxis(v, g), g) == SnapAxis(v, g)
  {
    var r := SnapAxis(v, g);
    if r != v {
      SnapOnLine(r, g);
    }
  }

  /**
   * For a non-negative coordinate, with `below` the grid line at or below it: a coordinate
   * closer than a fifth of a cell to `below` or to `below + g` is moved onto that line, and
   * any other stays put.
   */
  lemma SnapNonNegative(v: real, g: real)
    requires g > 0.0 && v >= 0.0
    ensures var below := (v / g).Floor as real * g;
      && (v - below < g / 5.0 ==> SnapAxis(v, g) == below)
      && (below + g - v < g / 5.0 ==> SnapAxis(v, g) == below + g)
      && (g / 5.0 <= v - below && g / 5.0 <= below + g - v ==> SnapAxis(v, g) == v)
  {
    var below := (v / g).Floor as real * g;
    NonNegativeRemainder(v, g);
    if v - below < g / 5.0 {
      SnapDown(v, g);
    }
    if below + g - v < g / 5.0 {
      SnapUp(v, g);
    }
  }

  /** For a non-negative coordinate the truncating remainder is its distance above the grid line below it. */
  lemma NonNegativeRemainder(v: real, g: real)
    requires g > 0.0 && v >= 0.0
    ensures TruncatingRemainder(v, g) == v - (v / g).Floor as real * g
  {
    var q := v / g;
    assert q >= 0.0 by {
      QuotientSign(v, g);
    }
    assert Trunc(q) == q.Floor;
  }

  lemma SnapDown(v: real, g: real)
    requires g > 0.0 && v >= 0.0
    requires v - (v / g).Floor as real * g < g / 5.0
    ensures SnapAxis(v, g) == (v / g).Floor as real * g
  {
    var q := v / g;
    var f := q.Floor;
    var below := f as real * g;
    NonNegativeRemainder(v, g);
    assert v == q * g;
    assert v - below == (q - f as real) * g;
    SmallFraction(q - f as real, g, v - below);
    QuotientSign(v, g);
    FloorUnique(q + 0.5, f);
    assert Round(q) == f;
    assert WithinThreshold(v, g);
  }

  lemma SnapUp(v: real, g: real)
    requires g > 0.0 && v >= 0.0
    requires (v / g).Floor as real * g + g - v < g / 5.0
    ensures SnapAxis(v, g) == (v / g).Floor as real * g + g
  {
    var q := v / g;
    var f := q.Floor;
    var below := f as real * g;
    NonNegativeRemainder(v, g);
    assert v == q * g;
    assert below + g - v == (f as real + 1.0 - q) * g;
    SmallFraction(f as real + 1.0 - q, g, below + g - v);
    FloorUnique(q + 0.5, f + 1);
    assert (f + 1) as real * g == below + g;
  }

  /** A fraction of a cell shorter than a fifth of the cell is less than `0.2`. */
  lemma SmallFraction(t: real, g: real, d: real)
    requires g > 0.0 && d == t * g && d < g / 5.0
    ensures t < 0.2
  {
    MulMonotone(0.2, t, g);
  }

  /**
   * The remainder of a negative coordinate is never positive, so it is always below the
   * threshold: a negative coordinate always moves to its nearest grid line.
   */
  lemma SnapNegative(v: real, g: real)
    requires g > 0.0 && v < 0.0
    ensures SnapAxis(v, g) == Round(v / g) as real * g
    ensures !OnLine(v, g) ==> SnapAxis(v, g) != v
  {
    var k := Round(v / g);
    var r := k as real * g;
    assert TruncatingRemainder(v, g) <= 0.0 < g / 5.0;
    assert SnapAxis(v, g) == r;
    MultipleOnLine(k, g);
    assert OnLine(r, g);
    assert r == v ==> OnLine(v, g);
  }

  /** With the default fifty-unit grid: 35 stays, 48 goes to 50, 4 goes to 0, and -35 goes to -50. */
  lemma SnapExamples()
    ensures SnapAxis(35.0, 50.0) == 35.0
    ensures SnapAxis(48.0, 50.0) == 50.0
    ensures SnapAxis(4.0, 50.0) == 0.0
    ensures SnapAxis(-35.0, 50.0) == -50.0
  {
    SnapNonNegative(35.0, 50.0);
    SnapNonNegative(48.0, 50.0);
    SnapNonNegative(4.0, 50.0);
    SnapNegative(-35.0, 50.0);
  }

  /** `CGPoint.snap(to:)`: each axis against its own cell side. */
  function SnapPoint(p: Point, g: Size): (r: Point)
    requires g.width > 0.0 && g.height > 0.0
    ensures r.x == p.x || OnLine(r.x, g.width)
    ensures r.y == p.y || OnLine(r.y, g.height)
    ensures -g.width / 2.0 <= r.x - p.x <= g.width / 2.0
    ensures -g.height / 2.0 <= r.y - p.y <= g.height / 2.0
  {
    Point(SnapAxis(p.x, g.width), SnapAxis(p.y, g.height))
  }

  /** `if let grid = grid { p.snap(to: grid) }`: no grid means no snapping. */
  function Snapped(p: Point, grid: Option<Size>): (r: Point)
    requires GridValid(grid)
    ensures grid.None? ==> r == p
    ensures grid.Some? ==>
      && (r.x == p.x || OnLine(r.x, grid.value.width))
      && (r.y == p.y || OnLine(r.y, grid.value.height))
  {
    match grid
    case None => p
    case Some(g) => SnapPoint(p, g)
  }

  lemma {:induction false} SnappedIdempotent(p: Point, grid: Option<Size>)
    requires GridValid(grid)
    ensures Snapped(Snapped(p, grid), grid) == Snapped(p, grid)
  {
    if grid.Some? {
      SnapAxisIdempotent(p.x, grid.value.width);
      SnapAxisIdempotent(p.y, grid.value.height);
    }
  }
}
