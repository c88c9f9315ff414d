/** Optional values, standing for Swift's `T?`. */
module Optional {
  datatype Option<+T> = None | Some(value: T)
}

/**
 * Point arithmetic on the canvas (`CGPoint` and the operators of Helpers.swift).
 * `CGFloat` coordinates are modelled as exact reals.
 */
module Points {

  datatype Point = Point(x: real, y: real)

  const Zero := Point(0.0, 0.0)

  /** A coordinate with no fractional part. */
  predicate IsWhole(v: real) {
    v.Floor as real == v
  }

  predicate IsWholePoint(p: Point) {
    IsWhole(p.x) && IsWhole(p.y)
  }

  /** `CGFloat.rounded()`: to the nearest integer, halfway cases away from zero. */
  function Round(v: real): (n: int)
    ensures v >= 0.0 ==> n as real - 0.5 <= v < n as real + 0.5
    ensures v < 0.0 ==> n as real - 0.5 < v <= n as real + 0.5
  {
    if v >= 0.0 then (v + 0.5).Floor else -((0.5 - v).Floor)
  }

  /** Rounding commutes with negation, so it is symmetric about zero. */
  lemma RoundOdd(v: real)
    ensures Round(-v) == -Round(v)
  {
    if v > 0.0 {
      assert -v < 0.0;
    } else if v < 0.0 {
      assert -v > 0.0;
    }
  }

  /** `m` is the floor of `x` when `x` lies in `[m, m + 1)`. */
  lemma FloorUnique(x: real, m: int)
    requires m as real <= x < m as real + 1.0
    ensures x.Floor == m
  {
    var f := x.Floor;
    assert f as real <= x < f as real + 1.0;
    assert m - 1 < f < m + 1;
  }

  lemma RoundWhole(v: real)
    requires IsWhole(v)
    ensures Round(v) as real == v
  {
    var n := v.Floor;
    if v >= 0.0 {
      FloorUnique(v + 0.5, n);
    } else {
      FloorUnique(0.5 - v, -n);
    }
  }

  /** Sums, differences and negations of whole numbers are whole. */
  lemma WholeArithmetic(a: real, b: real)
    requires IsWhole(a) && IsWhole(b)
    ensures IsWhole(a + b) && IsWhole(a - b) && IsWhole(-a)
  {
    var m, n := a.Floor, b.Floor;
    FloorUnique(a + b, m + n);
    FloorUnique(a - b, m - n);
    FloorUnique(-a, -m);
  }

  lemma WholeInt(n: int)
    ensures IsWhole(n as real)
  {
    FloorUnique(n as real, n);
  }

  /** The unary minus of Helpers.swift. */
  function Neg(p: Point): (r: Point)
    ensures Add(p, r) == Zero
  {
    Point(-p.x, -p.y)
  }

  /** Componentwise addition. */
  function Add(a: Point, b: Point): (r: Point)
    ensures r.x - a.x == b.x && r.y - a.y == b.y
  {
    Point(a.x + b.x, a.y + b.y)
  }

  /** Point addition is commutative and associative, with the origin as its identity. */
  lemma AdditionLaws(a: Point, b: Point, c: Point)
    ensures Add(a, b) == Add(b, a)
    ensures Add(Add(a, b), c) == Add(a, Add(b, c))
    ensures Add(a, Zero) == a
  {
  }

  /** `CGSize`: a width and a height, as for one grid cell. */
  datatype Size = Size(width: real, height: real)

  /** The `CGPoint + CGSize` operator as written: the width is added to both coordinates. */
  function AddSizeAsWritten(p: Point, s: Size): (r: Point)
    ensures r.x - p.x == s.width && r.y - p.y == s.width
  {
    Point(p.x + s.width, p.y + s.width)
  }

  /** Adding a size as evidently intended: the width to `x` and the height to `y`. */
  function AddSize(p: Point, s: Size): (r: Point)
    ensures r.x - p.x == s.width && r.y - p.y == s.height
    ensures r == Add(p, Point(s.width, s.height))
  {
    Point(p.x + s.width, p.y + s.height)
  }

  /** The two differ for every size that is not square: the origin plus a 1 by 2 size. */
  lemma AddSizeDiscrepancy(p: Point, s: Size)
    ensures AddSizeAsWritten(p, s) == AddSize(p, s) <==> s.width == s.height
    ensures AddSizeAsWritten(Zero, Size(1.0, 2.0)) == Point(1.0, 1.0)
    ensures AddSize(Zero, Size(1.0, 2.0)) == Point(1.0, 2.0)
  {
  }

  /** Subtraction is written as `lhs + (-rhs)`; adding `b` back gives `a`. */
  function Sub(a: Point, b: Point): (r: Point)
    ensures Add(r, b) == a
  {
    Add(a, Neg(b))
  }

  /** `p.mirrored(relativeTo: ref)`: the point reflection of `p` through `ref`. */
  function Mirrored(p: Point, ref: Point): (m: Point)
    ensures Add(m, p) == Add(ref, ref)
    ensures IsWholePoint(p) && IsWholePoint(ref) ==> IsWholePoint(m)
  {
    MirroredWhole(p, ref);
    Sub(ref, Sub(p, ref))
  }

  lemma MirroredWhole(p: Point, ref: Point)
    ensures IsWholePoint(p) && IsWholePoint(ref) ==> IsWholePoint(Sub(ref, Sub(p, ref)))
  {
    if IsWholePoint(p) && IsWholePoint(ref) {
      WholeArithmetic(ref.x, p.x);
      WholeArithmetic(ref.y, p.y);
      WholeArithmetic(ref.x, ref.x - p.x);
      WholeArithmetic(ref.y, ref.y - p.y);
    }
  }

  /** `CGPoint.rounded()`: each coordinate rounded on its own. */
  function Rounded(p: Point): (r: Point)
    ensures IsWholePoint(r)
    ensures Near(r, p)
    ensures IsWholePoint(p) ==> r == p
  {
    WholeInt(Round(p.x));
    WholeInt(Round(p.y));
    RoundWholePoint(p);
    Point(Round(p.x) as real, Round(p.y) as real)
  }

  lemma RoundWholePoint(p: Point)
    ensures IsWholePoint(p) ==> Round(p.x) as real == p.x && Round(p.y) as real == p.y
  {
    if IsWholePoint(p) {
      RoundWhole(p.x);
      RoundWhole(p.y);
    }
  }

  /** Each coordinate of `a` lies within one half of that of `b`. */
  predicate Near(a: Point, b: Point) {
    -0.5 <= a.x - b.x <= 0.5 && -0.5 <= a.y - b.y <= 0.5
  }

  /** The square of `distance(to:)`; the square root itself is not modelled. */
  function DistanceSquared(a: Point, b: Point): (d: real)
    ensures d >= 0.0
  {
    (a.x - b.x) * (a.x - b.x) + (a.y - b.y) * (a.y - b.y)
  }

  /** The test `a.distance(to: b) > 1`, stated on the squared distance. */
  predicate FartherThanOne(a: Point, b: Point) {
    DistanceSquared(a, b) > 1.0
  }

  /** Any non-negative square root of the squared distance exceeds one exactly when the square does. */
  lemma DistanceTest(a: Point, b: Point, d: real)
    requires d >= 0.0 && d * d == DistanceSquared(a, b)
    ensures d > 1.0 <==> FartherThanOne(a, b)
  {
    if d > 1.0 {
      assert d * d > d * 1.0;
    } else {
      assert d * d <= d * 1.0;
    }
  }

  /** Mirroring twice through the same point gives the point back; `ref` is its own mirror image. */
  lemma MirroredInvolution(p: Point, ref: Point)
    ensures Mirrored(Mirrored(p, ref), ref) == p
    ensures Mirrored(ref, ref) == ref
  {
  }

  /** The identities that follow from defining subtraction through addition and negation. */
  lemma SubtractionLaws(a: Point, b: Point)
    ensures Add(Sub(a, b), b) == a
    ensures Sub(a, a) == Zero
    ensures Neg(Neg(a)) == a
  {
  }

  /** Rounding is idempotent. */
  lemma RoundedIdempotent(p: Point)
    ensures Rounded(Rounded(p)) == Rounded(p)
  {
  }
}
