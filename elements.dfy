/**
 * One anchor of the path (`Drawing.Element`). The Swift struct is a value, and its
 * `mutating func`s replace it by a new value, so here each mutator is a function from the
 * old element to the new one. Every stored coordinate goes through the rounding `didSet`
 * observer, modelled by `SetPrimary`, `SetSecondary` and the rounding in the constructors.
 */
module Elements {
  import opened Optional
  import opened Points
  import opened Snapping

  /** Stands for the `UUID` an element receives when it is created. */
  type Id = nat

  function RoundedOpt(o: Option<Point>): (r: Option<Point>)
    ensures r.Some? == o.Some?
    ensures r.Some? ==> r.value == Rounded(o.value)
  {
    match o
    case None => None
    case Some(p) => Some(Rounded(p))
  }

  /** A stored handle shifted by `delta` and rounded again; an absent handle stays absent. */
  function ShiftedOpt(o: Option<Point>, delta: Point): (r: Option<Point>)
    ensures r.Some? == o.Some?
    ensures r.Some? ==> r.value == Rounded(Add(o.value, delta))
  {
    match o
    case None => None
    case Some(p) => Some(Rounded(Add(p, delta)))
  }

  predicate WholeOpt(o: Option<Point>) {
    o.Some? ==> IsWholePoint(o.value)
  }

  /**
   * `point` is the anchor, `secondaryPoint` the outgoing handle, and `explicitPrimary` the
   * private `_primaryPoint`: an incoming handle that has been detached from its mirror.
   */
  datatype Element = Element(id: Id, point: Point, explicitPrimary: Option<Point>, secondaryPoint: Option<Point>)
  {
    /** Every stored coordinate is a whole number, as the rounding observers guarantee. */
    predicate Aligned() {
      IsWholePoint(point) && WholeOpt(explicitPrimary) && WholeOpt(secondaryPoint)
    }

    /**
     * `primaryPoint`: the detached incoming handle when there is one, else the mirror image
     * of the outgoing handle through the anchor, else nothing.
     */
    function PrimaryPoint(): (r: Option<Point>)
      ensures r.Some? <==> explicitPrimary.Some? || secondaryPoint.Some?
      ensures explicitPrimary.Some? ==> r == explicitPrimary
      ensures explicitPrimary.None? && secondaryPoint.Some? ==>
        Add(r.value, secondaryPoint.value) == Add(point, point)
      ensures Aligned() && r.Some? ==> IsWholePoint(r.value)
    {
      if explicitPrimary.Some? then explicitPrimary
      else if secondaryPoint.Some? then Some(Mirrored(secondaryPoint.value, point))
      else None
    }

    /** `controlPoints`: both handles, present exactly when the outgoing handle is. */
    function ControlPoints(): (r: Option<(Point, Point)>)
      ensures r.Some? <==> secondaryPoint.Some?
      ensures r.Some? ==> Some(r.value.0) == PrimaryPoint() && r.value.1 == secondaryPoint.value
    {
      match (PrimaryPoint(), secondaryPoint)
      case (Some(primary), Some(secondary)) => Some((primary, secondary))
      case _ => None
    }

    /** `_primaryPoint = o` through its rounding observer. */
    function SetPrimary(o: Option<Point>): (r: Element)
      ensures r.explicitPrimary == RoundedOpt(o) && WholeOpt(r.explicitPrimary)
      ensures r.id == id && r.point == point && r.secondaryPoint == secondaryPoint
    {
      this.(explicitPrimary := RoundedOpt(o))
    }

    /** `secondaryPoint = o` through its rounding observer. */
    function SetSecondary(o: Option<Point>): (r: Element)
      ensures r.secondaryPoint == RoundedOpt(o) && WholeOpt(r.secondaryPoint)
      ensures r.id == id && r.point == point && r.explicitPrimary == explicitPrimary
    {
      this.(secondaryPoint := RoundedOpt(o))
    }

    /**
     * `move(to:grid:)`: the anchor goes to the rounded snapped target, and every stored
     * handle is shifted by the same (unrounded) displacement of the anchor and rounded.
     */
    function MoveTo(to: Point, grid: Option<Size>): (r: Element)
      requires GridValid(grid)
      ensures r.id == id && r.Aligned()
      ensures r.point == Rounded(Snapped(to, grid))
      ensures r.explicitPrimary.Some? == explicitPrimary.Some?
      ensures r.secondaryPoint.Some? == secondaryPoint.Some?
      ensures r.explicitPrimary.Some? ==>
        r.explicitPrimary.value == Rounded(Add(explicitPrimary.value, Sub(Snapped(to, grid), point)))
      ensures r.secondaryPoint.Some? ==>
        r.secondaryPoint.value == Rounded(Add(secondaryPoint.value, Sub(Snapped(to, grid), point)))
    {
      var dest := Snapped(to, grid);
      var delta := Sub(dest, point);
      Element(id, Rounded(dest), ShiftedOpt(explicitPrimary, delta), ShiftedOpt(secondaryPoint, delta))
    }

    /** `move(by:grid:)`: `move(to: point + delta, grid:)`. */
    function MoveBy(delta: Point, grid: Option<Size>): (r: Element)
      requires GridValid(grid)
      ensures r.id == id && r.Aligned()
      ensures r.point == Rounded(Snapped(Add(point, delta), grid))
      ensures r.explicitPrimary.Some? == explicitPrimary.Some?
      ensures r.secondaryPoint.Some? == secondaryPoint.Some?
      ensures r.explicitPrimary.Some? ==>
        r.explicitPrimary.value == Rounded(Add(explicitPrimary.value, Sub(Snapped(Add(point, delta), grid), point)))
      ensures r.secondaryPoint.Some? ==>
        r.secondaryPoint.value == Rounded(Add(secondaryPoint.value, Sub(Snapped(Add(point, delta), grid), point)))
    {
      MoveTo(Add(point, delta), grid)
    }

    /**
     * `moveControlPoint1(to:grid:modifier:)`: drags the incoming handle. With the modifier,
     * or once the handle is detached, the detached handle is set; otherwise the outgoing
     * handle is moved to the mirror image of the target, so the derived incoming handle
     * follows the pointer.
     */
    function MoveControlPoint1(to: Point, grid: Option<Size>, modifier: bool): (r: Element)
      requires GridValid(grid)
      ensures r.id == id && r.point == point
      ensures Aligned() ==> r.Aligned()
      ensures modifier || explicitPrimary.Some? ==>
        && r.explicitPrimary == Some(Rounded(Snapped(to, grid)))
        && r.secondaryPoint == secondaryPoint
        && r.PrimaryPoint() == Some(Rounded(Snapped(to, grid)))
      ensures !modifier && explicitPrimary.None? ==>
        && r.explicitPrimary.None?
        && r.secondaryPoint == Some(Rounded(Mirrored(Snapped(to, grid), point)))
        && (IsWholePoint(point) ==> Near(r.PrimaryPoint().value, Snapped(to, grid)))
        && (IsWholePoint(point) && IsWholePoint(Snapped(to, grid)) ==>
              r.PrimaryPoint() == Some(Snapped(to, grid)))
    {
      var dest := Snapped(to, grid);
      if modifier || explicitPrimary.Some? then SetPrimary(Some(dest))
      else
        MirrorFollows(dest, point);
        SetSecondary(Some(Mirrored(dest, point)))
    }

    /**
     * `moveControlPoint2(to:grid:modifier:)`: drags the outgoing handle. With the modifier
     * on a still coupled element, the current incoming handle is first frozen as the
     * detached one, so it stays where it was.
     */
    function MoveControlPoint2(to: Point, grid: Option<Size>, modifier: bool): (r: Element)
      requires GridValid(grid)
      ensures r.id == id && r.point == point
      ensures Aligned() ==> r.Aligned()
      ensures r.secondaryPoint == Some(Rounded(Snapped(to, grid)))
      ensures !modifier || explicitPrimary.Some? ==> r.explicitPrimary == explicitPrimary
      ensures modifier && explicitPrimary.None? ==> r.explicitPrimary == RoundedOpt(PrimaryPoint())
      ensures modifier && PrimaryPoint().None? ==>
        r.PrimaryPoint() == Some(Mirrored(Rounded(Snapped(to, grid)), point))
      ensures Aligned() && modifier && PrimaryPoint().Some? ==> r.PrimaryPoint() == PrimaryPoint()
      ensures !modifier && explicitPrimary.None? ==>
        r.PrimaryPoint() == Some(Mirrored(Rounded(Snapped(to, grid)), point))
    {
      var dest := Snapped(to, grid);
      var frozen := if modifier && explicitPrimary.None? then SetPrimary(PrimaryPoint()) else this;
      frozen.SetSecondary(Some(dest))
    }

    /** `resetControlPoints()`: back to a plain corner with no handles. */
    function ResetControlPoints(): (r: Element)
      ensures r.id == id && r.point == point
      ensures r.explicitPrimary.None? && r.secondaryPoint.None?
      ensures r.PrimaryPoint().None? && r.ControlPoints().None?
      ensures Aligned() ==> r.Aligned()
    {
      SetPrimary(None).SetSecondary(None)
    }

    /**
     * `setCoupledControlPoints(to:)`: re-couples the handles at the rounded target, which is
     * not snapped; the incoming handle is again its mirror image.
     */
    function SetCoupledControlPoints(to: Point): (r: Element)
      ensures r.id == id && r.point == point
      ensures r.explicitPrimary.None? && r.secondaryPoint == Some(Rounded(to))
      ensures r.PrimaryPoint() == Some(Mirrored(Rounded(to), point))
      ensures Aligned() ==> r.Aligned()
    {
      SetPrimary(None).SetSecondary(Some(to))
    }
  }

  /**
   * When the outgoing handle is set to the rounded mirror image of `dest`, the derived
   * incoming handle lands within half a unit of `dest`, and exactly on it when `dest` is whole.
   */
  lemma MirrorFollows(dest: Point, anchor: Point)
    ensures Near(Mirrored(Rounded(Mirrored(dest, anchor)), anchor), dest)
    ensures IsWholePoint(dest) && IsWholePoint(anchor) ==>
      Mirrored(Rounded(Mirrored(dest, anchor)), anchor) == dest
  {
    var m := Mirrored(dest, anchor);
    var r := Rounded(m);
    var back := Mirrored(r, anchor);
    assert Near(r, m);
    assert back.x - dest.x == m.x - r.x;
    assert back.y - dest.y == m.y - r.y;
    if IsWholePoint(dest) && IsWholePoint(anchor) {
      assert r == m;
      MirroredInvolution(dest, anchor);
    }
  }

  /** `Element(point:secondaryPoint:)`: a fresh element whose coordinates are rounded. */
  function NewElement(id: Id, point: Point, secondaryPoint: Option<Point>): (e: Element)
    ensures e.Aligned() && e.id == id && e.explicitPrimary.None?
    ensures e.point == Rounded(point) && e.secondaryPoint == RoundedOpt(secondaryPoint)
  {
    Element(id, Rounded(point), None, RoundedOpt(secondaryPoint))
  }

  /** The same element carried rigidly by `delta`: anchor and every stored handle. */
  function Translated(e: Element, delta: Point): Element {
    var shift := (o: Option<Point>) => match o case None => None case Some(p) => Some(Add(p, delta));
    Element(e.id, Add(e.point, delta), shift(e.explicitPrimary), shift(e.secondaryPoint))
  }

  /**
   * With no grid and a whole displacement, `move(by:)` on an aligned element is an exact
   * rigid translation of the anchor and both stored handles.
   */
  lemma MoveByTranslates(e: Element, delta: Point)
    requires e.Aligned() && IsWholePoint(delta)
    ensures e.MoveBy(delta, None) == Translated(e, delta)
  {
    var dest := Add(e.point, delta);
    WholeArithmetic(e.point.x, delta.x);
    WholeArithmetic(e.point.y, delta.y);
    assert Sub(dest, e.point) == delta;
    if e.explicitPrimary.Some? {
      WholeArithmetic(e.explicitPrimary.value.x, delta.x);
      WholeArithmetic(e.explicitPrimary.value.y, delta.y);
    }
    if e.secondaryPoint.Some? {
      WholeArithmetic(e.secondaryPoint.value.x, delta.x);
      WholeArithmetic(e.secondaryPoint.value.y, delta.y);
    }
  }

  /** Each coordinate of `a - b` lies within one unit of that of `c`. */
  predicate WithinOne(a: Point, b: Point, c: Point) {
    -1.0 <= a.x - b.x - c.x <= 1.0 && -1.0 <= a.y - b.y - c.y <= 1.0
  }

  /**
   * For any target and grid, `move(to:)` keeps each stored handle's offset from the anchor
   * up to rounding: every coordinate of the offset changes by at most one unit.
   */
  lemma MoveToRigid(e: Element, to: Point, grid: Option<Size>)
    requires GridValid(grid) && e.Aligned()
    ensures var r := e.MoveTo(to, grid);
      && (e.explicitPrimary.Some? ==>
            WithinOne(r.explicitPrimary.value, r.point, Sub(e.explicitPrimary.value, e.point)))
      && (e.secondaryPoint.Some? ==>
            WithinOne(r.secondaryPoint.value, r.point, Sub(e.secondaryPoint.value, e.point)))
  {
    var dest := Snapped(to, grid);
    var r := e.MoveTo(to, grid);
    assert Near(r.point, dest);
  }

  /** Dragging the incoming handle twice to the same place is the same as dragging it once. */
  lemma {:induction false} MoveControlPoint1Idempotent(e: Element, to: Point, grid: Option<Size>, modifier: bool)
    requires GridValid(grid)
    ensures e.MoveControlPoint1(to, grid, modifier).MoveControlPoint1(to, grid, modifier)
         == e.MoveControlPoint1(to, grid, modifier)
  {
    var once := e.MoveControlPoint1(to, grid, modifier);
    var dest := Snapped(to, grid);
    RoundedIdempotent(dest);
    if modifier || e.explicitPrimary.Some? {
      assert once.explicitPrimary.Some?;
    }
  }

  /** Once the handles are reset, no earlier handle drag leaves a trace. */
  lemma ResetForgetsHandles(e: Element, to: Point, grid: Option<Size>, modifier: bool)
    requires GridValid(grid)
    ensures e.MoveControlPoint1(to, grid, modifier).ResetControlPoints() == e.ResetControlPoints()
    ensures e.MoveControlPoint2(to, grid, modifier).ResetControlPoints() == e.ResetControlPoints()
    ensures e.SetCoupledControlPoints(to).ResetControlPoints() == e.ResetControlPoints()
  {
  }
}
