/**
 * The curve derivation (`Drawing.path`): the element list becomes one segment per element,
 * a move to the first anchor followed by a line, quadratic or cubic segment to each later
 * anchor, chosen by which handles the neighbouring elements carry.
 */
module Paths {
  import opened Optional
  import opened Points
  import opened Elements

  /** The `Path` commands the derivation emits. */
  datatype Segment =
    | MoveTo(to: Point)
    | LineTo(to: Point)
    | QuadTo(to: Point, control: Point)
    | CurveTo(to: Point, control1: Point, control2: Point)

  /**
   * The segment the loop body of `path` emits for element `e`, where `incoming` is the
   * previous element's outgoing handle. The quadratic test reads `controlPoints?.0`, which
   * exists only when `e` has an outgoing handle: an element with a detached incoming
   * handle and no outgoing one is reached by a straight line.
   */
  function SegmentTo(incoming: Option<Point>, e: Element): (s: Segment)
    ensures !s.MoveTo? && s.to == e.point
    ensures s.CurveTo? <==> incoming.Some?
    ensures s.QuadTo? <==> incoming.None? && e.secondaryPoint.Some?
    ensures s.LineTo? <==> incoming.None? && e.secondaryPoint.None?
    ensures s.CurveTo? ==> s.control1 == incoming.value
    ensures s.CurveTo? && e.secondaryPoint.Some? ==> Some(s.control2) == e.PrimaryPoint()
    ensures s.CurveTo? && e.secondaryPoint.None? ==> s.control2 == e.point
    ensures s.QuadTo? ==> Some(s.control) == e.PrimaryPoint()
  {
    match incoming
    case Some(previous) =>
      var control2 := match e.ControlPoints() case Some(cp) => cp.0 case None => e.point;
      CurveTo(e.point, previous, control2)
    case None =>
      match e.ControlPoints()
      case Some(cp) => QuadTo(e.point, cp.0)
      case None => LineTo(e.point)
  }

  /** The segments for `rest`, where `incoming` is the outgoing handle of the element before it. */
  function Trace(incoming: Option<Point>, rest: seq<Element>): (r: seq<Segment>)
    ensures |r| == |rest|
    ensures rest != [] ==> r[0] == SegmentTo(incoming, rest[0])
    decreases |rest|
  {
    if rest == [] then []
    else [SegmentTo(incoming, rest[0])] + Trace(rest[0].secondaryPoint, rest[1..])
  }

  /** `Drawing.path` as a function of the element list. */
  function PathOf(elements: seq<Element>): (r: seq<Segment>)
    ensures |r| == |elements|
    ensures elements != [] ==> r[0] == MoveTo(elements[0].point)
  {
    if elements == [] then []
    else [MoveTo(elements[0].point)] + Trace(None, elements[1..])
  }

  /**
   * The handle pending when segment `i` is emitted: nothing for the segment after the
   * initial move (the pending handle starts out absent), else the previous element's
   * outgoing handle.
   */
  function Incoming(elements: seq<Element>, i: nat): (r: Option<Point>)
    requires 1 <= i < |elements|
    ensures r.None? <==> i == 1 || elements[i - 1].secondaryPoint.None?
    ensures r.Some? ==> r == elements[i - 1].secondaryPoint
  {
    if i == 1 then None else elements[i - 1].secondaryPoint
  }

  /** Segment `k` of a trace is decided by element `k` and the outgoing handle before it. */
  lemma {:induction false} TraceAt(incoming: Option<Point>, rest: seq<Element>, k: nat)
    requires k < |rest|
    ensures |Trace(incoming, rest)| == |rest|
    ensures Trace(incoming, rest)[k]
         == SegmentTo(if k == 0 then incoming else rest[k - 1].secondaryPoint, rest[k])
    decreases k
  {
    if k > 0 {
      TraceAt(rest[0].secondaryPoint, rest[1..], k - 1);
    }
  }

  /**
   * The shape of the path: no segments for no elements; otherwise one segment per element,
   * a move to the first anchor, and for every later element `i` the segment chosen by its
   * own handles and the pending handle, ending at its anchor.
   */
  lemma PathShape(elements: seq<Element>)
    ensures |PathOf(elements)| == |elements|
    ensures |elements| > 0 ==> PathOf(elements)[0] == MoveTo(elements[0].point)
    ensures forall i :: 1 <= i < |elements| ==>
      PathOf(elements)[i] == SegmentTo(Incoming(elements, i), elements[i])
    ensures forall i :: 0 <= i < |elements| ==> PathOf(elements)[i].to == elements[i].point
  {
    if elements != [] {
      forall i | 1 <= i < |elements|
        ensures PathOf(elements)[i] == SegmentTo(Incoming(elements, i), elements[i])
      {
        TraceAt(None, elements[1..], i - 1);
      }
    }
  }

  /**
   * The outgoing handle of the first element never reaches the path: the segment to the
   * second anchor is a line or a quadratic curve, never a cubic one.
   */
  lemma FirstHandleIgnored(elements: seq<Element>, h: Option<Point>)
    requires |elements| > 0
    ensures PathOf(elements[0 := elements[0].(secondaryPoint := h)]) == PathOf(elements)
    ensures |elements| > 1 ==> !PathOf(elements)[1].CurveTo?
  {
    var changed := elements[0 := elements[0].(secondaryPoint := h)];
    assert changed[1..] == elements[1..];
    PathShape(elements);
  }

  /**
   * An element reached with no handle pending, whose handles are still coupled, is reached
   * by a quadratic curve whose control point is its outgoing handle mirrored through its anchor.
   */
  lemma CoupledQuad(e: Element)
    requires e.explicitPrimary.None? && e.secondaryPoint.Some?
    ensures SegmentTo(None, e) == QuadTo(e.point, Mirrored(e.secondaryPoint.value, e.point))
  {
  }

  /**
   * Appending one element adds exactly one segment and leaves the earlier segments as they
   * were, which is what the live preview of a drag relies on.
   */
  lemma PathAppend(elements: seq<Element>, e: Element)
    ensures PathOf(elements + [e]) == PathOf(elements)
      + [if elements == [] then MoveTo(e.point)
         else SegmentTo(if |elements| == 1 then None else elements[|elements| - 1].secondaryPoint, e)]
  {
    if elements != [] {
      assert (elements + [e])[0] == elements[0];
      assert (elements + [e])[1..] == elements[1..] + [e];
      TraceAppend(None, elements[1..], e);
    }
  }

  lemma {:induction false} TraceAppend(incoming: Option<Point>, rest: seq<Element>, e: Element)
    ensures Trace(incoming, rest + [e]) == Trace(incoming, rest)
      + [SegmentTo(if rest == [] then incoming else rest[|rest| - 1].secondaryPoint, e)]
    decreases |rest|
  {
    if rest == [] {
      assert [] + [e] == [e];
    } else {
      var longer := rest + [e];
      assert longer[0] == rest[0] && longer[1..] == rest[1..] + [e];
      TraceAppend(rest[0].secondaryPoint, rest[1..], e);
    }
  }
}
