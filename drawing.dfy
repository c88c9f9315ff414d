/**
 * The editor state (`Drawing`): the ordered element list, the selection and the optional
 * grid, and the operations the canvas and the keyboard call on it. The Swift struct is
 * mutated in place through its `mutating func`s, so it is a class here whose methods
 * change its fields; the list-level computations they perform are functions over
 * element sequences, defined first.
 */
module Drawings {
  import opened Optional
  import opened Points
  import opened Snapping
  import opened Elements
  import opened Paths

  /** `MoveCommandDirection`, the four arrow keys. */
  datatype Direction = Up | Down | Left | Right

  /** No two elements of the list share an id, as fresh `UUID`s guarantee. */
  predicate UniqueIds(es: seq<Element>) {
    forall i, j :: 0 <= i < |es| && 0 <= j < |es| && i != j ==> es[i].id != es[j].id
  }

  function IdsOf(es: seq<Element>): set<Id> {
    set i | 0 <= i < |es| :: es[i].id
  }

  predicate AllAligned(es: seq<Element>) {
    forall i :: 0 <= i < |es| ==> es[i].Aligned()
  }

  /** `elements.firstIndex(where: { $0.id == id })`: the position of the first element with `id`. */
  function FirstIndex(es: seq<Element>, id: Id): (r: Option<nat>)
    ensures r.Some? ==> r.value < |es| && es[r.value].id == id
    ensures r.Some? ==> forall j :: 0 <= j < r.value ==> es[j].id != id
    ensures r.None? <==> id !in IdsOf(es)
  {
    if es == [] then None
    else if es[0].id == id then Some(0)
    else
      match FirstIndex(es[1..], id)
      case None =>
        assert IdsOf(es) == {es[0].id} + IdsOf(es[1..]) by {
          forall x | x in IdsOf(es) ensures x in {es[0].id} + IdsOf(es[1..]) {
            var i :| 0 <= i < |es| && es[i].id == x;
            if i > 0 {
              assert es[1..][i - 1] == es[i];
            }
          }
        }
        None
      case Some(k) =>
        assert es[1..][k] == es[k + 1];
        Some(k + 1)
  }

  /**
   * The list after every element whose id is in `sel` has been moved by `delta`: the
   * elements keep their order and their ids, unselected elements stay as they are, and each
   * selected one has its anchor at the rounded snapped target.
   */
  function MovedSelected(es: seq<Element>, sel: set<Id>, delta: Point, grid: Option<Size>): (r: seq<Element>)
    requires GridValid(grid)
    ensures |r| == |es|
    ensures forall i :: 0 <= i < |es| ==> r[i].id == es[i].id
    ensures forall i :: 0 <= i < |es| && es[i].id !in sel ==> r[i] == es[i]
    ensures forall i :: 0 <= i < |es| && es[i].id in sel ==>
      r[i].Aligned() && r[i].point == Rounded(Snapped(Add(es[i].point, delta), grid))
    ensures forall i :: 0 <= i < |es| && es[i].id in sel ==> r[i] == es[i].MoveBy(delta, grid)
    ensures IdsOf(r) == IdsOf(es)
    ensures UniqueIds(es) ==> UniqueIds(r)
    ensures AllAligned(es) ==> AllAligned(r)
  {
    var r := seq(|es|, i requires 0 <= i < |es| =>
      if es[i].id in sel then es[i].MoveBy(delta, grid) else es[i]);
    assert forall i :: 0 <= i < |es| ==> r[i].id == es[i].id;
    assert IdsOf(r) == IdsOf(es) by {
      forall x | x in IdsOf(es) ensures x in IdsOf(r) {
        var i :| 0 <= i < |es| && es[i].id == x;
        assert r[i].id == x;
      }
    }
    r
  }

  /**
   * Moving one more selected element, found by its id as the id subscript finds it, extends
   * the set of moved ids by that id.
   */
  lemma MovedSelectedStep(es: seq<Element>, done: set<Id>, delta: Point, grid: Option<Size>, id: Id)
    requires GridValid(grid) && UniqueIds(es) && id in IdsOf(es) && id !in done
    ensures var current := MovedSelected(es, done, delta, grid);
      && FirstIndex(current, id).Some?
      && var idx := FirstIndex(current, id).value;
         current[idx := current[idx].MoveBy(delta, grid)] == MovedSelected(es, done + {id}, delta, grid)
  {
    var current := MovedSelected(es, done, delta, grid);
    var idx := FirstIndex(current, id).value;
    assert current[idx] == es[idx];
    var before := current[idx := current[idx].MoveBy(delta, grid)];
    var after := MovedSelected(es, done + {id}, delta, grid);
    forall i | 0 <= i < |es| ensures before[i] == after[i] {
      if i != idx {
        assert es[i].id != es[idx].id;
      }
    }
  }

  /** The element a group drag is anchored on lands at the rounded snapped target. */
  lemma FocusLands(es: seq<Element>, sel: set<Id>, k: nat, to: Point, grid: Option<Size>)
    requires GridValid(grid) && k < |es| && es[k].id in sel
    ensures MovedSelected(es, sel, Sub(to, es[k].point), grid)[k].point == Rounded(Snapped(to, grid))
  {
    assert Add(es[k].point, Sub(to, es[k].point)) == to;
  }

  /**
   * `elements.indices.filter { selection.contains(elements[$0].id) }`, from position `from` on:
   * exactly the positions of selected elements, in increasing order.
   */
  function SelectedIndicesFrom(es: seq<Element>, sel: set<Id>, from: nat): (r: seq<nat>)
    requires from <= |es|
    ensures forall i: nat :: i in r <==> from <= i < |es| && es[i].id in sel
    ensures forall k, l :: 0 <= k < l < |r| ==> r[k] < r[l]
    decreases |es| - from
  {
    if from == |es| then []
    else if es[from].id in sel then
      var rest := SelectedIndicesFrom(es, sel, from + 1);
      assert forall k :: 0 <= k < |rest| ==> rest[k] in rest;
      [from] + rest
    else SelectedIndicesFrom(es, sel, from + 1)
  }

  function SelectedIndices(es: seq<Element>, sel: set<Id>): (r: seq<nat>)
    ensures forall i: nat :: i in r <==> i < |es| && es[i].id in sel
    ensures forall k, l :: 0 <= k < l < |r| ==> r[k] < r[l]
  {
    SelectedIndicesFrom(es, sel, 0)
  }

  /**
   * `elements.removeAll { selection.contains($0.id) }`: the unselected elements, in their
   * order; ids stay unique and coordinates whole.
   */
  function Without(es: seq<Element>, sel: set<Id>): (r: seq<Element>)
    ensures forall e :: e in r <==> e in es && e.id !in sel
    ensures |r| <= |es|
    decreases |es|
  {
    if es == [] then []
    else if es[0].id in sel then Without(es[1..], sel)
    else [es[0]] + Without(es[1..], sel)
  }

  /** Removal keeps the ids of what remains unique and its coordinates whole, and removes exactly the selected ids. */
  lemma {:induction false} WithoutKeepsInvariants(es: seq<Element>, sel: set<Id>)
    ensures IdsOf(Without(es, sel)) == IdsOf(es) - sel
    ensures UniqueIds(es) ==> UniqueIds(Without(es, sel))
    ensures AllAligned(es) ==> AllAligned(Without(es, sel))
    decreases |es|
  {
    var r := Without(es, sel);
    if es != [] {
      var rest := Without(es[1..], sel);
      WithoutKeepsInvariants(es[1..], sel);
      IdsOfCons(es);
      UniqueCons(es, rest);
      if es[0].id !in sel {
        IdsOfCons([es[0]] + rest);
        assert ([es[0]] + rest)[1..] == rest;
      }
    }
    if AllAligned(es) {
      forall i | 0 <= i < |r| ensures r[i].Aligned() {
        assert r[i] in es;
      }
    }
  }

  lemma IdsOfCons(es: seq<Element>)
    requires es != []
    ensures IdsOf(es) == {es[0].id} + IdsOf(es[1..])
  {
    forall x | x in IdsOf(es) ensures x in {es[0].id} + IdsOf(es[1..]) {
      var i :| 0 <= i < |es| && es[i].id == x;
      if i > 0 {
        assert es[1..][i - 1] == es[i];
      }
    }
    forall x | x in IdsOf(es[1..]) ensures x in IdsOf(es) {
      var i :| 0 <= i < |es[1..]| && es[1..][i].id == x;
      assert es[i + 1].id == x;
    }
  }

  /** Putting the head of a list with unique ids in front of ids drawn from its tail keeps them unique. */
  lemma UniqueCons(es: seq<Element>, rest: seq<Element>)
    requires es != [] && IdsOf(rest) <= IdsOf(es[1..])
    ensures UniqueIds(es) ==> UniqueIds(es[1..])
    ensures UniqueIds(es) && UniqueIds(rest) ==> UniqueIds([es[0]] + rest)
  {
    if UniqueIds(es) {
      var tail := es[1..];
      forall i, j | 0 <= i < |tail| && 0 <= j < |tail| && i != j ensures tail[i].id != tail[j].id {
        assert tail[i] == es[i + 1] && tail[j] == es[j + 1];
      }
      forall i | 0 <= i < |tail| ensures tail[i].id != es[0].id {
        assert tail[i] == es[i + 1];
      }
      assert es[0].id !in IdsOf(tail);
      if UniqueIds(rest) {
        var r := [es[0]] + rest;
        forall i, j | 0 <= i < |r| && 0 <= j < |r| && i != j ensures r[i].id != r[j].id {
          if i > 0 && j > 0 {
            assert r[i] == rest[i - 1] && r[j] == rest[j - 1];
          } else if i == 0 {
            assert r[j] == rest[j - 1];
            assert r[j].id in IdsOf(rest);
          } else {
            assert r[i] == rest[i - 1];
            assert r[i].id in IdsOf(rest);
          }
        }
      }
    }
  }

  /** Removal is applied element by element, so it keeps the order of what remains. */
  lemma {:induction false} WithoutAppend(a: seq<Element>, b: seq<Element>, sel: set<Id>)
    ensures Without(a + b, sel) == Without(a, sel) + Without(b, sel)
    decreases |a|
  {
    if a == [] {
      assert a + b == b;
    } else {
      var ab := a + b;
      assert ab[0] == a[0] && ab[1..] == a[1..] + b;
      WithoutAppend(a[1..], b, sel);
      if a[0].id !in sel {
        calc {
          Without(ab, sel);
          [a[0]] + Without(a[1..] + b, sel);
          [a[0]] + (Without(a[1..], sel) + Without(b, sel));
          ([a[0]] + Without(a[1..], sel)) + Without(b, sel);
        }
      }
    }
  }

  /** With nothing of the list selected, removal leaves it as it is. */
  lemma {:induction false} WithoutNothing(es: seq<Element>, sel: set<Id>)
    requires IdsOf(es) !! sel
    ensures Without(es, sel) == es
    decreases |es|
  {
    if es != [] {
      IdsOfCons(es);
      WithoutNothing(es[1..], sel);
    }
  }

  /** The selection after `select(id, shiftPressed:)`: a toggle of `id` with shift, else just `id`. */
  function Selected(sel: set<Id>, id: Id, shiftPressed: bool): (r: set<Id>)
    ensures id in r <==> !shiftPressed || id !in sel
    ensures forall other :: other != id ==> (other in r <==> shiftPressed && other in sel)
  {
    if !shiftPressed then {id}
    else if id in sel then sel - {id}
    else sel + {id}
  }

  /** Shift-clicking the same element twice gives the selection back; a plain click selects only it. */
  lemma SelectTwice(sel: set<Id>, id: Id, shiftPressed: bool)
    ensures Selected(Selected(sel, id, true), id, true) == sel
    ensures Selected(Selected(sel, id, shiftPressed), id, false) == {id}
  {
    var once := Selected(sel, id, true);
    var twice := Selected(once, id, true);
    assert id in twice <==> id in sel;
  }

  /**
   * The displacement `move(in:shiftPressed:)` applies: one unit, or ten with shift, along
   * one axis, towards smaller `y` for up and smaller `x` for left.
   */
  function NudgeOffset(direction: Direction, shiftPressed: bool): (p: Point)
    ensures IsWholePoint(p)
    ensures (p.x == 0.0) <==> (direction == Up || direction == Down)
    ensures (p.y == 0.0) <==> (direction == Left || direction == Right)
    ensures p.x < 0.0 <==> direction == Left
    ensures p.y < 0.0 <==> direction == Up
    ensures p.x + p.y == 1.0 || p.x + p.y == -1.0 <==> !shiftPressed
    ensures p.x + p.y == 10.0 || p.x + p.y == -10.0 <==> shiftPressed
  {
    var offset := if shiftPressed then 10.0 else 1.0;
    WholeInt(0);
    WholeInt(1);
    WholeInt(-1);
    WholeInt(10);
    WholeInt(-10);
    match direction
    case Up => Point(0.0, -offset)
    case Down => Point(0.0, offset)
    case Left => Point(-offset, 0.0)
    case Right => Point(offset, 0.0)
  }

  /** An exact translation of the selected elements; the others stay. */
  function TranslatedSelected(es: seq<Element>, sel: set<Id>, delta: Point): (r: seq<Element>)
    ensures |r| == |es|
    ensures forall i :: 0 <= i < |es| ==> r[i].id == es[i].id
  {
    seq(|es|, i requires 0 <= i < |es| => if es[i].id in sel then Translated(es[i], delta) else es[i])
  }

  /**
   * Without the grid, moving whole-aligned elements by a whole displacement is an exact
   * translation, so keyboard nudges never distort a shape.
   */
  lemma NudgeTranslates(es: seq<Element>, sel: set<Id>, delta: Point)
    requires AllAligned(es) && IsWholePoint(delta)
    ensures MovedSelected(es, sel, delta, None) == TranslatedSelected(es, sel, delta)
  {
    var moved := MovedSelected(es, sel, delta, None);
    var translated := TranslatedSelected(es, sel, delta);
    forall i | 0 <= i < |es| ensures moved[i] == translated[i] {
      if es[i].id in sel {
        MoveByTranslates(es[i], delta);
      }
    }
  }

  /** Two ungridded whole moves of the same selection add up to one move by their sum. */
  lemma NudgesCompose(es: seq<Element>, sel: set<Id>, a: Point, b: Point)
    requires AllAligned(es) && IsWholePoint(a) && IsWholePoint(b)
    ensures MovedSelected(MovedSelected(es, sel, a, None), sel, b, None) == MovedSelected(es, sel, Add(a, b), None)
  {
    WholeArithmetic(a.x, b.x);
    WholeArithmetic(a.y, b.y);
    var once := MovedSelected(es, sel, a, None);
    NudgeTranslates(es, sel, a);
    NudgeTranslates(once, sel, b);
    NudgeTranslates(es, sel, Add(a, b));
    var twice := MovedSelected(once, sel, b, None);
    var direct := MovedSelected(es, sel, Add(a, b), None);
    forall i | 0 <= i < |es| ensures twice[i] == direct[i] {
      if es[i].id in sel {
        var e := es[i];
        assert Add(Add(e.point, a), b) == Add(e.point, Add(a, b));
        if e.explicitPrimary.Some? {
          var h := e.explicitPrimary.value;
          assert Add(Add(h, a), b) == Add(h, Add(a, b));
        }
        if e.secondaryPoint.Some? {
          var h := e.secondaryPoint.value;
          assert Add(Add(h, a), b) == Add(h, Add(a, b));
        }
      }
    }
  }

  class Drawing {
    var elements: seq<Element>
    var selection: set<Id>
    var grid: Option<Size>
    /** The id the next element receives; stands for `UUID()`. */
    var nextId: Id

    /** The invariant every operation keeps. */
    predicate Valid()
      reads this
      ensures Valid() ==> nextId !in IdsOf(elements)
    {
      && GridValid(grid)
      && AllAligned(elements)
      && UniqueIds(elements)
      && (forall i :: 0 <= i < |elements| ==> elements[i].id < nextId)
    }

    /** Every selected id names an element of the list. */
    predicate SelectionValid()
      reads this
    {
      selection <= IdsOf(elements)
    }

    /** The default state: no elements, nothing selected, a 50 by 50 grid. */
    constructor()
      ensures Valid() && SelectionValid()
      ensures elements == [] && selection == {} && grid == Some(Size(50.0, 50.0)) && nextId == 0
    {
      elements := [];
      selection := {};
      grid := Some(Size(50.0, 50.0));
      nextId := 0;
    }

    /**
     * `update(for:)`: the gesture from `start` to `location` appends one element at the
     * snapped start; it has an outgoing handle at the snapped end exactly when the gesture
     * was a drag. The path grows by one segment and keeps the ones before it.
     */
    method Update(start: Point, location: Point)
      requires Valid()
      modifies this
      ensures Valid()
      ensures elements == old(elements) + [NewElement(old(nextId), Snapped(start, grid),
        if FartherThanOne(start, location) then Some(Snapped(location, grid)) else None)]
      ensures elements[|elements| - 1].secondaryPoint.Some? <==> FartherThanOne(start, location)
      ensures elements[|elements| - 1].point == Rounded(Snapped(start, grid))
      ensures old(SelectionValid()) ==> SelectionValid()
      ensures selection == old(selection) && grid == old(grid) && nextId == old(nextId) + 1
    {
      var isDrag := FartherThanOne(start, location);
      var point := start;
      var secondary := if isDrag then Some(location) else None;
      if grid.Some? {
        point := SnapPoint(point, grid.value);
        if secondary.Some? {
          secondary := Some(SnapPoint(secondary.value, grid.value));
        }
      }
      var e := NewElement(nextId, point, secondary);
      assert IdsOf(elements) <= IdsOf(elements + [e]) by {
        forall x | x in IdsOf(elements) ensures x in IdsOf(elements + [e]) {
          var i :| 0 <= i < |elements| && elements[i].id == x;
          assert (elements + [e])[i] == elements[i];
        }
      }
      elements := elements + [e];
      nextId := nextId + 1;
    }

    /** `path`: the loop over the elements, proved to compute the curve derivation. */
    method Path() returns (path: seq<Segment>)
      ensures path == PathOf(elements)
      ensures |path| == |elements|
    {
      path := [];
      if |elements| == 0 {
        return;
      }
      path := [MoveTo(elements[0].point)];
      var previous: Option<Point> := None;
      for k := 1 to |elements|
        invariant path == PathOf(elements[..k])
        invariant previous == if k == 1 then None else elements[k - 1].secondaryPoint
      {
        var element := elements[k];
        var controlPoints := element.ControlPoints();
        var segment;
        if previous.Some? {
          var control2 := if controlPoints.Some? then controlPoints.value.0 else element.point;
          segment := CurveTo(element.point, previous.value, control2);
        } else {
          if controlPoints.Some? {
            segment := QuadTo(element.point, controlPoints.value.0);
          } else {
            segment := LineTo(element.point);
          }
        }
        assert segment == SegmentTo(previous, element);
        PathAppend(elements[..k], element);
        assert elements[..k] + [element] == elements[..k + 1];
        path := path + [segment];
        previous := element.secondaryPoint;
      }
      assert elements[..|elements|] == elements;
      PathShape(elements);
    }

    /** `select(_:shiftPressed:)`: toggle `id` with shift, else select only `id`. */
    method Select(id: Id, shiftPressed: bool)
      requires Valid()
      modifies this
      ensures Valid()
      ensures selection == Selected(old(selection), id, shiftPressed)
      ensures old(SelectionValid()) && id in IdsOf(elements) ==> SelectionValid()
      ensures elements == old(elements) && grid == old(grid) && nextId == old(nextId)
    {
      if shiftPressed {
        if id in selection {
          selection := selection - {id};
        } else {
          selection := selection + {id};
        }
      } else {
        selection := {id};
      }
    }

    /** The getter of the id subscript: the first element with `id`, which must exist. */
    function ElementById(id: Id): (e: Element)
      reads this
      requires id in IdsOf(elements)
      ensures e in elements && e.id == id
      ensures UniqueIds(elements) ==> forall i :: 0 <= i < |elements| && elements[i].id == id ==> elements[i] == e
    {
      elements[FirstIndex(elements, id).value]
    }

    /** The setter of the id subscript: the first element with `id`, which must exist, is replaced by `e`. */
    method SetById(id: Id, e: Element)
      requires id in IdsOf(elements)
      modifies this
      ensures elements == old(elements)[FirstIndex(old(elements), id).value := e]
      ensures selection == old(selection) && grid == old(grid) && nextId == old(nextId)
    {
      var idx := FirstIndex(elements, id).value;
      elements := elements[idx := e];
    }

    /**
     * `move(_:to:)`: the element `focus` is dragged to `to`, and every selected element is
     * moved by the displacement of the focus, and snapped. An unknown `focus` changes
     * nothing; a selected id that names no element is not allowed, as the id subscript would
     * trap on it; `FocusLands` shows that a selected focus lands at the rounded snapped target.
     */
    method MoveSelection(focus: Id, to: Point)
      requires Valid()
      requires focus in IdsOf(elements) ==> selection <= IdsOf(elements)
      modifies this
      ensures Valid()
      ensures focus !in IdsOf(old(elements)) ==> elements == old(elements)
      ensures focus in IdsOf(old(elements)) ==>
        var k := FirstIndex(old(elements), focus).value;
        elements == MovedSelected(old(elements), selection, Sub(to, old(elements)[k].point), grid)
      ensures IdsOf(elements) == IdsOf(old(elements))
      ensures selection == old(selection) && grid == old(grid) && nextId == old(nextId)
    {
      var found := FirstIndex(elements, focus);
      if found.None? {
        return;
      }
      var relative := Sub(to, elements[found.value].point);
      ghost var start := elements;
      ghost var done: set<Id> := {};
      assert UniqueIds(start) && GridValid(grid) && selection <= IdsOf(start);
      var remaining := selection;
      while remaining != {}
        invariant remaining + done == selection && remaining !! done
        invariant selection == old(selection) && grid == old(grid) && nextId == old(nextId)
        invariant elements == MovedSelected(start, done, relative, grid)
        decreases remaining
      {
        var id :| id in remaining;
        MovedSelectedStep(start, done, relative, grid, id);
        SetById(id, ElementById(id).MoveBy(relative, grid));
        remaining := remaining - {id};
        done := done + {id};
      }
    }

    /**
     * `move(by:snap:)`: every selected element is moved by `amount`, snapped to the grid
     * only when `snap` is set.
     */
    method MoveSelectedBy(amount: Point, snap: bool)
      requires Valid()
      modifies this
      ensures Valid()
      ensures elements == MovedSelected(old(elements), selection, amount, if snap then grid else None)
      ensures IdsOf(elements) == IdsOf(old(elements))
      ensures selection == old(selection) && grid == old(grid) && nextId == old(nextId)
    {
      var indices := SelectedIndices(elements, selection);
      var g := if snap then grid else None;
      ghost var start := elements;
      for k := 0 to |indices|
        invariant |elements| == |start|
        invariant selection == old(selection) && grid == old(grid) && nextId == old(nextId)
        invariant forall i :: 0 <= i < |start| ==>
          elements[i] == if i in indices[..k] then start[i].MoveBy(amount, g) else start[i]
      {
        var idx := indices[k];
        assert idx in indices;
        assert idx !in indices[..k] by {
          forall l | 0 <= l < k ensures indices[l] != idx {
            assert indices[l] < indices[k];
          }
        }
        assert indices[..k + 1] == indices[..k] + [idx];
        elements := elements[idx := elements[idx].MoveBy(amount, g)];
      }
      assert indices[..|indices|] == indices;
    }

    /** `move(in:shiftPressed:)`: an arrow key nudges the selection, without snapping. */
    method MoveInDirection(direction: Direction, shiftPressed: bool)
      requires Valid()
      modifies this
      ensures Valid()
      ensures elements == MovedSelected(old(elements), selection, NudgeOffset(direction, shiftPressed), None)
      ensures elements == TranslatedSelected(old(elements), selection, NudgeOffset(direction, shiftPressed))
      ensures selection == old(selection) && grid == old(grid) && nextId == old(nextId)
    {
      var offset := if shiftPressed then 10.0 else 1.0;
      var point := Zero;
      match direction {
        case Up => point := point.(y := -offset);
        case Down => point := point.(y := offset);
        case Left => point := point.(x := -offset);
        case Right => point := point.(x := offset);
      }
      assert point == NudgeOffset(direction, shiftPressed);
      NudgeTranslates(elements, selection, point);
      MoveSelectedBy(point, false);
    }

    /** `delete()`: the selected elements are removed, and the selection is cleared. */
    method Delete()
      requires Valid()
      modifies this
      ensures Valid() && SelectionValid()
      ensures elements == Without(old(elements), old(selection))
      ensures IdsOf(elements) == IdsOf(old(elements)) - old(selection)
      ensures selection == {} && grid == old(grid) && nextId == old(nextId)
    {
      WithoutKeepsInvariants(elements, selection);
      elements := Without(elements, selection);
      selection := {};
      assert forall i :: 0 <= i < |elements| ==> elements[i] in old(elements);
    }
  }

  /**
   * The points of the editing session below, here (10, 10), (100, 10), (200, 10) and the
   * handle (200, 40), stay where they are on the default fifty-unit grid, and the third
   * gesture is a drag.
   */
  lemma SessionInputs(p0: Point, p1: Point, p2: Point, h2: Point)
    requires p0 == Point(10.0, 10.0) && p1 == Point(100.0, 10.0)
    requires p2 == Point(200.0, 10.0) && h2 == Point(200.0, 40.0)
    ensures var grid := Some(Size(50.0, 50.0));
      && Rounded(Snapped(p0, grid)) == p0 && Rounded(Snapped(p1, grid)) == p1
      && Rounded(Snapped(p2, grid)) == p2 && Rounded(Snapped(h2, grid)) == h2
    ensures FartherThanOne(p2, h2)
  {
    SnapNonNegative(10.0, 50.0);
    SnapNonNegative(40.0, 50.0);
    WholeInt(2);
    WholeInt(4);
    assert OnLine(100.0, 50.0) && OnLine(200.0, 50.0);
    SnapOnLine(100.0, 50.0);
    SnapOnLine(200.0, 50.0);
    WholeInt(10);
    WholeInt(40);
    WholeInt(100);
    WholeInt(200);
  }

  /** The handle (200, 40) mirrored through the anchor (200, 10) is (200, -20). */
  lemma SessionMirror(h2: Point, p2: Point)
    requires p2 == Point(200.0, 10.0) && h2 == Point(200.0, 40.0)
    ensures Mirrored(h2, p2) == Point(200.0, -20.0)
  {
  }

  /**
   * A corner followed by an element with a coupled handle: with a corner before them the
   * path draws a line to the corner and a quadratic curve to the handled element; without
   * it, the same quadratic curve follows the move.
   */
  lemma CornerThenHandle(e0: Element, e1: Element, e2: Element)
    requires e1.explicitPrimary.None? && e1.secondaryPoint.None?
    requires e2.explicitPrimary.None? && e2.secondaryPoint.Some?
    ensures var quad := QuadTo(e2.point, Mirrored(e2.secondaryPoint.value, e2.point));
      && PathOf([e0, e1, e2]) == [MoveTo(e0.point), LineTo(e1.point), quad]
      && PathOf([e0, e2]) == [MoveTo(e0.point), quad]
  {
    CoupledQuad(e2);
    var three, two := [e0, e1, e2], [e0, e2];
    PathShape(three);
    PathShape(two);
    assert Incoming(three, 2) == None;
  }

  /** Deleting the element with id 1 from three elements with ids 0, 1 and 2 leaves the outer two. */
  lemma DeleteMiddle(e0: Element, e1: Element, e2: Element)
    requires e0.id == 0 && e1.id == 1 && e2.id == 2
    ensures Without([e0, e1, e2], {1}) == [e0, e2]
  {
    assert [e0, e1, e2][1..] == [e1, e2] && [e1, e2][1..] == [e2] && [e2][1..] == [];
  }

  /**
   * The drawing part of an editing session on a new drawing, whose points the default grid
   * leaves in place (as `SessionInputs` shows for (10, 10), (100, 10), (200, 10) and
   * (200, 40)): taps at `p0` and `p1`, then a drag from `p2` to `h2`, give two corners and
   * an element whose outgoing handle is `h2`.
   */
  method DrawSession(p0: Point, p1: Point, p2: Point, h2: Point) returns (d: Drawing)
    requires var grid := Some(Size(50.0, 50.0));
      && Rounded(Snapped(p0, grid)) == p0 && Rounded(Snapped(p1, grid)) == p1
      && Rounded(Snapped(p2, grid)) == p2 && Rounded(Snapped(h2, grid)) == h2
    requires FartherThanOne(p2, h2)
    ensures fresh(d) && d.Valid() && d.selection == {}
    ensures d.elements == [Element(0, p0, None, None), Element(1, p1, None, None), Element(2, p2, None, Some(h2))]
  {
    assert !FartherThanOne(p0, p0) && !FartherThanOne(p1, p1);
    d := new Drawing();
    d.Update(p0, p0);
    d.Update(p1, p1);
    d.Update(p2, h2);
  }

  /**
   * The editing session of `DrawSession`: its path is a move, a line, and a quadratic curve
   * whose control point is `h2` mirrored through `p2`. Selecting the middle element and
   * deleting it leaves the move followed by the same quadratic curve.
   */
  method Session(p0: Point, p1: Point, p2: Point, h2: Point) returns (drawn: seq<Segment>, afterDelete: seq<Segment>)
    requires var grid := Some(Size(50.0, 50.0));
      && Rounded(Snapped(p0, grid)) == p0 && Rounded(Snapped(p1, grid)) == p1
      && Rounded(Snapped(p2, grid)) == p2 && Rounded(Snapped(h2, grid)) == h2
    requires FartherThanOne(p2, h2)
    ensures drawn == [MoveTo(p0), LineTo(p1), QuadTo(p2, Mirrored(h2, p2))]
    ensures afterDelete == [MoveTo(p0), QuadTo(p2, Mirrored(h2, p2))]
  {
    var d := DrawSession(p0, p1, p2, h2);
    CornerThenHandle(d.elements[0], d.elements[1], d.elements[2]);
    DeleteMiddle(d.elements[0], d.elements[1], d.elements[2]);
    drawn := d.Path();
    d.Select(1, false);
    d.Delete();
    afterDelete := d.Path();
  }
}
