# SwiftUIPaths editing model in Dafny

This project models the editing core of SwiftUIPaths, a small vector-path editor. The
model covers:

- **Elements.** Each element is an anchor with an optional outgoing handle and an
  optional detached incoming handle. A tap creates an element with no handle. Every
  coordinate is rounded to a whole number whenever it is stored.
- **The drawing.** A drawing holds an ordered list of elements, a selection of element
  ids and an optional grid. It supports appending an element from a tap or a drag,
  shift-toggle selection, group moves anchored on one element, moves by an offset,
  arrow-key nudges and deleting the selection.
- **Grid snapping.** A non-negative coordinate moves onto the nearest grid line only
  when it lies within a fifth of a cell of that line. A negative coordinate always moves
  to its nearest line, as explained below.
- **The path.** The element list becomes one segment per element: a move to the first
  anchor, then a line, quadratic curve or cubic curve to each later anchor. The kind of
  segment depends on the handles around it.

The modules:

- `Points` (points.dfy): `CGPoint` arithmetic from Helpers.swift, over exact reals. It
  defines `Round`, which rounds halfway cases away from zero.
- `Snapping` (snapping.dfy): `CGFloat.snap(to:)` and `CGPoint.snap(to:)`. The truncating
  remainder is written out, because it keeps the dividend's sign.
- `Elements` (elements.dfy): `Drawing.Element`. It is a Swift struct, so it is a datatype
  here, and each mutating method is a function from the old value to the new one. The
  rounding `didSet` observers are part of those functions.
- `Paths` (paths.dfy): the curve derivation `Drawing.path`, as the function `PathOf`.
- `Drawings` (drawing.dfy): the `Drawing` state. It is a class whose methods update
  `elements` and `selection` in place, and its `Path` method runs the source's loop. The
  module also holds the functions over element lists that specify those methods, and a
  short editing session: two taps, a drag, then selecting and deleting the middle element.

`UUID()` is replaced by a counter `nextId` that the drawing owns. A gesture is a pair of
points (start, location). `MoveCommandDirection` is the enumeration `Direction`.

In these details the model follows the code as written:

- A negative coordinate that is not on a grid line is always snapped, because the
  truncating remainder of a negative number is never positive (`Snapping.SnapNegative`).
- An element with a detached incoming handle but no outgoing handle is reached by a
  straight line, not by a quadratic curve. The quadratic test reads
  `controlPoints?.0`, and that exists only when the outgoing handle does.
- The handle pending when the path is traced starts out absent. So the first element's
  outgoing handle never shapes the path, and the segment after the first move is never a
  cubic curve (`Paths.FirstHandleIgnored`).

## Model

| member | source | states |
|---|---|---|
| `Points.Round` | SwiftUIPaths/Helpers.swift:35-37 | the result is within one half of the input, and a halfway value is rounded away from zero |
| `Points.RoundOdd` | SwiftUIPaths/Helpers.swift:35-37 | rounding is symmetric about zero |
| `Points.RoundWhole` | SwiftUIPaths/Helpers.swift:35-37 | a whole number rounds to itself |
| `Points.Neg` | SwiftUIPaths/Helpers.swift:19-21 | the unary minus is the additive inverse: adding it to the point gives the origin |
| `Points.Add` | SwiftUIPaths/Helpers.swift:23-25 | addition is componentwise: each coordinate of the sum exceeds that of the first point by that of the second |
| `Points.AdditionLaws` | SwiftUIPaths/Helpers.swift:23-25 | componentwise addition is commutative and associative, and the origin is its identity |
| `Points.Sub` | SwiftUIPaths/Helpers.swift:31-33 | subtraction is defined as adding the negation, so adding `b` back to `a - b` gives `a` |
| `Points.SubtractionLaws` | SwiftUIPaths/Helpers.swift:19-33 | `(a - b) + b == a`, `a - a` is the origin, and `-(-a) == a` |
| `Points.Mirrored` | SwiftUIPaths/Helpers.swift:15-17 | the reference point is the midpoint of a point and its mirror image, and mirroring whole points gives a whole point |
| `Points.MirroredInvolution` | SwiftUIPaths/Helpers.swift:15-17 | mirroring twice about the same point gives the point back, and a point is its own mirror image |
| `Points.Rounded` | SwiftUIPaths/Helpers.swift:35-37 | each coordinate is rounded on its own: the result is whole, within one half of the input on each axis, and equal to the input when that is whole |
| `Points.RoundedIdempotent` | SwiftUIPaths/Helpers.swift:35-37 | rounding twice is the same as rounding once |
| `Points.DistanceSquared` | SwiftUIPaths/Helpers.swift:11-13 | the squared distance, without the square root, is never negative |
| `Points.DistanceTest` | SwiftUIPaths/Helpers.swift:11-13 | a non-negative square root of the squared distance exceeds one exactly when the squared distance does |
| `Points.AddSizeAsWritten` | SwiftUIPaths/Helpers.swift:27-29 | `CGPoint + CGSize` as written: the width is added to both coordinates |
| `Points.AddSize` | SwiftUIPaths/Helpers.swift:27-29 | size addition as intended: the width is added to `x` and the height to `y` |
| `Points.AddSizeDiscrepancy` | SwiftUIPaths/Helpers.swift:27-29 | the two agree exactly for square sizes; the origin plus a 1 by 2 size gives (1, 1) as written, but (1, 2) was intended |
| `Snapping.Trunc` | SwiftUIPaths/Drawing.swift:184 | conversion toward zero: the integer part, with the sign of the input |
| `Snapping.TruncatingRemainder` | SwiftUIPaths/Drawing.swift:184 | `truncatingRemainder(dividingBy:)`: the remainder keeps the sign of the dividend and is smaller than one cell |
| `Snapping.SnapAxis` | SwiftUIPaths/Drawing.swift:181-188 | the coordinate is either unchanged or on a grid line, and it moves by at most half a cell |
| `Snapping.NearestLine` | SwiftUIPaths/Drawing.swift:186 | the rounded multiple of the cell lies on the grid, within half a cell of the coordinate |
| `Snapping.SnapOnLine` | SwiftUIPaths/Drawing.swift:181-188 | a coordinate on a grid line passes the threshold test and is left where it is |
| `Snapping.SnapAxisIdempotent` | SwiftUIPaths/Drawing.swift:181-188 | snapping twice is the same as snapping once |
| `Snapping.SnapNonNegative` | SwiftUIPaths/Drawing.swift:181-188 | a non-negative coordinate closer than a fifth of a cell to the line below it, or to the line above, moves onto that line; any other stays |
| `Snapping.SnapNegative` | SwiftUIPaths/Drawing.swift:181-188 | a negative coordinate always moves to its nearest grid line, so a negative coordinate off the grid always changes |
| `Snapping.SnapExamples` | SwiftUIPaths/Drawing.swift:181-188 | with a fifty-unit cell, 35 stays, 48 becomes 50, 4 becomes 0, and -35 becomes -50 |
| `Snapping.WithinThreshold` | SwiftUIPaths/Drawing.swift:183-185 | the threshold test holds for every negative coordinate, because its truncating remainder is never positive |
| `Snapping.SnapPoint` | SwiftUIPaths/Drawing.swift:174-178 | each axis is unchanged or on a line of its own cell side, and moves by at most half a cell of that side |
| `Snapping.Snapped` | SwiftUIPaths/Drawing.swift:174-178 | no grid means no snapping; with a grid, each axis is unchanged or on a line of its own cell side |
| `Snapping.SnappedIdempotent` | SwiftUIPaths/Drawing.swift:174-178 | snapping a point twice is the same as snapping it once |
| `Elements.RoundedOpt` | SwiftUIPaths/Drawing.swift:22-23 | the optional rounding observer keeps presence and rounds a present point |
| `Elements.Element.SetPrimary` | SwiftUIPaths/Drawing.swift:23 | the observer of `_primaryPoint` stores the rounded value, whole, and changes no other field |
| `Elements.Element.SetSecondary` | SwiftUIPaths/Drawing.swift:22 | the observer of `secondaryPoint` stores the rounded value, whole, and changes no other field |
| `Elements.ShiftedOpt` | SwiftUIPaths/Drawing.swift:46-47 | an absent handle stays absent; a present one is shifted by the displacement and rounded |
| `Elements.NewElement` | SwiftUIPaths/Drawing.swift:28-31 | a new element has a rounded anchor and handle, no detached handle, and only whole coordinates |
| `Elements.Element.PrimaryPoint` | SwiftUIPaths/Drawing.swift:24-26 | the detached handle when there is one, else the outgoing handle mirrored through the anchor, else nothing; whole on an aligned element |
| `Elements.Element.ControlPoints` | SwiftUIPaths/Drawing.swift:36-39 | present exactly when the outgoing handle is, and then the pair of the incoming and the outgoing handle |
| `Elements.Element.MoveTo` | SwiftUIPaths/Drawing.swift:41-48 | the anchor goes to the rounded snapped target; each present handle becomes exactly the rounding of itself shifted by the snapped displacement `dest - point`; absent handles stay absent; the id is kept and every coordinate is whole |
| `Elements.Element.MoveBy` | SwiftUIPaths/Drawing.swift:50-52 | a move to the anchor plus the displacement: the anchor goes to the rounded snapped sum, and each present handle to the rounding of itself shifted by the snapped displacement of the anchor; the id and the presence of each handle are kept, and every coordinate is whole |
| `Elements.MoveByTranslates` | SwiftUIPaths/Drawing.swift:41-52 | with no grid and a whole displacement, moving an aligned element translates its anchor and both handles by exactly that displacement |
| `Elements.MoveToRigid` | SwiftUIPaths/Drawing.swift:41-48 | for any grid, each handle's offset from the anchor changes by at most one unit per coordinate |
| `Elements.Element.MoveControlPoint1` | SwiftUIPaths/Drawing.swift:54-59 | the anchor is kept; with the modifier or a detached handle only the detached handle is set, to the rounded snapped target; otherwise the handles stay coupled, the outgoing handle becomes the rounded mirror of the snapped target, and the incoming handle lands on the snapped target when that is whole |
| `Elements.MirrorFollows` | SwiftUIPaths/Drawing.swift:58 | the mirror of the rounded mirror of a target lies within one half of it, and is the target itself when the target and the anchor are whole |
| `Elements.MoveControlPoint1Idempotent` | SwiftUIPaths/Drawing.swift:54-59 | dragging the incoming handle twice to the same place is the same as dragging it once |
| `Elements.Element.MoveControlPoint2` | SwiftUIPaths/Drawing.swift:61-66 | the anchor is kept and the outgoing handle becomes the rounded snapped target; with the modifier on a coupled element, the current incoming handle is frozen, rounded, as the detached one, so an aligned element keeps its incoming handle where it was, and an element with no handle at all gets the new handle's mirror; without the modifier on a coupled element, the incoming handle is the new handle's mirror |
| `Elements.Element.ResetControlPoints` | SwiftUIPaths/Drawing.swift:68-71 | the anchor is kept and both handles are absent, so there is no incoming handle and no control pair |
| `Elements.Element.SetCoupledControlPoints` | SwiftUIPaths/Drawing.swift:73-76 | the anchor is kept, the detached handle is cleared, and the outgoing handle is the rounded target, not snapped; the incoming handle is its mirror |
| `Elements.ResetForgetsHandles` | SwiftUIPaths/Drawing.swift:54-76 | after a reset, no earlier handle drag or re-coupling leaves a trace |
| `Paths.SegmentTo` | SwiftUIPaths/Drawing.swift:86-95 | the segment ends at the anchor; it is cubic exactly when a handle is pending, and its controls are that handle and the incoming handle (or the anchor); otherwise it is quadratic exactly when the element has an outgoing handle, with the incoming handle as control; otherwise it is a line |
| `Paths.TraceAt` | SwiftUIPaths/Drawing.swift:85-97 | segment `k` of the loop is chosen by element `k` and the outgoing handle of the element before it |
| `Paths.Trace` | SwiftUIPaths/Drawing.swift:85-97 | the loop over the elements after the first emits one segment per element, the first chosen by the handle pending before it |
| `Paths.PathOf` | SwiftUIPaths/Drawing.swift:80-99 | the curve derivation has one segment per element, and starts with a move to the first anchor |
| `Paths.Incoming` | SwiftUIPaths/Drawing.swift:84-96 | no handle is pending before the second element; before any later one, the previous element's outgoing handle is pending, when it has one |
| `Paths.PathShape` | SwiftUIPaths/Drawing.swift:80-99 | no elements give no segments; otherwise one segment per element, a move to the first anchor, and for each later element the segment chosen by its handles and the pending one, ending at its anchor |
| `Paths.FirstHandleIgnored` | SwiftUIPaths/Drawing.swift:83-84 | the first element's outgoing handle does not change the path, and the second segment is never cubic |
| `Paths.CoupledQuad` | SwiftUIPaths/Drawing.swift:90-91 | an element with coupled handles and nothing pending is reached by a quadratic curve whose control is its outgoing handle mirrored through its anchor |
| `Paths.PathAppend` | SwiftUIPaths/Drawing.swift:80-99 | appending an element adds exactly one segment and leaves the earlier ones unchanged |
| `Paths.TraceAppend` | SwiftUIPaths/Drawing.swift:85-97 | the loop over a longer list emits the same segments plus the one for the new last element |
| `Drawings.FirstIndex` | SwiftUIPaths/Drawing.swift:125 | the position of the first element with the id; absent exactly when no element has it |
| `Drawings.MovedSelected` | SwiftUIPaths/Drawing.swift:127-129 | moving the selection keeps the length, order and ids; unselected elements are unchanged; each selected one is that element moved by the displacement, so its anchor lands at the rounded snapped target and its handles follow; uniqueness and whole coordinates are kept |
| `Drawings.MovedSelectedStep` | SwiftUIPaths/Drawing.swift:127-129 | moving one more selected element, found by its id, extends the set of moved ids by that id |
| `Drawings.FocusLands` | SwiftUIPaths/Drawing.swift:124-129 | the element a group drag is anchored on lands at the rounded snapped target |
| `Drawings.SelectedIndices` | SwiftUIPaths/Drawing.swift:133-135 | exactly the positions of selected elements, in increasing order |
| `Drawings.SelectedIndicesFrom` | SwiftUIPaths/Drawing.swift:133-135 | the positions of selected elements from a given position on, in increasing order |
| `Drawings.Without` | SwiftUIPaths/Drawing.swift:160 | what remains is exactly the elements whose id is not selected, and the list gets no longer |
| `Drawings.WithoutKeepsInvariants` | SwiftUIPaths/Drawing.swift:160 | removal removes exactly the selected ids, and keeps ids unique and coordinates whole |
| `Drawings.WithoutAppend` | SwiftUIPaths/Drawing.swift:160 | removal works element by element, so what remains keeps its order |
| `Drawings.WithoutNothing` | SwiftUIPaths/Drawing.swift:160 | with nothing in the list selected, removal leaves the list as it is |
| `Drawings.Selected` | SwiftUIPaths/Drawing.swift:115-122 | without shift the selection becomes exactly the id; with shift the id is toggled and no other id changes |
| `Drawings.SelectTwice` | SwiftUIPaths/Drawing.swift:115-122 | toggling the same id twice restores the selection, and a plain click selects only that id |
| `Drawings.NudgeOffset` | SwiftUIPaths/Drawing.swift:142-155 | the nudge is whole and lies on one axis, towards smaller `y` for up and smaller `x` for left, and is 1 long, or 10 with shift |
| `Drawings.NudgeTranslates` | SwiftUIPaths/Drawing.swift:141-157 | without the grid, a whole nudge of aligned elements translates each selected element exactly |
| `Drawings.NudgesCompose` | SwiftUIPaths/Drawing.swift:132-157 | two ungridded whole moves of the same selection add up to one move by their sum |
| `Drawings.Drawing.Valid` | SwiftUIPaths/Drawing.swift:11-31 | the invariant: a valid grid, whole coordinates, unique ids, and every id below the counter, so the next id is fresh |
| `Drawings.Drawing.constructor` | SwiftUIPaths/Drawing.swift:11-15 | a new drawing has no elements, no selection and a 50 by 50 grid, and satisfies the invariant |
| `Drawings.Drawing.Update` | SwiftUIPaths/Drawing.swift:104-113 | exactly one element is appended, with a fresh id, at the rounded snapped start; it has an outgoing handle at the snapped end exactly when the gesture is longer than one; the earlier elements, the selection and the grid are unchanged |
| `Drawings.Drawing.Path` | SwiftUIPaths/Drawing.swift:80-99 | the loop with the pending handle computes the curve derivation, one segment per element |
| `Drawings.Drawing.Select` | SwiftUIPaths/Drawing.swift:115-122 | the new selection is the toggled or single selection; the elements are unchanged |
| `Drawings.Drawing.ElementById` | SwiftUIPaths/Drawing.swift:164-165 | the subscript getter returns an element with that id, the only one when ids are unique |
| `Drawings.Drawing.SetById` | SwiftUIPaths/Drawing.swift:166-169 | the subscript setter replaces the first element with that id, and nothing else |
| `Drawings.Drawing.MoveSelection` | SwiftUIPaths/Drawing.swift:124-130 | an unknown focus changes nothing; otherwise every selected element is moved by the focus's displacement to the target, and snapped; ids, uniqueness and whole coordinates are kept |
| `Drawings.Drawing.MoveSelectedBy` | SwiftUIPaths/Drawing.swift:132-139 | every selected element is moved by the amount, snapped only when asked; nothing else changes |
| `Drawings.Drawing.MoveInDirection` | SwiftUIPaths/Drawing.swift:141-157 | the selection is moved by the nudge without snapping, which translates each selected element exactly |
| `Drawings.Drawing.Delete` | SwiftUIPaths/Drawing.swift:159-162 | the selected elements are removed, the rest keep their order, and the selection is emptied |
| `Drawings.SessionInputs` | SwiftUIPaths/Drawing.swift:104-113 | the session's points stay where they are on the fifty-unit grid, and its third gesture is a drag |
| `Drawings.SessionMirror` | SwiftUIPaths/Helpers.swift:15-17 | the handle (200, 40) mirrored through (200, 10) is (200, -20) |
| `Drawings.CornerThenHandle` | SwiftUIPaths/Drawing.swift:80-99 | two corners then a coupled handle give a move, a line and a quadratic curve; without the middle corner, a move and the same curve |
| `Drawings.DeleteMiddle` | SwiftUIPaths/Drawing.swift:159-162 | removing the middle one of three elements leaves the outer two |
| `Drawings.DrawSession` | SwiftUIPaths/Drawing.swift:104-113 | two taps and a drag on a new drawing give two corners and an element whose outgoing handle is the drag's end |
| `Drawings.Session` | SwiftUIPaths/Drawing.swift:80-162 | the session's path is a move, a line and a quadratic curve; after the middle element is selected and deleted, it is a move and the same curve |

## Left out

- The SwiftUI views, gesture wiring, toolbars and previews (DrawingView.swift,
  ContentView.swift, SwiftUIPathsApp.swift) are not part of this model. Neither is the
  live preview copy of the drawing, which only applies `update(for:)` to a copy.
- ModifierHandling.swift, an AppKit bridge that runs on the main dispatch queue, is not
  part of this model.
- Grid.swift, which renders the grid lines in floating point, is not part of this model.
- CodeGeneration.swift, which formats the path as Swift source text, is not part of this
  model. Its quadratic and cubic lines (33 and 35) lack a closing parenthesis.
- `CGFloat` is modelled by exact reals. IEEE-754 rounding, overflow and NaN are not
  modelled.
- `Points.DistanceSquared`: the square root of `distance(to:)` is not computed. Only the
  test "greater than one" is used, and `Points.DistanceTest` shows it agrees with the
  squared form.
- `UUID()` is replaced by the counter `nextId`. Fresh, unique ids are its only use.
- The `@unknown default` case of the direction switch is not modelled: `Direction` has
  exactly four cases.
- `Drawings.Drawing.MoveSelection` and `Drawings.Drawing.ElementById`: the subscript's
  force-unwrap crash is a precondition that the id is present. For a group drag, this
  means every selected id names an element whenever the focus does.
- `Drawings.Drawing.Valid`: a grid with a side of zero or less is excluded, because
  snapping divides by the grid size.
- `CGPoint + CGSize` is not used by the core. It is modelled only for the finding below.
- `Elements.Element`: elements edited through SwiftUI bindings in the views are not
  modelled. Only the mutators themselves are modelled.
- `Drawings.DrawSession` and `Drawings.Session`: the session's points are parameters.
  The points (10, 10), (100, 10), (200, 10) and (200, 40) meet the preconditions, as
  `Drawings.SessionInputs` shows.

## Findings

| source | as written | input that shows it | evidently intended | confidence | as-written member | corrected member |
|---|---|---|---|---|---|---|
| SwiftUIPaths/Helpers.swift:27-29 | `CGPoint + CGSize` adds the width to both `x` and `y` | the origin plus a size of width 1 and height 2 gives (1, 1) | the width added to `x` and the height to `y`, giving (1, 2) | high; not executed | `Points.AddSizeAsWritten` (`Points.AddSizeDiscrepancy` exhibits it) | `Points.AddSize` |
