/**
 * The selection state of the camera view and the operations that change it:
 * the two setters (`setSelection` in image coordinates, `setScaledSelection`
 * in component coordinates), the rescale on a new frame or a resize, and the
 * press / drag / release gesture machine of the mouse listeners.
 */
module CameraView {
  import opened Options
  import opened JavaArith
  import opened Geometry
  import opened HitTest
  import opened CoordinateMapping

  /** `SelectionMode`; the view is idle when it has none. */
  datatype Mode = Resizing | Moving | Creating

  /** The selection in image coordinates (`selection`) together with its projection into
      component coordinates (`selectionScaled`). The view only reads the projection while a
      selection exists, so the two are kept as one value. */
  datatype Selection = Selection(source: Rect, display: Rect)

  /** The fields of the view that the selection engine reads and writes. `frame` holds the
      dimensions of `lastFrame`; `startX`/`startY` are `selectionStartX`/`selectionStartY`. */
  datatype View = View(
    enabled: bool,
    surface: Surface,
    frame: Option<Extent>,
    scaling: Scaling,
    selection: Option<Selection>,
    mode: Option<Mode>,
    handle: Option<Handle>,
    startX: int,
    startY: int)

  /** A freshly constructed view: no frame, no selection, selection disabled, fields at their
      Java defaults. */
  const Initial := View(false, Surface(0, 0, Insets(0, 0, 0, 0)), None, Unscaled, None, None, None, 0, 0)

  /** The displayed rectangle, when there is a selection. */
  function Display(v: View): Option<Rect>
  {
    if v.selection.Some? then Some(v.selection.value.display) else None
  }

  /** The invariant every state reached from `Initial` keeps. */
  predicate Wf(v: View)
  {
    && (v.frame.Some? ==>
          && v.frame.value.IsPositive()
          && v.scaling.x.IsComputed() && v.scaling.y.IsComputed()
          && v.scaling.x.source == v.frame.value.width
          && v.scaling.y.source == v.frame.value.height)
    && (v.frame.None? ==> v.scaling == Unscaled)
    && (v.selection.Some? ==> v.selection.value.display.IsNormal())
    && (v.mode == Some(Resizing) ==> v.handle.Some? && v.selection.Some?)
    && (v.mode == Some(Moving) ==> v.selection.Some?)
  }

  lemma InitialIsWf()
    ensures Wf(Initial)
  {
  }

  /** `setSelection`: null clears the selection and ends any gesture. Otherwise the active
      handle is swapped against the signed rectangle, the normalised rectangle is stored and
      projected into component coordinates. */
  function SetSelection(v: View, r: Option<Rect>): (u: View)
    requires r.Some? ==> v.scaling.x.IsComputed() && v.scaling.y.IsComputed()
    ensures r.None? ==> u.selection.None? && u.mode.None? && u == v.(selection := None, mode := None)
    ensures r.Some? ==>
              && u.selection.Some?
              && Covers(u.selection.value.source, r.value)
              && u.selection.value.display == Project(v.scaling, u.selection.value.source)
              && u.selection.value.display.IsNormal()
              && u.handle == Opposing(r.value, v.handle)
              && u == v.(selection := u.selection, handle := u.handle)
  {
    match r
    case None => v.(selection := None, mode := None)
    case Some(rect) =>
      var handle := Opposing(rect, v.handle);
      var source := Normalize(rect);
      v.(handle := handle, selection := Some(Selection(source, Project(v.scaling, source))))
  }

  /** `setScaledSelection`: the active handle is swapped against the signed component-space
      rectangle `r`, whose normalised form is displayed, while the image-space selection is
      back-projected from the signed `r` itself and so stays signed when `r` is. */
  function SetScaledSelection(v: View, r: Rect): (u: View)
    requires v.scaling.x.IsInvertible() && v.scaling.y.IsInvertible()
    ensures u.selection.Some?
    ensures Covers(u.selection.value.display, r)
    ensures u.selection.value.source == Unproject(v.scaling, r)
    ensures u.handle == Opposing(r, v.handle)
    ensures u == v.(selection := u.selection, handle := u.handle)
  {
    var handle := Opposing(r, v.handle);
    var display := Normalize(r);
    v.(handle := handle, selection := Some(Selection(Unproject(v.scaling, r), display)))
  }

  /** `calculateScalingData`: without a frame nothing happens; otherwise the scaling is
      recomputed for the frame and the component, and an enabled selection is re-stored
      through `SetSelection`, which normalises it and may swap the active handle again. */
  function RecalculateScaling(v: View): (u: View)
    requires v.frame.Some? ==> v.frame.value.IsPositive() && v.surface.HasContent()
    ensures v.frame.None? ==> u == v
    ensures v.frame.Some? ==> u.scaling == Calculate(v.frame.value, v.surface)
    ensures v.frame.Some? && v.enabled && v.selection.Some? ==>
              && u.selection.Some?
              && Covers(u.selection.value.source, v.selection.value.source)
              && u.selection.value.display == Project(u.scaling, u.selection.value.source)
              && u.handle == Opposing(v.selection.value.source, v.handle)
    ensures v.frame.Some? && !(v.enabled && v.selection.Some?) ==> u.selection == v.selection && u.handle == v.handle
    ensures u == v.(scaling := u.scaling, selection := u.selection, handle := u.handle)
  {
    match v.frame
    case None => v
    case Some(image) =>
      var scaled := v.(scaling := Calculate(image, v.surface));
      if v.enabled && v.selection.Some? then
        SetSelection(scaled, Some(v.selection.value.source))
      else
        scaled
  }

  /** `frameReceived`: the new frame is kept, and the scaling is recomputed only for the first
      frame or one whose dimensions differ from the previous one. */
  function FrameReceived(v: View, image: Extent): (u: View)
    requires image.IsPositive()
    requires NeedsRescale(v.frame, image) ==> v.surface.HasContent()
    ensures u.frame == Some(image)
    ensures u == v.(frame := u.frame, scaling := u.scaling, selection := u.selection, handle := u.handle)
    ensures !NeedsRescale(v.frame, image) ==> u == v
    ensures NeedsRescale(v.frame, image) ==> u.scaling == Calculate(image, v.surface)
    ensures NeedsRescale(v.frame, image) && v.enabled && v.selection.Some? ==>
              && u.selection.Some?
              && Covers(u.selection.value.source, v.selection.value.source)
              && u.selection.value.display == Project(u.scaling, u.selection.value.source)
              && u.handle == Opposing(v.selection.value.source, v.handle)
    ensures !(NeedsRescale(v.frame, image) && v.enabled && v.selection.Some?) ==>
              u.selection == v.selection && u.handle == v.handle
  {
    var previous := v.frame;
    var received := v.(frame := Some(image));
    if NeedsRescale(previous, image) then RecalculateScaling(received) else received
  }

  /** `componentResized`: the component's new size triggers a rescale. */
  function Resized(v: View, surface: Surface): (u: View)
    requires v.frame.Some? ==> v.frame.value.IsPositive() && surface.HasContent()
    ensures u.surface == surface
    ensures u == v.(surface := surface, scaling := u.scaling, selection := u.selection, handle := u.handle)
    ensures v.frame.Some? ==> u.scaling == Calculate(v.frame.value, surface)
    ensures v.frame.None? ==> u == v.(surface := surface)
    ensures v.frame.Some? && v.enabled && v.selection.Some? ==>
              && u.selection.Some?
              && Covers(u.selection.value.source, v.selection.value.source)
              && u.selection.value.display == Project(u.scaling, u.selection.value.source)
              && u.handle == Opposing(v.selection.value.source, v.handle)
    ensures !(v.frame.Some? && v.enabled && v.selection.Some?) ==>
              u.selection == v.selection && u.handle == v.handle
  {
    RecalculateScaling(v.(surface := surface))
  }

  /** A resize of an enabled view holding a selection amounts to re-storing the image-space
      selection under the scaling computed for the new surface. */
  lemma ResizedRestores(v: View, surface: Surface)
    requires v.frame.Some? && v.frame.value.IsPositive() && surface.HasContent()
    requires v.enabled && v.selection.Some?
    ensures Resized(v, surface)
            == SetSelection(v.(surface := surface, scaling := Calculate(v.frame.value, surface)),
                            Some(v.selection.value.source))
  {
  }

  /** A frame of new dimensions arriving at an enabled view that holds a selection amounts to
      re-storing the image-space selection under the scaling computed for that frame. */
  lemma FrameReceivedRestores(v: View, image: Extent)
    requires image.IsPositive() && v.surface.HasContent() && NeedsRescale(v.frame, image)
    requires v.enabled && v.selection.Some?
    ensures FrameReceived(v, image)
            == SetSelection(v.(frame := Some(image), scaling := Calculate(image, v.surface)),
                            Some(v.selection.value.source))
  {
  }

  /** `setSelectionEnabled`. */
  function SetSelectionEnabled(v: View, on: bool): (u: View)
    ensures u.enabled == on && u == v.(enabled := on)
  {
    v.(enabled := on)
  }

  /** `mousePressed`: an enabled, idle view starts a gesture. A press on a handle resizes with
      that handle; a press inside the selection moves it, remembering the offset of the press
      from the selection's corner; anything else creates a new selection anchored at the
      press. */
  function Press(v: View, x: int, y: int): (u: View)
    ensures !v.enabled || v.mode.Some? ==> u == v
    ensures u == v.(mode := u.mode, handle := u.handle, startX := u.startX, startY := u.startY)
    ensures v.enabled && v.mode.None? ==> u.mode.Some?
    ensures v.enabled && v.mode.None? && v.selection.None? ==> u.mode == Some(Creating)
    ensures v.enabled && v.mode.None? && u.mode == Some(Resizing) ==>
              && v.selection.Some? && u.handle.Some?
              && OnHandle(v.selection.value.display, u.handle.value, x, y)
              && forall h :: Rank(h) < Rank(u.handle.value) ==> !OnHandle(v.selection.value.display, h, x, y)
    ensures v.enabled && v.mode.None? && u.mode == Some(Moving) ==>
              && v.selection.Some?
              && (forall h :: !OnHandle(v.selection.value.display, h, x, y))
              && Contains(v.selection.value.display, x, y)
              && v.selection.value.display.x + u.startX == x
              && v.selection.value.display.y + u.startY == y
              && u.handle == v.handle
    ensures v.enabled && v.mode.None? && u.mode == Some(Creating) ==>
              && (v.selection.Some? ==>
                    && (forall h :: !OnHandle(v.selection.value.display, h, x, y))
                    && !Contains(v.selection.value.display, x, y))
              && u.startX == x && u.startY == y
              && u.handle == v.handle
  {
    if v.enabled && v.mode.None? then
      var hit := HandleAt(Display(v), x, y);
      if hit.Some? then
        v.(mode := Some(Resizing), handle := hit)
      else if v.selection.Some? && Contains(v.selection.value.display, x, y) then
        var d := v.selection.value.display;
        v.(mode := Some(Moving), startX := x - d.x, startY := y - d.y)
      else
        v.(mode := Some(Creating), startX := x, startY := y)
    else
      v
  }

  /** `mouseDragged`: in an enabled view, feed the rectangle the gesture implies to
      `SetScaledSelection`. Resizing moves the active handle's edges to the pointer, moving
      keeps the size and places the corner at the pointer less the remembered offset, and
      creating spans from the anchor to the pointer. */
  function Drag(v: View, x: int, y: int): (u: View)
    requires v.mode == Some(Resizing) || v.mode == Some(Moving) ==> v.selection.Some?
    requires v.enabled && v.mode.Some? ==> v.scaling.x.IsInvertible() && v.scaling.y.IsInvertible()
    ensures !v.enabled || v.mode.None? ==> u == v
    ensures u == v.(selection := u.selection, handle := u.handle)
    ensures v.enabled && v.mode == Some(Resizing) && v.handle.Some? ==>
              var r := DragHandle(v.selection.value.display, v.handle.value, x, y);
              && u.selection.Some? && Covers(u.selection.value.display, r)
              && u.selection.value.source == Unproject(v.scaling, r)
              && u.handle == Opposing(r, v.handle)
    ensures v.enabled && v.mode == Some(Moving) ==>
              var d := v.selection.value.display;
              var r := Rect(x - v.startX, y - v.startY, d.width, d.height);
              && u.selection.Some? && Covers(u.selection.value.display, r)
              && u.selection.value.source == Unproject(v.scaling, r)
              && u.handle == Opposing(r, v.handle)
              && (d.IsNormal() ==> u.handle == v.handle)
    ensures v.enabled && v.mode == Some(Creating) ==>
              var r := Rect(v.startX, v.startY, x - v.startX, y - v.startY);
              && u.selection.Some? && Covers(u.selection.value.display, r)
              && u.selection.value.source == Unproject(v.scaling, r)
              && u.handle == Opposing(r, v.handle)
  {
    if !v.enabled then v
    else match v.mode
      case None => v
      case Some(Resizing) =>
        (match v.handle
         case None => v
         case Some(h) => SetScaledSelection(v, DragHandle(v.selection.value.display, h, x, y)))
      case Some(Moving) =>
        var d := v.selection.value.display;
        SetScaledSelection(v, Rect(x - v.startX, y - v.startY, d.width, d.height))
      case Some(Creating) =>
        SetScaledSelection(v, Rect(v.startX, v.startY, x - v.startX, y - v.startY))
  }

  /** `mouseReleased`: ends any gesture and forgets the active handle; the selection stays. */
  function Release(v: View): (u: View)
    ensures u.mode.None? && u.handle.None?
    ensures u.selection == v.selection && u.scaling == v.scaling && u.frame == v.frame
    ensures u.enabled == v.enabled && u.surface == v.surface
  {
    v.(mode := None, handle := None)
  }

  /** The inputs the view reacts to. */
  datatype Event =
    | Pressed(px: int, py: int)
    | Dragged(dx: int, dy: int)
    | Released
    | FrameArrived(image: Extent)
    | ComponentResized(newSurface: Surface)
    | SelectionSet(rect: Option<Rect>)
    | SelectionEnabled(on: bool)

  /** The conditions under which the Java code computes with well-defined values: frames have
      positive dimensions, the component's content area is not negative when a frame is
      scaled into it, a selection is set in image coordinates only after a frame has been
      scaled, and a drag is not back-projected through a zero scaled extent. */
  predicate Allowed(v: View, e: Event)
  {
    match e
    case Dragged(_, _) =>
      v.enabled && v.mode.Some? ==> v.scaling.x.IsInvertible() && v.scaling.y.IsInvertible()
    case FrameArrived(image) =>
      image.IsPositive() && (NeedsRescale(v.frame, image) ==> v.surface.HasContent())
    case ComponentResized(surface) => v.frame.Some? ==> surface.HasContent()
    case SelectionSet(r) => r.Some? ==> v.frame.Some?
    case _ => true
  }

  function Step(v: View, e: Event): View
    requires Wf(v) && Allowed(v, e)
  {
    match e
    case Pressed(x, y) => Press(v, x, y)
    case Dragged(x, y) => Drag(v, x, y)
    case Released => Release(v)
    case FrameArrived(image) => FrameReceived(v, image)
    case ComponentResized(surface) => Resized(v, surface)
    case SelectionSet(r) => SetSelection(v, r)
    case SelectionEnabled(on) => SetSelectionEnabled(v, on)
  }

  /** Rescaling keeps the invariant. */
  lemma RecalculatePreservesWf(v: View)
    requires v.frame.Some? ==> v.frame.value.IsPositive() && v.surface.HasContent()
    requires Wf(v.(scaling := if v.frame.Some? then Calculate(v.frame.value, v.surface) else v.scaling))
    ensures Wf(RecalculateScaling(v))
  {
  }

  /** Every event keeps the invariant, so every state reached from `Initial` satisfies it. */
  lemma StepPreservesWf(v: View, e: Event)
    requires Wf(v) && Allowed(v, e)
    ensures Wf(Step(v, e))
  {
    match e
    case FrameArrived(image) =>
      if NeedsRescale(v.frame, image) {
        RecalculatePreservesWf(v.(frame := Some(image)));
      }
    case ComponentResized(surface) =>
      RecalculatePreservesWf(v.(surface := surface));
    case _ =>
  }

  /** A sequence of events each of which is allowed in the state the earlier ones lead to.
      Well-formedness is assumed of the starting state only: the later states are the ones
      `Step` produces from it. */
  predicate AllowedRun(v: View, events: seq<Event>)
    decreases |events|
  {
    |events| == 0 ||
    (Allowed(v, events[0]) && (Wf(v) ==> AllowedRun(Step(v, events[0]), events[1..])))
  }

  /** The state after delivering the events in order, as the Swing event thread does. */
  function Run(v: View, events: seq<Event>): View
    requires Wf(v) && AllowedRun(v, events)
    decreases |events|
  {
    if |events| == 0 then v
    else
      StepPreservesWf(v, events[0]);
      Run(Step(v, events[0]), events[1..])
  }

  /** Every state reached from a well-formed one by allowed events is well-formed. */
  lemma {:induction false} RunPreservesWf(v: View, events: seq<Event>)
    requires Wf(v) && AllowedRun(v, events)
    ensures Wf(Run(v, events))
    decreases |events|
  {
    if |events| > 0 {
      StepPreservesWf(v, events[0]);
      RunPreservesWf(Step(v, events[0]), events[1..]);
    }
  }

  /** Every state reachable from the component's initial state is well-formed. */
  lemma ReachableIsWf(events: seq<Event>)
    requires AllowedRun(Initial, events)
    ensures Wf(Run(Initial, events))
  {
    InitialIsWf();
    RunPreservesWf(Initial, events);
  }

  /** While resizing, a drag keeps the handle the user holds under the pointer: after the
      handle swap, the active handle's edges lie at the pointer, the edges opposite them stay
      where they were, and an axis the handle does not own keeps its position and extent. */
  lemma ResizeKeepsHandleUnderPointer(v: View, x: int, y: int)
    requires Wf(v) && v.enabled && v.mode == Some(Resizing)
    requires v.scaling.x.IsInvertible() && v.scaling.y.IsInvertible()
    ensures var u := Drag(v, x, y);
            var d := v.selection.value.display;
            var h := v.handle.value;
            var n := u.selection.value.display;
            var o := u.handle.value;
            && u.mode == Some(Resizing)
            && (Column(o) == -1 ==> n.x == x && n.Right() == Max(x, FixedX(d, h)))
            && (Column(o) == 1 ==> n.Right() == x && n.x == Min(x, FixedX(d, h)))
            && (Column(o) == 0 ==> n.x == d.x && n.width == d.width)
            && (Row(o) == -1 ==> n.y == y && n.Bottom() == Max(y, FixedY(d, h)))
            && (Row(o) == 1 ==> n.Bottom() == y && n.y == Min(y, FixedY(d, h)))
            && (Row(o) == 0 ==> n.y == d.y && n.height == d.height)
  {
    var d := v.selection.value.display;
    var h := v.handle.value;
    var r := DragHandle(d, h, x, y);
    DragKeepsHandleUnderPointer(d, h, x, y);
    CoversUnique(Drag(v, x, y).selection.value.display, Normalize(r), r);
  }

  /** A move gesture translates the displayed selection by exactly the pointer's travel since
      the press, keeping its size and the active handle. */
  lemma MoveFollowsPointer(v: View, px: int, py: int, x: int, y: int)
    requires Wf(v) && v.enabled && v.mode.None?
    requires Press(v, px, py).mode == Some(Moving)
    requires v.scaling.x.IsInvertible() && v.scaling.y.IsInvertible()
    ensures var d := v.selection.value.display;
            var u := Drag(Press(v, px, py), x, y);
            && u.selection.value.display == Rect(d.x + (x - px), d.y + (y - py), d.width, d.height)
            && u.handle == v.handle
  {
    var d := v.selection.value.display;
    var p := Press(v, px, py);
    var r := Rect(x - p.startX, y - p.startY, d.width, d.height);
    CoversUnique(Drag(p, x, y).selection.value.display, r, r);
  }

  /** A create gesture started with no active handle displays the normalised rectangle
      spanned by the press point and the pointer, and leaves the handle unset. */
  lemma CreateSpansAnchorAndPointer(v: View, px: int, py: int, x: int, y: int)
    requires Wf(v) && v.enabled && v.mode.None? && v.handle.None?
    requires Press(v, px, py).mode == Some(Creating)
    requires v.scaling.x.IsInvertible() && v.scaling.y.IsInvertible()
    ensures var u := Drag(Press(v, px, py), x, y);
            && u.selection.value.display == Rect(Min(px, x), Min(py, y), Abs(x - px), Abs(y - py))
            && u.handle.None?
  {
    var r := Rect(px, py, x - px, y - py);
    CoversUnique(Drag(Press(v, px, py), x, y).selection.value.display, Rect(Min(px, x), Min(py, y), Abs(x - px), Abs(y - py)), r);
  }
}
