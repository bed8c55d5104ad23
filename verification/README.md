# Selection engine of OpenPnP's camera view

OpenPnP's `CameraView` shows live camera frames scaled into a Swing component. It lets
the user draw, move and resize a rectangular selection over the image. This project models
the part of `CameraView` that does the geometry and handles pointer gestures, and proves
properties of that model:

- **Fit-and-centre scaling** (`calculateScalingData`). The frame is fitted into the
  component's content area with its aspect ratio kept, and centred. Each axis records the
  origin and the two extents whose quotient is the Java scale ratio.
- **Selection geometry.** `normalizeRectangle` turns a signed rectangle into a
  non-negative one. `getOpposingHandle` swaps the active handle when a drag flips an axis.
  The per-handle resize formulas of `mouseDragged` are modelled too.
- **Hit-testing** (`isWithin`, `isWithinHandle`, `getSelectionHandleAtPosition`). These
  find the handle under the pointer in a fixed priority order.
- **Two-way projection** (`setSelection`, `setScaledSelection`). These convert the
  selection between image coordinates (`selection`) and component coordinates
  (`selectionScaled`).
- **Gesture state machine** (`mousePressed`, `mouseDragged`, `mouseReleased`). A gesture
  moves from idle to Creating, Moving or Resizing, and back to idle on release.
- **Rescale triggers** (`frameReceived`, `componentResized`).

The modules follow the structure of the engine:

- `JavaArith` holds Java's round-toward-zero division and floor-division facts.
- `Geometry` holds `Rect`, `Handle`, `Normalize`, `Opposing` and `DragHandle`.
- `HitTest` holds the hit-testing functions.
- `CoordinateMapping` holds `Calculate` and the projections, with bounded round-trip
  lemmas.
- `CameraView` holds the `View` state record, the setters, the rescale, the
  press/drag/release transitions, an `Event`/`Step` machine with its invariant `Wf`, and
  the gesture lemmas.
- `Scenarios` holds worked examples.

Some modelling decisions:

- **Selection pair.** `selection` and `selectionScaled` are kept together as one
  `Option<Selection(source, display)>`. The Java code reads `selectionScaled` only while
  `selection` is non-null, so the stale value that `setSelection(null)` leaves behind
  cannot be observed.
- **Scale ratios.** The Java code keeps the ratios as `double`. The model keeps them as
  exact quotients of integers. Every `(int)` cast and every Java int division is
  `TruncDiv`, which rounds toward zero.
- **Scaling before the first frame.** Until the first frame arrives, the scaling fields
  hold their Java defaults (`Unscaled`). A drag in that state back-projects through the
  ratio 0.0, so it gives zeros, and the model does the same.

Behaviour of the code that the model keeps:

- **Creating never sets a handle.** A Creating press never sets `selectionActiveHandle`,
  so dragging up and to the left leaves the handle null rather than turning NW into SE
  (`Scenarios.CreateUpLeftKeepsSignedSource`).
- **The image selection can stay signed.** `setScaledSelection` normalises only the
  displayed rectangle. The image-space selection is built from the signed arguments, so
  after a drag up or to the left it keeps a negative width or height until the next
  `setSelection`.
- **A rescale mid-resize swaps the handle back.** A rescale during a resize gesture
  re-stores the signed image selection through `setSelection`. That call swaps the active
  handle a second time, so after a flip the handle returns to the side away from the
  pointer (`Scenarios.RescaleMidResizeSwapsHandleBack`).
- **Projection without a mapping.** `setSelection` projects the selection even before the
  first frame has set the ratios. The model excludes that case (see Left out).
- **Round trips.** The one-unit bound for the trip image → component → image is proved only
  where the frame is not shrunk (`SourceRoundTrip`). Where it is shrunk, the trip can miss by
  more than one: at ratio 19/10, 3 → 1 → 1 (`CoordinateMapping.ShrunkTripMissesByTwo`). The
  trip component → image → component is within one unit where the frame is shrunk
  (`DisplayRoundTrip`).

## Model

| member | source | states |
|---|---|---|
| `Geometry.Normalize` | gui/src/main/java/org/openpnp/gui/components/CameraView.java:633-644 | The result has non-negative width and height. On each axis it spans exactly [min(x, x+w), max(x, x+w)] of the signed input. A rectangle that is already non-negative comes back unchanged. |
| `Geometry.NormalizeIdempotent` | gui/src/main/java/org/openpnp/gui/components/CameraView.java:633-644 | Normalising twice is the same as normalising once. |
| `Geometry.Opposing` | gui/src/main/java/org/openpnp/gui/components/CameraView.java:690-747 | A null handle stays null, and a non-negative rectangle keeps the handle. Otherwise the handle becomes its mirror image across each negative axis, checked against an independent grid-reflection definition (`Mirror`). The exception: when both extents are negative, the four edge handles N, E, S and W stay unchanged. |
| `Geometry.OpposingInvolution` | gui/src/main/java/org/openpnp/gui/components/CameraView.java:690-747 | Swapping twice against the same rectangle gives back the original handle, including null. |
| `Geometry.DragHandle` | gui/src/main/java/org/openpnp/gui/components/CameraView.java:941-967 | For each handle, the edges it owns move to the pointer and the opposite edges stay at their old positions. An axis the handle does not own keeps its position and extent. |
| `Geometry.DragKeepsHandleUnderPointer` | gui/src/main/java/org/openpnp/gui/components/CameraView.java:935-967 | Drag a handle of a normalised rectangle, then normalise and swap the handle. The new active handle's edges are at the pointer, the fixed edge is the far end of the span, and the handle lands on the side of the fixed edge where the pointer is. |
| `HitTest.IsWithinHandle` | gui/src/main/java/org/openpnp/gui/components/CameraView.java:608-616 | True exactly when the point is at most 4 away from the handle centre on both axes, with inclusive bounds. |
| `HitTest.HandleAt` | gui/src/main/java/org/openpnp/gui/components/CameraView.java:557-596 | With no selection, no handle. Otherwise it returns a handle the point hits, and no handle earlier in the order NW, NE, SW, SE, N, E, S, W is hit. It returns none only when no handle is hit. Handle centres are the corners and the midpoints, rounded toward zero. |
| `CoordinateMapping.Calculate` | gui/src/main/java/org/openpnp/gui/components/CameraView.java:356-374 | Scaled extents lie between 0 and the content extents, and one of them equals its content extent. The image is height-constrained exactly when srcH·destW > srcW·destH, and the other side is then the largest integer that does not exceed the aspect ratio. The origin is at least the inset, the image ends inside the content area, and the two side gaps differ by at most one. |
| `CoordinateMapping.HeightConstrainedIffRatio` | gui/src/main/java/org/openpnp/gui/components/CameraView.java:356-359 | The integer branch test is equivalent to Java's comparison heightRatio > widthRatio. |
| `CoordinateMapping.ToDisplay` | gui/src/main/java/org/openpnp/gui/components/CameraView.java:775-776 | The component coordinate is the exact position imageX + v·scaled/source, rounded toward zero. |
| `CoordinateMapping.ToDisplayLength` | gui/src/main/java/org/openpnp/gui/components/CameraView.java:777-778 | A non-negative image length becomes the largest component length not exceeding len·scaled/source. |
| `CoordinateMapping.ToSource` | gui/src/main/java/org/openpnp/gui/components/CameraView.java:798-799 | The image coordinate is the exact (d − imageX)·source/scaled, rounded toward zero. Before any scaling it is 0. |
| `CoordinateMapping.ToSourceLength` | gui/src/main/java/org/openpnp/gui/components/CameraView.java:800-801 | A signed component length becomes an image length with the same sign or zero. Its magnitude is the exact magnitude rounded down. |
| `CoordinateMapping.Project` | gui/src/main/java/org/openpnp/gui/components/CameraView.java:775-779 | Projecting a non-negative image rectangle gives a non-negative component rectangle. |
| `CoordinateMapping.Unproject` | gui/src/main/java/org/openpnp/gui/components/CameraView.java:798-803 | The back-projection is negative on an axis only where the component rectangle was. |
| `CoordinateMapping.ProjectInsideImage` | gui/src/main/java/org/openpnp/gui/components/CameraView.java:775-778 | A span inside the frame is drawn inside the scaled image [origin, origin + scaled]. |
| `CoordinateMapping.UnprojectInsideImage` | gui/src/main/java/org/openpnp/gui/components/CameraView.java:798-801 | A component span inside the scaled image maps back inside the frame [0, source]. |
| `CoordinateMapping.ShrunkTripMissesByTwo` | gui/src/main/java/org/openpnp/gui/components/CameraView.java:775-801 | At a shrinking ratio of 19/10, image coordinate 3 is drawn at 1 and read back as 1, so the image → component → image trip can miss by two. |
| `CoordinateMapping.DisplayRoundTrip` | gui/src/main/java/org/openpnp/gui/components/CameraView.java:775-799 | Where the ratio is at least one, a component coordinate over the image comes back from image space within one pixel, never to the right. |
| `CoordinateMapping.SourceRoundTrip` | gui/src/main/java/org/openpnp/gui/components/CameraView.java:775-799 | Where the ratio is at most one, an image coordinate comes back from component space within one pixel, never to the right. |
| `CameraView.InitialIsWf` | gui/src/main/java/org/openpnp/gui/components/CameraView.java:142-156 | The freshly constructed view satisfies the invariant. |
| `CameraView.SetSelection` | gui/src/main/java/org/openpnp/gui/components/CameraView.java:766-781 | Null clears the selection and the mode and changes nothing else. Otherwise: the handle is swapped against the signed argument; the stored image rectangle is non-negative and covers the argument's region; the displayed rectangle is its projection and is non-negative. Nothing else changes. |
| `CameraView.SetScaledSelection` | gui/src/main/java/org/openpnp/gui/components/CameraView.java:792-804 | The handle is swapped against the signed argument. The displayed rectangle is non-negative and covers the argument's region. The image rectangle is the back-projection of the signed argument. Nothing else changes. |
| `CameraView.RecalculateScaling` | gui/src/main/java/org/openpnp/gui/components/CameraView.java:337-383 | Without a frame nothing changes. Otherwise the scaling is recomputed for the frame and the surface. An enabled selection is re-stored normalised over the same region and re-projected with the new scaling, with its handle swapped against the stored rectangle. Only the scaling, selection and handle change. |
| `CameraView.FrameReceived` | gui/src/main/java/org/openpnp/gui/components/CameraView.java:320-329 | The frame is recorded. A frame with the same dimensions as the previous one changes nothing else. The first frame, or one with new dimensions, recomputes the scaling for it. An enabled selection is then re-stored normalised over the same image region, re-projected with the new scaling, and the handle is swapped against the stored rectangle. Otherwise selection and handle are kept, and mode, enabled flag, surface and press point never change. |
| `CameraView.Resized` | gui/src/main/java/org/openpnp/gui/components/CameraView.java:987-992 | The new surface is recorded, and with a frame the scaling is recomputed for it. An enabled selection is re-stored and re-projected with its handle swapped against the stored rectangle. Otherwise selection and handle are kept, and mode, enabled flag, frame and press point never change. |
| `CameraView.SetSelectionEnabled` | gui/src/main/java/org/openpnp/gui/components/CameraView.java:810-812 | Only the enabled flag changes. |
| `CameraView.Press` | gui/src/main/java/org/openpnp/gui/components/CameraView.java:881-914 | A press acts only on an enabled, idle view, and then always starts a gesture; only the mode, handle and start point change. Resizing happens exactly when a handle is hit, and the first such handle in priority order becomes active. Moving happens when no handle is hit and the point is inside the selection, and records the offset from its corner. Otherwise, and always without a selection, the gesture is Creating with the press as anchor. Neither Moving nor Creating touches the handle. |
| `CameraView.Drag` | gui/src/main/java/org/openpnp/gui/components/CameraView.java:930-984 | A disabled or idle view is unchanged, and only the selection and handle change. Resizing displays the region of the handle's resize formula. Moving keeps the size at pointer − offset, and keeps the handle when the displayed selection is normalised. Creating spans anchor to pointer. In every branch the image selection is the back-projection of the signed rectangle, and the handle is swapped against that rectangle. |
| `CameraView.Release` | gui/src/main/java/org/openpnp/gui/components/CameraView.java:917-920 | The mode and the handle become null. The selection, scaling, frame and flags are kept. |
| `CameraView.FrameReceivedRestores` | gui/src/main/java/org/openpnp/gui/components/CameraView.java:323-327 | A frame with new dimensions arriving at an enabled view with a selection is the same as re-storing the image-space selection under the scaling computed for that frame. |
| `CameraView.ResizedRestores` | gui/src/main/java/org/openpnp/gui/components/CameraView.java:379-382 | A resize of an enabled view with a selection is the same as re-storing the image-space selection under the scaling computed for the new surface. |
| `CameraView.RecalculatePreservesWf` | gui/src/main/java/org/openpnp/gui/components/CameraView.java:379-382 | Rescaling keeps the view invariant: the scaling matches the frame, the display is non-negative, and Resizing or Moving has a selection and, for Resizing, a handle. |
| `CameraView.StepPreservesWf` | gui/src/main/java/org/openpnp/gui/components/CameraView.java:881-984 | Every press, drag, release, frame, resize, programmatic set and enable keeps the invariant, so every state reachable from construction satisfies it. |
| `CameraView.RunPreservesWf` | gui/src/main/java/org/openpnp/gui/components/CameraView.java:881-992 | Any sequence of press, drag, release, frame, resize and selection events, each allowed in the state where it arrives, leads from a well-formed view to a well-formed view. Only the starting state is assumed well-formed. |
| `CameraView.ReachableIsWf` | gui/src/main/java/org/openpnp/gui/components/CameraView.java:142-156 | Every state the component reaches from its initial field values through allowed events satisfies the invariant. |
| `CameraView.ResizeKeepsHandleUnderPointer` | gui/src/main/java/org/openpnp/gui/components/CameraView.java:935-967 | During a resize gesture, a drag leaves the swapped active handle's edges at the pointer. The opposite edges stay fixed, and an axis the handle does not own is untouched. |
| `CameraView.MoveFollowsPointer` | gui/src/main/java/org/openpnp/gui/components/CameraView.java:897-973 | A move gesture translates the displayed selection by exactly the pointer's travel since the press. The size and the handle are kept. |
| `CameraView.CreateSpansAnchorAndPointer` | gui/src/main/java/org/openpnp/gui/components/CameraView.java:906-980 | A create gesture displays the normalised rectangle between the press point and the pointer. The handle stays null. |
| `Scenarios.ScaleMatchingAspect` | gui/src/main/java/org/openpnp/gui/components/CameraView.java:356-374 | A 1600×1200 frame in an 800×600 component is drawn 800×600 at (0,0). |
| `Scenarios.ScaleWiderFrame` | gui/src/main/java/org/openpnp/gui/components/CameraView.java:356-374 | A 1000×500 frame in an 800×600 component is drawn 800×400 at (0,100). |
| `Scenarios.ResizeEastPastLeftEdge` | gui/src/main/java/org/openpnp/gui/components/CameraView.java:951-952 | Dragging E of (10,10,100,50) to x = 5 displays (5,10,5,50), with W as the active handle. |
| `Scenarios.CreateUpLeftKeepsSignedSource` | gui/src/main/java/org/openpnp/gui/components/CameraView.java:974-980 | Creating from (100,100) to (50,60) at full scale displays (50,60,50,40). The image selection is the signed (100,100,−50,−40) and no handle is active. |
| `Scenarios.MidResizeState` | gui/src/main/java/org/openpnp/gui/components/CameraView.java:792-804 | After that E-to-W flip the image selection is still signed. |
| `Scenarios.HalveFrame` | gui/src/main/java/org/openpnp/gui/components/CameraView.java:356-374 | An 800×600 frame in a 400×300 component is drawn 400×300 at (0,0). |
| `Scenarios.StoreSignedAtHalfScale` | gui/src/main/java/org/openpnp/gui/components/CameraView.java:766-781 | At half scale, storing the signed (10,10,−5,50) with handle W gives handle E, image selection (5,10,5,50) and display (2,5,2,25). |
| `Scenarios.RescaleSwapsSignedHandle` | gui/src/main/java/org/openpnp/gui/components/CameraView.java:987-992 | Halving the component while that signed selection is held with W gives handle E and the normalised, re-projected selection. |
| `Scenarios.RescaleMidResizeSwapsHandleBack` | gui/src/main/java/org/openpnp/gui/components/CameraView.java:379-382 | Halving the component during that resize re-stores the signed selection and swaps the handle back to E. |

## Left out

- Painting is left out, because it is Swing/Graphics2D rendering: `paintComponent`, `paintSelection`, `paintOutline`, `drawHandle`, `drawTextOverlay`, the reticle and the outline rotation.
- Camera wiring is left out, because it is frame I/O: `setCamera`, `setMaximumFps`, and the image copy and flash of `captureSelectionImage`. Only a frame's dimensions enter the model.
- The dash and flash animation on the scheduled executor, the busy-wait in `captureSelectionImage`, and the `synchronized` keywords are left out as concurrency. Each modelled operation is one atomic step.
- Cursor feedback is left out, because it is an AWT lookup plus `getMousePosition`: `getCursorForHandlePosition`, `updateCursor` and `mouseMoved`. So is `mouseClicked`, which only shows the popup menu.
- Physical units are left out, because they are floating-point values from the camera and `String.format`: `scaledUnitsPerPixelX/Y` and `pixelsAndUnitsTextSelectionDelegate`. So are the reticle preferences.
- `setSelection(int, int, int, int)` and `getSelection` are left out as plumbing: the first is `SetSelection` of `Some(Rect(...))`, the second reads `selection`.
- Floating-point rounding is left out: the ratios and products are exact rationals here. A `double` product such as `scaledHeight * aspectRatio` can land just below an integer, so Java's cast may be one less than the model's.
- Java `int` overflow is left out, including negating `Integer.MIN_VALUE` in `normalizeRectangle`; integers are unbounded.
- `CameraView.SetSelection` requires a computed scaling. Before the first frame, Java divides by a ratio of 0.0 and casts an infinite or NaN value.
- `CameraView.Drag` requires an invertible scaling. A frame scaled to a zero extent (a zero-size component, or an extreme aspect ratio) makes the ratio infinite, and a drag then casts infinite or NaN values.
- `CoordinateMapping.Calculate` requires a content area that is not negative. Insets larger than the component give Java negative ratios.
- `CameraView.RecalculateScaling` assumes a camera is attached. `calculateScalingData` reads `camera.getUnitsPerPixel()` after writing the scaling fields and before re-storing the selection. With a frame kept but the camera set to null, Java throws a NullPointerException there and leaves the displayed selection projected with the old scaling. The model always re-stores it.
- `CameraView.Resized` is the only operation that updates the component's size and insets (`surface`). Java reads `getWidth()`, `getHeight()` and `getInsets()` live whenever it rescales, so a border change without a resize event makes Java's next rescale differ from the model's.
- `java.awt.Rectangle.contains` is JDK code and is not part of this model. `HitTest.Contains` stands in for it with its documented half-open behaviour, and no property depends on its boundary cases.
