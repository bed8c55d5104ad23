/**
 * Concrete runs of the model: the scaling examples, a resize that flips the
 * handle, a create gesture dragged up and to the left, and a rescale in the
 * middle of a resize gesture.
 */
module Scenarios {
  import opened Options
  import opened JavaArith
  import opened Geometry
  import opened CoordinateMapping
  import opened CameraView

  const NoInsets := Insets(0, 0, 0, 0)

  /** A 4:3 frame twice the size of a 4:3 component fills it exactly. */
  lemma ScaleMatchingAspect()
    ensures Calculate(Extent(1600, 1200), Surface(800, 600, NoInsets))
            == Scaling(Axis(0, 1600, 800), Axis(0, 1200, 600))
  {
    assert FitExtents(Extent(1600, 1200), 800, 600) == (800, 600);
    assert CentredOrigin(0, 800, 800) == 0 && CentredOrigin(0, 600, 600) == 0;
  }

  /** A 2:1 frame in a 4:3 component is width-constrained and centred vertically. */
  lemma ScaleWiderFrame()
    ensures Calculate(Extent(1000, 500), Surface(800, 600, NoInsets))
            == Scaling(Axis(0, 1000, 800), Axis(100, 500, 400))
  {
    assert FitExtents(Extent(1000, 500), 800, 600) == (800, 400);
    assert CentredOrigin(0, 800, 800) == 0 && CentredOrigin(0, 600, 400) == 100;
  }

  /** Dragging the E handle of (10,10,100,50) to x = 5 crosses the left edge: the displayed
      rectangle becomes (5,10,5,50) and the W handle becomes the active one. */
  lemma ResizeEastPastLeftEdge()
    ensures Normalize(DragHandle(Rect(10, 10, 100, 50), E, 5, 30)) == Rect(5, 10, 5, 50)
    ensures Opposing(DragHandle(Rect(10, 10, 100, 50), E, 5, 30), Some(E)) == Some(W)
  {
  }

  /** An enabled, idle view showing an 800x600 frame at full size, without a selection. */
  const Idle := View(true, Surface(800, 600, NoInsets), Some(Extent(800, 600)),
                     Scaling(Axis(0, 800, 800), Axis(0, 600, 600)), None, None, None, 0, 0)

  /** Creating from (100,100) to (50,60): the display shows (50,60,50,40), while the image
      selection keeps the signed (100,100,-50,-40) and no handle becomes active. */
  lemma CreateUpLeftKeepsSignedSource()
    ensures Wf(Idle)
    ensures var u := Drag(Press(Idle, 100, 100), 50, 60);
            && u.selection == Some(Selection(Rect(100, 100, -50, -40), Rect(50, 60, 50, 40)))
            && u.handle.None?
            && u.mode == Some(Creating)
  {
  }

  /** Resizing with E on (10,10,100,50) at full scale, dragged to x = 5. */
  const Grabbed := Idle.(selection := Some(Selection(Rect(10, 10, 100, 50), Rect(10, 10, 100, 50))),
                         mode := Some(Resizing), handle := Some(E))

  const MidResize := Drag(Grabbed, 5, 30)

  /** The drag flips E to W and leaves the image selection signed. */
  lemma MidResizeState()
    ensures MidResize.handle == Some(W) && MidResize.mode == Some(Resizing) && MidResize.enabled
    ensures MidResize.frame == Some(Extent(800, 600))
    ensures MidResize.selection == Some(Selection(Rect(10, 10, -5, 50), Rect(5, 10, 5, 50)))
  {
    var full := Scaling(Axis(0, 800, 800), Axis(0, 600, 600));
    var r := Rect(10, 10, -5, 50);
    assert DragHandle(Rect(10, 10, 100, 50), E, 5, 30) == r;
    assert MidResize == SetScaledSelection(Grabbed, r);
    assert TruncDiv((10 - 0) * 800, 800) == 10 && TruncDiv((10 - 0) * 600, 600) == 10;
    assert TruncDiv(-5 * 800, 800) == -5 && TruncDiv(50 * 600, 600) == 50;
    assert Unproject(full, r) == r;
    assert Normalize(r) == Rect(5, 10, 5, 50);
  }

  /** The 800x600 frame in a 400x300 component is drawn at half size. */
  lemma HalveFrame()
    ensures Calculate(Extent(800, 600), Surface(400, 300, NoInsets))
            == Scaling(Axis(0, 800, 400), Axis(0, 600, 300))
  {
    assert FitExtents(Extent(800, 600), 400, 300) == (400, 300);
    assert CentredOrigin(0, 400, 400) == 0 && CentredOrigin(0, 300, 300) == 0;
  }

  /** At half scale the image rectangle (5,10,5,50) is shown as (2,5,2,25). */
  lemma HalfScaleProjection()
    ensures Project(Scaling(Axis(0, 800, 400), Axis(0, 600, 300)), Rect(5, 10, 5, 50)) == Rect(2, 5, 2, 25)
  {
    assert TruncDiv(0 * 800 + 5 * 400, 800) == 2 && TruncDiv(0 * 600 + 10 * 300, 600) == 5;
    assert TruncDiv(5 * 400, 800) == 2 && TruncDiv(50 * 300, 600) == 25;
  }

  /** Re-storing the signed (10,10,-5,50) held with the W handle at half scale swaps the
      handle back to E and normalises and re-projects the selection. */
  lemma StoreSignedAtHalfScale(w: View)
    requires w.handle == Some(W) && w.scaling == Scaling(Axis(0, 800, 400), Axis(0, 600, 300))
    ensures var u := SetSelection(w, Some(Rect(10, 10, -5, 50)));
            && u.handle == Some(E)
            && u.selection == Some(Selection(Rect(5, 10, 5, 50), Rect(2, 5, 2, 25)))
  {
    HalfScaleProjection();
    var u := SetSelection(w, Some(Rect(10, 10, -5, 50)));
    CoversUnique(u.selection.value.source, Rect(5, 10, 5, 50), Rect(10, 10, -5, 50));
  }

  /** Halving the component re-stores a signed image selection (10,10,-5,50) held with the W
      handle: the handle swaps back to E and the selection is normalised and re-projected. */
  lemma RescaleSwapsSignedHandle(v: View)
    requires v.enabled && v.handle == Some(W) && v.frame == Some(Extent(800, 600))
    requires v.selection == Some(Selection(Rect(10, 10, -5, 50), Rect(5, 10, 5, 50)))
    ensures var u := Resized(v, Surface(400, 300, NoInsets));
            && u.handle == Some(E)
            && u.selection == Some(Selection(Rect(5, 10, 5, 50), Rect(2, 5, 2, 25)))
  {
    var s := Surface(400, 300, NoInsets);
    HalveFrame();
    var w := v.(surface := s, scaling := Calculate(Extent(800, 600), s));
    ResizedRestores(v, s);
    StoreSignedAtHalfScale(w);
  }

  /** A component resize in the middle of the E-to-W resize re-stores the still signed image
      selection, which swaps the active handle back to E although the pointer is at the
      selection's left edge. */
  lemma RescaleMidResizeSwapsHandleBack()
    ensures var u := Resized(MidResize, Surface(400, 300, NoInsets));
            && u.handle == Some(E)
            && u.selection == Some(Selection(Rect(5, 10, 5, 50), Rect(2, 5, 2, 25)))
  {
    MidResizeState();
    RescaleSwapsSignedHandle(MidResize);
  }
}
