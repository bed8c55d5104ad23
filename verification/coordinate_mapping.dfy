/**
 * The mapping between image pixels and component pixels (`calculateScalingData`
 * and the conversions in `setSelection` / `setScaledSelection`). The Java code
 * keeps the ratios as doubles; here each axis keeps the two integers the ratio
 * is made of, so every conversion is an exact rational rounded toward zero as
 * the `(int)` cast rounds it.
 */
module CoordinateMapping {
  import opened Options
  import opened JavaArith
  import opened Geometry

  /** Width and height of a camera frame. */
  datatype Extent = Extent(width: int, height: int) {
    predicate IsPositive()
    {
      width > 0 && height > 0
    }
  }

  datatype Insets = Insets(top: int, left: int, bottom: int, right: int)

  /** The component the view paints into: its size and its border insets. */
  datatype Surface = Surface(width: int, height: int, insets: Insets) {

    function ContentWidth(): int
    {
      width - insets.left - insets.right
    }

    function ContentHeight(): int
    {
      height - insets.top - insets.bottom
    }

    predicate HasContent()
    {
      ContentWidth() >= 0 && ContentHeight() >= 0
    }
  }

  /** One axis of the mapping: `source` image pixels are drawn as `scaled` component pixels
      starting at component coordinate `origin`, so the scale ratio is source / scaled. */
  datatype Axis = Axis(origin: int, source: int, scaled: int) {

    /** The ratio has been computed from a frame. */
    predicate IsComputed()
    {
      source > 0 && scaled >= 0
    }

    /** Multiplying by the ratio is defined: either it is still Java's default 0.0 (nothing
        computed yet), or the scaled extent is not zero. */
    predicate IsInvertible()
    {
      (source == 0 && scaled == 0) || (source > 0 && scaled > 0)
    }
  }

  /** The cached scaling data: `imageX`, `lastSourceWidth` and `scaledWidth` on the x axis,
      and the same for y. */
  datatype Scaling = Scaling(x: Axis, y: Axis)

  /** The fields' default values, before any frame has been scaled. */
  const Unscaled := Scaling(Axis(0, 0, 0), Axis(0, 0, 0))

  /** `calculateScalingData`, integer part: fit the frame into the component's content area
      keeping its aspect ratio, and centre it. */
  function Calculate(image: Extent, surface: Surface): (sc: Scaling)
    requires image.IsPositive()
    requires surface.HasContent()
    ensures sc.x.source == image.width && sc.y.source == image.height
    ensures 0 <= sc.x.scaled <= surface.ContentWidth() && 0 <= sc.y.scaled <= surface.ContentHeight()
    ensures sc.x.scaled == surface.ContentWidth() || sc.y.scaled == surface.ContentHeight()
    ensures image.height * surface.ContentWidth() > image.width * surface.ContentHeight() ==>
              && sc.y.scaled == surface.ContentHeight()
              && sc.x.scaled * image.height <= sc.y.scaled * image.width < (sc.x.scaled + 1) * image.height
    ensures image.height * surface.ContentWidth() <= image.width * surface.ContentHeight() ==>
              && sc.x.scaled == surface.ContentWidth()
              && sc.y.scaled * image.width <= sc.x.scaled * image.height < (sc.y.scaled + 1) * image.width
    ensures surface.insets.left <= sc.x.origin
    ensures sc.x.origin + sc.x.scaled <= surface.insets.left + surface.ContentWidth()
    ensures Abs((surface.insets.left + surface.ContentWidth() - (sc.x.origin + sc.x.scaled))
                - (sc.x.origin - surface.insets.left)) <= 1
    ensures surface.insets.top <= sc.y.origin
    ensures sc.y.origin + sc.y.scaled <= surface.insets.top + surface.ContentHeight()
    ensures Abs((surface.insets.top + surface.ContentHeight() - (sc.y.origin + sc.y.scaled))
                - (sc.y.origin - surface.insets.top)) <= 1
  {
    var width := surface.ContentWidth();
    var height := surface.ContentHeight();
    var (scaledWidth, scaledHeight) := FitExtents(image, width, height);
    if image.height * width > image.width * height then
      FitBelow(height, image.width, image.height, width);
      CentreGaps(width, scaledWidth);
      CentreGaps(height, scaledHeight);
      Scaling(Axis(CentredOrigin(surface.insets.left, width, scaledWidth), image.width, scaledWidth),
              Axis(CentredOrigin(surface.insets.top, height, scaledHeight), image.height, scaledHeight))
    else
      FitBelow(width, image.height, image.width, height);
      CentreGaps(width, scaledWidth);
      CentreGaps(height, scaledHeight);
      Scaling(Axis(CentredOrigin(surface.insets.left, width, scaledWidth), image.width, scaledWidth),
              Axis(CentredOrigin(surface.insets.top, height, scaledHeight), image.height, scaledHeight))
  }

  /** The scaled extents: the constrained side takes the whole content extent and the other
      follows the aspect ratio, rounded toward zero by the `(int)` cast. */
  function FitExtents(image: Extent, width: int, height: int): (int, int)
    requires image.IsPositive()
  {
    if image.height * width > image.width * height then
      (TruncDiv(height * image.width, image.height), height)
    else
      (width, TruncDiv(width * image.height, image.width))
  }

  /** `ins.left + (width / 2) - (scaledWidth / 2)`: where the scaled image starts so that it
      is centred in the room. */
  function CentredOrigin(start: int, room: int, scaled: int): int
  {
    start + TruncDiv(room, 2) - TruncDiv(scaled, 2)
  }

  /** The side computed from the aspect ratio does not exceed the room available for it. */
  lemma FitBelow(fixed: int, num: int, den: int, room: int)
    requires fixed >= 0 && num > 0 && den > 0 && room >= 0
    requires den * room >= num * fixed
    ensures 0 <= TruncDiv(fixed * num, den) <= room
  {
    var q := TruncDiv(fixed * num, den);
    assert q * den <= fixed * num <= room * den;
    if q * den < (room + 1) * den {
      MulCancel(q, room + 1, den);
    }
  }

  /** Centring `scaled` in `room` leaves gaps on both sides that differ by at most one. */
  lemma CentreGaps(room: int, scaled: int)
    requires 0 <= scaled <= room
    ensures 0 <= TruncDiv(room, 2) - TruncDiv(scaled, 2)
    ensures TruncDiv(room, 2) - TruncDiv(scaled, 2) + scaled <= room
    ensures Abs((room - scaled - (TruncDiv(room, 2) - TruncDiv(scaled, 2)))
                - (TruncDiv(room, 2) - TruncDiv(scaled, 2))) <= 1
  {
    DivMonotone(scaled, room, 2);
  }

  /** The integer branch test of `Calculate` is Java's comparison of the two double ratios
      `heightRatio > widthRatio`, for a content area with both extents positive. */
  lemma HeightConstrainedIffRatio(image: Extent, width: int, height: int)
    requires image.IsPositive() && width > 0 && height > 0
    ensures image.height * width > image.width * height
            <==> (image.height as real / height as real) > (image.width as real / width as real)
  {
    var hr := image.height as real / height as real;
    var wr := image.width as real / width as real;
    var k := (width * height) as real;
    assert hr * k == (image.height * width) as real;
    assert wr * k == (image.width * height) as real;
    RealScale(hr, wr, k);
  }

  /** `imageX + x / scaleRatioX` cast to int: image coordinate `v` in component pixels. */
  function ToDisplay(a: Axis, v: int): (d: int)
    requires a.IsComputed()
    ensures a.origin * a.source + v * a.scaled >= 0 ==>
              d * a.source <= a.origin * a.source + v * a.scaled < (d + 1) * a.source
    ensures a.origin * a.source + v * a.scaled < 0 ==>
              (d - 1) * a.source < a.origin * a.source + v * a.scaled <= d * a.source
  {
    TruncDiv(a.origin * a.source + v * a.scaled, a.source)
  }

  /** `length / scaleRatioX` cast to int: an image length in component pixels. */
  function ToDisplayLength(a: Axis, len: int): (d: int)
    requires a.IsComputed()
    ensures len >= 0 ==> 0 <= d && d * a.source <= len * a.scaled < (d + 1) * a.source
  {
    TruncDiv(len * a.scaled, a.source)
  }

  /** `(d - imageX) * scaleRatioX` cast to int: component coordinate `d` in image pixels. */
  function ToSource(a: Axis, d: int): (v: int)
    requires a.IsInvertible()
    ensures a.source == 0 ==> v == 0
    ensures a.source > 0 && d >= a.origin ==>
              0 <= v && v * a.scaled <= (d - a.origin) * a.source < (v + 1) * a.scaled
    ensures a.source > 0 && d < a.origin ==>
              v <= 0 && (v - 1) * a.scaled < (d - a.origin) * a.source <= v * a.scaled
  {
    if a.source == 0 then 0 else TruncDiv((d - a.origin) * a.source, a.scaled)
  }

  /** `length * scaleRatioX` cast to int: a signed component length in image pixels, which
      keeps the length's sign or becomes zero. */
  function ToSourceLength(a: Axis, len: int): (v: int)
    requires a.IsInvertible()
    ensures a.source == 0 ==> v == 0
    ensures len >= 0 ==> v >= 0
    ensures len <= 0 ==> v <= 0
    ensures a.source > 0 ==> Abs(v) * a.scaled <= Abs(len) * a.source < (Abs(v) + 1) * a.scaled
  {
    if a.source == 0 then 0 else TruncDiv(len * a.source, a.scaled)
  }

  /** The projection `setSelection` applies to an image-space rectangle. */
  function Project(sc: Scaling, r: Rect): (d: Rect)
    requires sc.x.IsComputed() && sc.y.IsComputed()
    ensures r.IsNormal() ==> d.IsNormal()
  {
    Rect(ToDisplay(sc.x, r.x), ToDisplay(sc.y, r.y),
         ToDisplayLength(sc.x, r.width), ToDisplayLength(sc.y, r.height))
  }

  /** The back-projection `setScaledSelection` applies to its signed arguments. */
  function Unproject(sc: Scaling, r: Rect): (s: Rect)
    requires sc.x.IsInvertible() && sc.y.IsInvertible()
    ensures (s.width < 0 ==> r.width < 0) && (s.height < 0 ==> r.height < 0)
  {
    Rect(ToSource(sc.x, r.x), ToSource(sc.y, r.y),
         ToSourceLength(sc.x, r.width), ToSourceLength(sc.y, r.height))
  }

  /** An image-space span inside the frame is drawn inside the scaled image. */
  lemma ProjectInsideImage(a: Axis, v: int, len: int)
    requires a.IsComputed() && a.origin >= 0
    requires 0 <= v && 0 <= len && v + len <= a.source
    ensures a.origin <= ToDisplay(a, v)
    ensures ToDisplay(a, v) + ToDisplayLength(a, len) <= a.origin + a.scaled
  {
    MulNonNegative(a.origin, a.source);
    MulNonNegative(v, a.scaled);
    MulNonNegative(len, a.scaled);
    assert ToDisplay(a, v) == (a.origin * a.source + v * a.scaled) / a.source;
    DivShift(a.origin, v * a.scaled, a.source);
    assert ToDisplayLength(a, len) == (len * a.scaled) / a.source;
    FloorSpan(v, len, a.scaled, a.source);
  }

  /** A component-space span inside the scaled image maps back inside the frame. */
  lemma UnprojectInsideImage(a: Axis, d: int, len: int)
    requires a.IsInvertible() && a.source > 0
    requires a.origin <= d && 0 <= len && d + len <= a.origin + a.scaled
    ensures 0 <= ToSource(a, d)
    ensures ToSource(a, d) + ToSourceLength(a, len) <= a.source
  {
    var t := d - a.origin;
    assert ToSource(a, d) == (t * a.source) / a.scaled;
    assert ToSourceLength(a, len) == (len * a.source) / a.scaled;
    FloorSpan(t, len, a.source, a.scaled);
  }

  /** Where the frame is drawn no larger than it is (ratio at least one), a component
      coordinate over the image survives the trip to image space and back up to one pixel,
      and never moves right. */
  lemma DisplayRoundTrip(a: Axis, d: int)
    requires 0 < a.scaled <= a.source && a.origin >= 0 && d >= a.origin
    ensures d - 1 <= ToDisplay(a, ToSource(a, d)) <= d
  {
    var t := d - a.origin;
    var s := ToSource(a, d);
    assert s == (t * a.source) / a.scaled;
    DivShift(a.origin, s * a.scaled, a.source);
    assert ToDisplay(a, s) == a.origin + (s * a.scaled) / a.source;
    FloorRoundTrip(t, a.scaled, a.source);
  }

  /** Where the frame is drawn no smaller than it is (ratio at most one), an image
      coordinate survives the trip to component space and back up to one pixel, and never
      moves right. */
  lemma SourceRoundTrip(a: Axis, v: int)
    requires 0 < a.source <= a.scaled && a.origin >= 0 && v >= 0
    ensures v - 1 <= ToSource(a, ToDisplay(a, v)) <= v
  {
    DivShift(a.origin, v * a.scaled, a.source);
    var q := (v * a.scaled) / a.source;
    assert ToDisplay(a, v) == a.origin + q;
    assert ToSource(a, a.origin + q) == (q * a.source) / a.scaled;
    FloorRoundTrip(v, a.source, a.scaled);
  }

  /** Where the frame is shrunk, the trip image -> component -> image can miss by more than
      one pixel: at ratio 19/10 the image coordinate 3 is drawn at 1 and read back as 1. */
  lemma ShrunkTripMissesByTwo()
    ensures var a := Axis(0, 19, 10);
            ToDisplay(a, 3) == 1 && ToSource(a, ToDisplay(a, 3)) == 1
  {
    assert TruncDiv(0 * 19 + 3 * 10, 19) == 1;
    assert TruncDiv((1 - 0) * 19, 10) == 1;
  }

  /** The condition under which `frameReceived` recomputes the scaling: there was no
      previous frame, or the new one has other dimensions. */
  predicate NeedsRescale(previous: Option<Extent>, image: Extent)
  {
    previous.None? || previous.value.width != image.width || previous.value.height != image.height
  }
}
