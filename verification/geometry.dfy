/**
 * Selection geometry of the camera view: rectangles whose width or height may
 * turn negative while a drag is in progress, the eight resize handles, the
 * sign correction (`normalizeRectangle`), the handle swap a flipped axis
 * causes (`getOpposingHandle`) and the per-handle resize formulas of
 * `mouseDragged`.
 */
module Geometry {
  import opened Options
  import opened JavaArith

  /** A `java.awt.Rectangle`: a corner and a width and height that are signed while a drag
      is in progress and non-negative once normalised. */
  datatype Rect = Rect(x: int, y: int, width: int, height: int) {

    function Right(): int
    {
      x + width
    }

    function Bottom(): int
    {
      y + height
    }

    predicate IsNormal()
    {
      width >= 0 && height >= 0
    }
  }

  /** `n` is a non-negative rectangle over exactly the intervals that the signed `r` spans
      on each axis. */
  predicate Covers(n: Rect, r: Rect)
  {
    && n.IsNormal()
    && n.x == Min(r.x, r.Right()) && n.Right() == Max(r.x, r.Right())
    && n.y == Min(r.y, r.Bottom()) && n.Bottom() == Max(r.y, r.Bottom())
  }

  /** The eight resize handles: four corners and four edge midpoints. */
  datatype Handle = NW | N | NE | E | SE | S | SW | W

  /** Horizontal place of a handle: -1 on the left edge, 0 at mid-width, 1 on the right edge. */
  function Column(h: Handle): int
  {
    match h
    case NW | W | SW => -1
    case N | S => 0
    case NE | E | SE => 1
  }

  /** Vertical place of a handle: -1 on the top edge, 0 at mid-height, 1 on the bottom edge. */
  function Row(h: Handle): int
  {
    match h
    case NW | N | NE => -1
    case W | E => 0
    case SW | S | SE => 1
  }

  /** The handle at a place of the 3-by-3 grid; the centre is not a handle. */
  function AtGrid(col: int, row: int): (h: Handle)
    requires -1 <= col <= 1 && -1 <= row <= 1 && (col != 0 || row != 0)
    ensures Column(h) == col && Row(h) == row
  {
    if row == -1 then (if col == -1 then NW else if col == 0 then N else NE)
    else if row == 0 then (if col == -1 then W else E)
    else (if col == -1 then SW else if col == 0 then S else SE)
  }

  /** A handle is determined by its place on the grid. */
  lemma GridDetermines(h: Handle, k: Handle)
    requires Column(h) == Column(k) && Row(h) == Row(k)
    ensures h == k
  {
  }

  /** Edge-midpoint handles, which lie on one axis only. */
  predicate IsEdge(h: Handle)
  {
    Column(h) == 0 || Row(h) == 0
  }

  /** Reference definition of a handle's mirror image: the handle that takes its place when
      the rectangle is reflected horizontally (`flipX`) and/or vertically (`flipY`). */
  function Mirror(h: Handle, flipX: bool, flipY: bool): Handle
  {
    AtGrid(if flipX then -Column(h) else Column(h), if flipY then -Row(h) else Row(h))
  }

  /** `normalizeRectangle`: a negative width (height) is made positive and the corner moved
      left (up) by it, so the result covers the same region. */
  function Normalize(r: Rect): (n: Rect)
    ensures Covers(n, r)
    ensures r.IsNormal() ==> n == r
  {
    var (x, width) := if r.width < 0 then (r.x - -r.width, -r.width) else (r.x, r.width);
    var (y, height) := if r.height < 0 then (r.y - -r.height, -r.height) else (r.y, r.height);
    Rect(x, y, width, height)
  }

  /** A rectangle covering a region is unique. */
  lemma CoversUnique(n: Rect, m: Rect, r: Rect)
    requires Covers(n, r) && Covers(m, r)
    ensures n == m
  {
  }

  /** Normalising twice is normalising once. */
  lemma NormalizeIdempotent(r: Rect)
    ensures Normalize(Normalize(r)) == Normalize(r)
  {
  }

  /** `getOpposingHandle`: the handle that is being dragged after a drag has turned the
      rectangle's width and/or height negative. A missing handle stays missing. When both
      extents are negative only the corners swap; edge handles are kept. */
  function Opposing(r: Rect, h: Option<Handle>): (o: Option<Handle>)
    ensures h.None? ==> o.None?
    ensures h.Some? ==> o.Some?
    ensures h.Some? && r.IsNormal() ==> o == h
    ensures h.Some? && r.width < 0 && r.height < 0 && IsEdge(h.value) ==> o == h
    ensures h.Some? && !(r.width < 0 && r.height < 0 && IsEdge(h.value)) ==>
              o == Some(Mirror(h.value, r.width < 0, r.height < 0))
  {
    match h
    case None => None
    case Some(p) =>
      if r.width < 0 && r.height < 0 then
        Some(match p
             case NW => SE
             case NE => SW
             case SE => NW
             case SW => NE
             case _ => p)
      else if r.width < 0 then
        Some(match p
             case NW => NE
             case NE => NW
             case SE => SW
             case SW => SE
             case E => W
             case W => E
             case _ => p)
      else if r.height < 0 then
        Some(match p
             case SW => NW
             case SE => NE
             case NW => SW
             case NE => SE
             case S => N
             case N => S
             case _ => p)
      else h
  }

  /** Applying the swap twice for the same rectangle gives back the original handle. */
  lemma OpposingInvolution(r: Rect, h: Option<Handle>)
    ensures Opposing(r, Opposing(r, h)) == h
  {
    if h.Some? && !(r.width < 0 && r.height < 0 && IsEdge(h.value)) {
      var m := Mirror(h.value, r.width < 0, r.height < 0);
      assert IsEdge(m) == IsEdge(h.value);
      GridDetermines(Mirror(m, r.width < 0, r.height < 0), h.value);
    }
  }

  /** The resize formulas of `mouseDragged`: the pointer `(x, y)` drags handle `h` of the
      displayed rectangle `d`. The result is signed when the pointer crosses the opposite
      edge. */
  function DragHandle(d: Rect, h: Handle, x: int, y: int): (r: Rect)
    ensures Column(h) == -1 ==> r.x == x && r.Right() == d.Right()
    ensures Column(h) == 1 ==> r.x == d.x && r.Right() == x
    ensures Column(h) == 0 ==> r.x == d.x && r.width == d.width
    ensures Row(h) == -1 ==> r.y == y && r.Bottom() == d.Bottom()
    ensures Row(h) == 1 ==> r.y == d.y && r.Bottom() == y
    ensures Row(h) == 0 ==> r.y == d.y && r.height == d.height
  {
    var (rx, ry, rw, rh) := (d.x, d.y, d.width, d.height);
    match h
    case NW => Rect(x, y, rw - (x - rx), rh - (y - ry))
    case NE => Rect(rx, y, x - rx, rh - (y - ry))
    case N => Rect(rx, y, rw, rh - (y - ry))
    case E => Rect(rx, ry, rw + (x - (rx + rw)), rh)
    case SE => Rect(rx, ry, rw + (x - (rx + rw)), rh + (y - (ry + rh)))
    case S => Rect(rx, ry, rw, rh + (y - (ry + rh)))
    case SW => Rect(x, ry, rw - (x - rx), rh + (y - (ry + rh)))
    case W => Rect(x, ry, rw - (x - rx), rh)
  }

  /** The edge of `d` that stays put while handle `h` is dragged horizontally. */
  function FixedX(d: Rect, h: Handle): int
  {
    if Column(h) == -1 then d.Right() else d.x
  }

  /** The edge of `d` that stays put while handle `h` is dragged vertically. */
  function FixedY(d: Rect, h: Handle): int
  {
    if Row(h) == -1 then d.Bottom() else d.y
  }

  /** Dragging a handle of a normalised rectangle, then normalising and swapping the handle
      as `setScaledSelection` does, keeps the handle the user holds under the pointer: the
      new active handle's edges lie at the pointer, the fixed edges stay where they were, and
      an axis the handle does not own is untouched. */
  lemma DragKeepsHandleUnderPointer(d: Rect, h: Handle, x: int, y: int)
    requires d.IsNormal()
    ensures var r := DragHandle(d, h, x, y);
            var n := Normalize(r);
            var o := Opposing(r, Some(h)).value;
            && Column(o) == (if Column(h) != 0 && x < FixedX(d, h) then -1
                             else if Column(h) != 0 && x > FixedX(d, h) then 1
                             else Column(h))
            && Row(o) == (if Row(h) != 0 && y < FixedY(d, h) then -1
                          else if Row(h) != 0 && y > FixedY(d, h) then 1
                          else Row(h))
            && (Column(o) == -1 ==> n.x == x && n.Right() == Max(x, FixedX(d, h)))
            && (Column(o) == 1 ==> n.Right() == x && n.x == Min(x, FixedX(d, h)))
            && (Column(o) == 0 ==> n.x == d.x && n.width == d.width)
            && (Row(o) == -1 ==> n.y == y && n.Bottom() == Max(y, FixedY(d, h)))
            && (Row(o) == 1 ==> n.Bottom() == y && n.y == Min(y, FixedY(d, h)))
            && (Row(o) == 0 ==> n.y == d.y && n.height == d.height)
  {
    var r := DragHandle(d, h, x, y);
    assert IsEdge(h) ==> !(r.width < 0 && r.height < 0);
  }
}
