/**
 * Hit-testing of the selection's handles (`isWithin`, `isWithinHandle`,
 * `getSelectionHandleAtPosition`) and the inside test used to start a move.
 */
module HitTest {
  import opened Options
  import opened JavaArith
  import opened Geometry

  /** Half the side of the square around a handle's centre that counts as a hit. */
  const HandleReach := 4

  /** `isWithin`: the point lies in the box, both bounds inclusive. */
  predicate IsWithin(pointX: int, pointY: int, boundsX: int, boundsY: int, boundsWidth: int, boundsHeight: int)
  {
    pointX >= boundsX && pointX <= boundsX + boundsWidth
    && pointY >= boundsY && pointY <= boundsY + boundsHeight
  }

  /** `isWithinHandle`: the point lies in the 8-by-8 box around the handle centre. */
  function IsWithinHandle(x: int, y: int, handleX: int, handleY: int): (b: bool)
    ensures b <==> Abs(x - handleX) <= HandleReach && Abs(y - handleY) <= HandleReach
  {
    IsWithin(x, y, handleX - 4, handleY - 4, 8, 8)
  }

  /** Reference definition of where a handle is drawn on `d`: a corner, or the midpoint of an
      edge, with the middle rounded toward zero as Java's int division does. */
  function HandleCentre(d: Rect, h: Handle): (int, int)
  {
    var cx := if Column(h) == -1 then d.x else if Column(h) == 1 then d.Right() else d.x + TruncDiv(d.width, 2);
    var cy := if Row(h) == -1 then d.y else if Row(h) == 1 then d.Bottom() else d.y + TruncDiv(d.height, 2);
    (cx, cy)
  }

  /** The point `(x, y)` hits handle `h` of the displayed rectangle `d`. */
  predicate OnHandle(d: Rect, h: Handle, x: int, y: int)
  {
    var (hx, hy) := HandleCentre(d, h);
    IsWithinHandle(x, y, hx, hy)
  }

  /** The priority in which handles are tried: corners first, then edge midpoints. */
  const HandleOrder: seq<Handle> := [NW, NE, SW, SE, N, E, S, W]

  /** Position of a handle in `HandleOrder`. */
  function Rank(h: Handle): (i: nat)
    ensures i < |HandleOrder| && HandleOrder[i] == h
  {
    match h
    case NW => 0
    case NE => 1
    case SW => 2
    case SE => 3
    case N => 4
    case E => 5
    case S => 6
    case W => 7
  }

  /** `getSelectionHandleAtPosition`: no handle when there is no selection; otherwise the
      first handle of the displayed rectangle `display` in `HandleOrder` that the point hits. */
  function HandleAt(display: Option<Rect>, x: int, y: int): (r: Option<Handle>)
    ensures display.None? ==> r.None?
    ensures r.Some? ==> display.Some? && OnHandle(display.value, r.value, x, y)
    ensures r.Some? ==> forall h :: Rank(h) < Rank(r.value) ==> !OnHandle(display.value, h, x, y)
    ensures display.Some? && r.None? ==> forall h :: !OnHandle(display.value, h, x, y)
  {
    match display
    case None => None
    case Some(d) =>
      var (rx, ry, rw, rh) := (d.x, d.y, d.width, d.height);
      var rx2 := rx + rw;
      var ry2 := ry + rh;
      var rxc := rx + TruncDiv(rw, 2);
      var ryc := ry + TruncDiv(rh, 2);
      if IsWithinHandle(x, y, rx, ry) then Some(NW)
      else if IsWithinHandle(x, y, rx2, ry) then Some(NE)
      else if IsWithinHandle(x, y, rx, ry2) then Some(SW)
      else if IsWithinHandle(x, y, rx2, ry2) then Some(SE)
      else if IsWithinHandle(x, y, rxc, ry) then Some(N)
      else if IsWithinHandle(x, y, rx2, ryc) then Some(E)
      else if IsWithinHandle(x, y, rxc, ry2) then Some(S)
      else if IsWithinHandle(x, y, rx, ryc) then Some(W)
      else None
  }

  /** Stand-in for `java.awt.Rectangle.contains(x, y)`, whose code is not part of this model:
      as documented, false for a negative extent and half-open otherwise. */
  predicate Contains(d: Rect, x: int, y: int)
  {
    d.IsNormal() && d.x <= x < d.x + d.width && d.y <= y < d.y + d.height
  }
}
