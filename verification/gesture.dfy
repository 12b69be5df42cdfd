/**
  The pointer gesture in progress and the crop it computes. A gesture keeps a
  snapshot of the pointer and of the crop taken at pointer-down; every
  pointer-move recomputes the crop from that snapshot, never from the
  previous move, so no rounding error accumulates.
 */
module Gesture {
  import opened Geometry
  import opened HitTest

  /** Pointer and crop as they were at pointer-down. */
  datatype Snapshot = Snapshot(pointer: Point, crop: Rect)

  /** The interaction state machine: idle, dragging the body, or dragging a corner. */
  datatype Interaction =
    | Idle
    | Moving(snap: Snapshot)
    | Resizing(handle: Handle, snap: Snapshot)

  /**
    `moveCropByPointerDelta`: shift the crop by the pointer's displacement
    since pointer-down, rounded and kept inside the image. The size is the
    current crop's and is left alone.
   */
  function MoveCrop(b: Bounds, crop: Rect, snap: Snapshot, p: Point): (r: Rect)
    ensures r.width == crop.width && r.height == crop.height
    ensures Valid(crop, b) ==> Valid(r, b)
    ensures var tx := snap.crop.x + Round(p.x - snap.pointer.x);
            && (0 <= tx <= b.width - crop.width ==> r.x == tx)
            && (tx < 0 <= b.width - crop.width ==> r.x == 0)
            && (tx > b.width - crop.width ==> r.x == b.width - crop.width)
    ensures var ty := snap.crop.y + Round(p.y - snap.pointer.y);
            && (0 <= ty <= b.height - crop.height ==> r.y == ty)
            && (ty < 0 <= b.height - crop.height ==> r.y == 0)
            && (ty > b.height - crop.height ==> r.y == b.height - crop.height)
  {
    RoundShift(snap.crop.x, p.x - snap.pointer.x);
    RoundShift(snap.crop.y, p.y - snap.pointer.y);
    var deltaX := p.x - snap.pointer.x;
    var deltaY := p.y - snap.pointer.y;
    var nextX := Clamp(Round(snap.crop.x as real + deltaX), 0, b.width - crop.width);
    var nextY := Clamp(Round(snap.crop.y as real + deltaY), 0, b.height - crop.height);
    crop.(x := nextX, y := nextY)
  }

  /**
    `resizeCropFromHandle`: drag corner `h` of the snapshot crop to `p`. The
    dragged edges follow the rounded pointer but stop one pixel short of the
    opposite edges and at the image border; the opposite edges stay put.
   */
  function ResizeCrop(b: Bounds, snap: Snapshot, h: Handle, p: Point): (r: Rect)
    // the edges away from the dragged corner do not move
    ensures h.IsWest() ==> r.Right() == snap.crop.Right()
    ensures !h.IsWest() ==> r.x == snap.crop.x
    ensures h.IsNorth() ==> r.Bottom() == snap.crop.Bottom()
    ensures !h.IsNorth() ==> r.y == snap.crop.y
    // a dragged left edge follows the pointer, down to width 1 and out to the border
    ensures h.IsWest() && 0 <= Round(p.x) < snap.crop.Right() ==> r.x == Round(p.x)
    ensures h.IsWest() && Round(p.x) >= snap.crop.Right() >= 1 ==> r.width == 1
    ensures h.IsWest() && Round(p.x) < 0 <= snap.crop.Right() - 1 ==> r.x == 0
    // a dragged right edge follows the pointer, down to width 1 and up to the border
    ensures !h.IsWest() && snap.crop.x < Round(p.x) <= b.width ==> r.Right() == Round(p.x)
    ensures !h.IsWest() && Round(p.x) <= snap.crop.x < b.width ==> r.width == 1
    ensures !h.IsWest() && Round(p.x) > b.width ==> r.Right() == b.width
    // the same for the top and bottom edges
    ensures h.IsNorth() && 0 <= Round(p.y) < snap.crop.Bottom() ==> r.y == Round(p.y)
    ensures h.IsNorth() && Round(p.y) >= snap.crop.Bottom() >= 1 ==> r.height == 1
    ensures h.IsNorth() && Round(p.y) < 0 <= snap.crop.Bottom() - 1 ==> r.y == 0
    ensures !h.IsNorth() && snap.crop.y < Round(p.y) <= b.height ==> r.Bottom() == Round(p.y)
    ensures !h.IsNorth() && Round(p.y) <= snap.crop.y < b.height ==> r.height == 1
    ensures !h.IsNorth() && Round(p.y) > b.height ==> r.Bottom() == b.height
    // from a valid snapshot the result is valid, so never thinner than one pixel
    ensures Valid(snap.crop, b) ==> Valid(r, b)
  {
    var startX := snap.crop.x;
    var startY := snap.crop.y;
    var startRight := snap.crop.Right();
    var startBottom := snap.crop.Bottom();
    var x := if h.IsWest() then Clamp(Round(p.x), 0, startRight - 1) else startX;
    var y := if h.IsNorth() then Clamp(Round(p.y), 0, startBottom - 1) else startY;
    var right := if h.IsWest() then startRight else Clamp(Round(p.x), startX + 1, b.width);
    var bottom := if h.IsNorth() then startBottom else Clamp(Round(p.y), startY + 1, b.height);
    Rect(x, y, right - x, bottom - y)
  }

  /**
    Moves do not accumulate: after any number of moves in one gesture the
    crop depends only on the latest pointer position.
   */
  lemma MoveHasNoDrift(b: Bounds, crop: Rect, snap: Snapshot, p1: Point, p2: Point)
    ensures MoveCrop(b, MoveCrop(b, crop, snap, p1), snap, p2) == MoveCrop(b, crop, snap, p2)
  {
  }

  /** Returning the pointer to where it went down puts a valid crop back where it started. */
  lemma MoveBackToStart(b: Bounds, snap: Snapshot)
    requires Valid(snap.crop, b)
    ensures MoveCrop(b, snap.crop, snap, snap.pointer) == snap.crop
  {
    RoundOfInt(0);
  }

  /** (10, 10, 100, 100) in an 800x600 image dragged by (-50, -50) stops at the corner. */
  lemma MoveExample()
    ensures var snap := Snapshot(Point(60.0, 60.0), Rect(10, 10, 100, 100));
            MoveCrop(Bounds(800, 600), snap.crop, snap, Point(10.0, 10.0)) == Rect(0, 0, 100, 100)
  {
  }

  /**
    Dragging the top-left corner of (100, 100)-(300, 300) to (450, 120)
    leaves a one-pixel-wide crop against the right edge.
   */
  lemma ResizeExample()
    ensures var snap := Snapshot(Point(100.0, 100.0), Rect(100, 100, 200, 200));
            ResizeCrop(Bounds(800, 600), snap, NW, Point(450.0, 120.0)) == Rect(299, 120, 1, 180)
  {
  }
}
