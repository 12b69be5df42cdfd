/**
  Hit-testing a pointer position against the crop rectangle: which corner
  handle (if any) it grabs, and whether it lies on the rectangle's body.
 */
module HitTest {
  import opened Optional
  import opened Geometry

  /** A pointer position in image pixels. */
  datatype Point = Point(x: real, y: real)

  /** The four corner handles: north-west, north-east, south-west, south-east. */
  datatype Handle = NW | NE | SW | SE {
    /** The handle sits on the left edge. */
    predicate IsWest() { this == NW || this == SW }
    /** The handle sits on the top edge. */
    predicate IsNorth() { this == NW || this == NE }
  }

  /** Drawn side of a handle, in pixels. */
  const HandleSize: int := 10

  /**
    Half-width of the square grab window around each corner,
    `HANDLE_SIZE * 1.2` (exactly 12, also in double arithmetic).
   */
  const HandleThreshold: real := HandleSize as real * 1.2

  /** The order in which corners are tried; the first one in reach wins. */
  const HandleOrder: seq<Handle> := [NW, NE, SW, SE]

  function Abs(r: real): real {
    if r < 0.0 then -r else r
  }

  /** The pixel position of handle `h` on rectangle `c`. */
  function Corner(c: Rect, h: Handle): Point {
    Point(if h.IsWest() then c.x as real else c.Right() as real,
          if h.IsNorth() then c.y as real else c.Bottom() as real)
  }

  /** `p` lies in the grab window of handle `h`: Chebyshev distance at most the threshold. */
  predicate Near(c: Rect, h: Handle, p: Point) {
    var k := Corner(c, h);
    Abs(p.x - k.x) <= HandleThreshold && Abs(p.y - k.y) <= HandleThreshold
  }

  /** The first handle of `order` whose grab window holds `p`. */
  function FirstNear(c: Rect, p: Point, order: seq<Handle>): (r: Option<Handle>)
    ensures r.None? <==> forall i :: 0 <= i < |order| ==> !Near(c, order[i], p)
    ensures r.Some? ==> exists i :: 0 <= i < |order| && order[i] == r.value
                                    && (forall j :: 0 <= j < i ==> !Near(c, order[j], p))
    ensures r.Some? ==> Near(c, r.value, p)
    decreases |order|
  {
    if |order| == 0 then None
    else if Near(c, order[0], p) then Some(order[0])
    else
      var rest := FirstNear(c, p, order[1..]);
      assert forall i :: 1 <= i < |order| ==> order[i] == order[1..][i - 1];
      rest
  }

  /** `getHandleAtPoint`: the handle grabbed at `p`, trying NW, NE, SW, SE in turn. */
  function HandleAt(c: Rect, p: Point): (r: Option<Handle>)
    ensures r == Some(NW) <==> Near(c, NW, p)
    ensures r == Some(NE) <==> !Near(c, NW, p) && Near(c, NE, p)
    ensures r == Some(SW) <==> !Near(c, NW, p) && !Near(c, NE, p) && Near(c, SW, p)
    ensures r == Some(SE) <==> !Near(c, NW, p) && !Near(c, NE, p) && !Near(c, SW, p) && Near(c, SE, p)
    ensures r == None <==> !Near(c, NW, p) && !Near(c, NE, p) && !Near(c, SW, p) && !Near(c, SE, p)
  {
    var r := FirstNear(c, p, HandleOrder);
    assert HandleOrder[0] == NW && HandleOrder[1] == NE && HandleOrder[2] == SW && HandleOrder[3] == SE;
    r
  }

  /**
    `pointInCrop`: `p` lies on the rectangle, edges included. For a
    rectangle of non-negative size that is the same as lying no further
    from its centre than half its width across and half its height down.
   */
  predicate InCrop(c: Rect, p: Point)
    ensures c.width >= 0 && c.height >= 0 ==>
              (InCrop(c, p) <==> && Abs(2.0 * p.x - (2 * c.x + c.width) as real) <= c.width as real
                                 && Abs(2.0 * p.y - (2 * c.y + c.height) as real) <= c.height as real)
  {
    && c.x as real <= p.x <= c.Right() as real
    && c.y as real <= p.y <= c.Bottom() as real
  }

  /** The grab threshold is twelve pixels. */
  lemma ThresholdIsTwelve()
    ensures HandleThreshold == 12.0
  {
  }

  /** Every corner of a rectangle with non-negative size lies on it, edges being inclusive. */
  lemma CornersInCrop(c: Rect, h: Handle)
    requires c.width >= 0 && c.height >= 0
    ensures InCrop(c, Corner(c, h))
  {
  }

  /**
    When the rectangle is wider and taller than two grab windows, no point is
    in reach of two handles, so the order of trial does not matter.
   */
  lemma LargeCropHandlesUnambiguous(c: Rect, h: Handle, p: Point)
    requires c.width as real > 2.0 * HandleThreshold && c.height as real > 2.0 * HandleThreshold
    ensures HandleAt(c, p) == Some(h) <==> Near(c, h, p)
  {
  }

  /** A point at a corner is always grabbed by some handle. */
  lemma CornerIsGrabbed(c: Rect, h: Handle)
    ensures HandleAt(c, Corner(c, h)).Some?
  {
    assert Near(c, h, Corner(c, h));
  }
}
