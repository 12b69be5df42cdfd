/**
  The crop rectangle, the image bounds it must stay inside, and the clamp and
  rounding arithmetic every crop operation of the image cropper is built from.
 */
module Geometry {

  /** Pixel size of the loaded image. */
  datatype Bounds = Bounds(width: int, height: int)

  /** A decoded raster image has at least one pixel in each direction. */
  predicate Positive(b: Bounds) {
    b.width >= 1 && b.height >= 1
  }

  /** The crop rectangle: top-left corner and size, in image pixels. */
  datatype Rect = Rect(x: int, y: int, width: int, height: int) {
    function Right(): int { x + width }
    function Bottom(): int { y + height }
  }

  /** The class invariant: a non-empty rectangle lying wholly inside the image. */
  predicate Valid(r: Rect, b: Bounds) {
    && 1 <= r.width <= b.width
    && 1 <= r.height <= b.height
    && 0 <= r.x <= b.width - r.width
    && 0 <= r.y <= b.height - r.height
  }

  /**
    `clamp(value, min, max)` of the cropper: `Math.min(Math.max(value, min), max)`.
    When the range is empty the upper end wins.
   */
  function Clamp(value: int, lo: int, hi: int): (r: int)
    ensures lo <= hi ==> lo <= r <= hi
    ensures lo <= value <= hi ==> r == value
    ensures value < lo && lo <= hi ==> r == lo
    ensures hi < value ==> r == hi
    ensures hi < lo ==> r == hi
  {
    var atLeastLo := if value > lo then value else lo;
    if atLeastLo < hi then atLeastLo else hi
  }

  /** Clamping an already clamped value changes nothing. */
  lemma ClampIdempotent(value: int, lo: int, hi: int)
    ensures Clamp(Clamp(value, lo, hi), lo, hi) == Clamp(value, lo, hi)
  {
  }

  /**
    Clamping below `hi` and then below a lower `hi'` is one clamp below `hi'`.
   */
  lemma ClampNarrowing(value: int, lo: int, hi: int, hi': int)
    requires hi' <= hi
    ensures Clamp(Clamp(value, lo, hi), lo, hi') == Clamp(value, lo, hi')
  {
  }

  /** `Math.round` on an exact real: the nearest integer, halves rounding up. */
  function Round(r: real): (n: int)
    ensures r - 0.5 < n as real <= r + 0.5
  {
    (r + 0.5).Floor
  }

  /** Rounding commutes with an integer shift. */
  lemma RoundShift(n: int, r: real)
    ensures Round(n as real + r) == n + Round(r)
  {
  }

  /** Rounding an integer gives it back. */
  lemma RoundOfInt(n: int)
    ensures Round(n as real) == n
  {
  }

  /**
    The crop chosen when an image is loaded: the requested size clamped to the
    image, placed at the centre (rounded towards the top-left).
   */
  function InitialCrop(b: Bounds, desiredWidth: int, desiredHeight: int): (r: Rect)
    ensures r.width == Clamp(desiredWidth, 1, b.width)
    ensures r.height == Clamp(desiredHeight, 1, b.height)
    ensures Positive(b) ==> Valid(r, b)
    ensures Positive(b) ==> 0 <= (b.width - r.Right()) - r.x <= 1
    ensures Positive(b) ==> 0 <= (b.height - r.Bottom()) - r.y <= 1
  {
    var width := Clamp(desiredWidth, 1, b.width);
    var height := Clamp(desiredHeight, 1, b.height);
    // Euclidean division by 2 is JavaScript's Math.floor(n / 2).
    var x := Clamp((b.width - width) / 2, 0, b.width - width);
    var y := Clamp((b.height - height) / 2, 0, b.height - height);
    Rect(x, y, width, height)
  }

  /** The centring offset already lies in the valid range, so its clamp is a no-op. */
  lemma InitialCropCentred(b: Bounds, desiredWidth: int, desiredHeight: int)
    requires Positive(b)
    ensures InitialCrop(b, desiredWidth, desiredHeight).x
            == (b.width - Clamp(desiredWidth, 1, b.width)) / 2
    ensures InitialCrop(b, desiredWidth, desiredHeight).y
            == (b.height - Clamp(desiredHeight, 1, b.height)) / 2
  {
  }

  /** An 800x600 image with a requested 300x200 crop starts at (250, 200). */
  lemma InitialCropExample()
    ensures InitialCrop(Bounds(800, 600), 300, 200) == Rect(250, 200, 300, 200)
  {
  }
}
