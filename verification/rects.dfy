/**
 * Axis-aligned rectangles and the overlap test the game borrows from SDL.
 * `Intersects` states the behaviour of `SDL_HasIntersection` as this model
 * assumes it: an empty rectangle (width or height not positive) meets
 * nothing, and two rectangles meet when their half-open extents overlap on
 * both axes.
 */
module Rects {
  import opened CMath

  datatype Rect = Rect(x: int, y: int, w: int, h: int)

  predicate IsEmpty(r: Rect) { r.w <= 0 || r.h <= 0 }

  predicate Intersects(a: Rect, b: Rect)
  {
    && !IsEmpty(a) && !IsEmpty(b)
    && Max(a.x, b.x) < Min(a.x + a.w, b.x + b.w)
    && Max(a.y, b.y) < Min(a.y + a.h, b.y + b.h)
  }

  /** The pixel (px, py) lies in the half-open area of `r`. */
  predicate Covers(r: Rect, px: int, py: int)
  {
    r.x <= px < r.x + r.w && r.y <= py < r.y + r.h
  }

  /** Overlap, as assumed of the library call, means sharing at least one pixel. */
  lemma IntersectsIffSharedPixel(a: Rect, b: Rect)
    ensures Intersects(a, b) <==> exists px, py :: Covers(a, px, py) && Covers(b, px, py)
  {
    if Intersects(a, b) {
      assert Covers(a, Max(a.x, b.x), Max(a.y, b.y)) && Covers(b, Max(a.x, b.x), Max(a.y, b.y));
    }
  }
}
