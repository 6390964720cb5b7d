/** Core Graphics value types used by the text-overlay code: a size and an
    axis-aligned rectangle, with CGFloat modelled as exact `real`. */
module Geometry {

  /** A CGSize: a width and a height. */
  datatype Size = Size(w: real, h: real)

  /** A CGRect: origin (x, y), top-left, and a size (w, h). */
  datatype Rect = Rect(x: real, y: real, w: real, h: real)

  /** The rectangle's size, as `CGRect.size`; the origin is dropped. */
  function SizeOf(r: Rect): Size {
    Size(r.w, r.h)
  }

  /** Both dimensions strictly positive, so that the aspect ratio and the
      scale factor are defined. */
  predicate Positive(s: Size) {
    s.w > 0.0 && s.h > 0.0
  }

  /** Neither dimension negative: the sizes a view frame can have. */
  predicate NonNegative(s: Size) {
    s.w >= 0.0 && s.h >= 0.0
  }

  /** `inner` lies within `outer` (both with non-negative sizes). */
  predicate Inside(inner: Rect, outer: Rect) {
    0.0 <= inner.w && 0.0 <= inner.h &&
    outer.x <= inner.x && inner.x + inner.w <= outer.x + outer.w &&
    outer.y <= inner.y && inner.y + inner.h <= outer.y + outer.h
  }

  /** `r` lies within the rectangle [0, bounds.w] x [0, bounds.h]. */
  predicate Within(r: Rect, bounds: Size) {
    0.0 <= r.x && 0.0 <= r.w && r.x + r.w <= bounds.w &&
    0.0 <= r.y && 0.0 <= r.h && r.y + r.h <= bounds.h
  }
}
