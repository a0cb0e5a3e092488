/** Screen geometry: points are integer pairs, bounding boxes are closed
    axis-aligned rectangles derived from an entity's centre and size. */
module Geometry {

  const SCREEN_WIDTH: int := 800
  const SCREEN_HEIGHT: int := 1000

  /** A rectangle with corners (x1, y1) and (x2, y2), both included. */
  datatype Rect = Rect(x1: int, y1: int, x2: int, y2: int)

  /** The corners are in order, so the rectangle holds at least one point. */
  predicate Proper(r: Rect) {
    r.x1 <= r.x2 && r.y1 <= r.y2
  }

  /** Point (x, y) lies in the closed rectangle r. */
  predicate Contains(r: Rect, x: int, y: int) {
    r.x1 <= x <= r.x2 && r.y1 <= y <= r.y2
  }

  /** Rect::overlaps: false when one rectangle lies wholly to the left of,
      right of, above or below the other; touching edges count. */
  predicate Overlaps(a: Rect, b: Rect) {
    !(a.x2 < b.x1 || a.x1 > b.x2 || a.y2 < b.y1 || a.y1 > b.y2)
  }

  /** Graphic::rect: the box of width w and height h centred on (x, y),
      with the half sizes rounded down. */
  function Box(x: int, y: int, w: nat, h: nat): (r: Rect)
    ensures Proper(r) && Contains(r, x, y)
    ensures r.x2 - r.x1 <= w && r.y2 - r.y1 <= h
    ensures r.x1 + r.x2 == 2 * x && r.y1 + r.y2 == 2 * y
  {
    Rect(x - w / 2, y - h / 2, x + w / 2, y + h / 2)
  }

  lemma OverlapsSymmetric(a: Rect, b: Rect)
    ensures Overlaps(a, b) == Overlaps(b, a)
  {
  }

  lemma OverlapsReflexive(a: Rect)
    requires Proper(a)
    ensures Overlaps(a, a)
  {
  }

  /** The overlap test is exactly "the two closed rectangles share a point". */
  lemma OverlapsIffCommonPoint(a: Rect, b: Rect)
    requires Proper(a) && Proper(b)
    ensures Overlaps(a, b) <==> exists x, y :: Contains(a, x, y) && Contains(b, x, y)
  {
    if Overlaps(a, b) {
      var x := if a.x1 < b.x1 then b.x1 else a.x1;
      var y := if a.y1 < b.y1 then b.y1 else a.y1;
      assert Contains(a, x, y) && Contains(b, x, y);
    }
  }

  /** Rectangles that only touch along an edge still overlap. */
  lemma TouchingEdgesOverlap(a: Rect, b: Rect)
    requires Proper(a) && Proper(b)
    requires a.x2 == b.x1 && a.y1 <= b.y2 && b.y1 <= a.y2
    ensures Overlaps(a, b)
  {
  }
}
