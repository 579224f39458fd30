/** Clamping a rectangle back toward the image (FixInvalidRects).

    The clamp works field by field, in the program's order, and has two
    quirks the model keeps:
    - a negative left edge is moved to 0 without shrinking the width, so the
      right edge moves right;
    - a left edge beyond the image's right edge is kept, and the width
      becomes negative (the right edge is pulled back to the image edge). */
module Bounds {
  import opened Geometry

  /** The edges the clamp guarantees: left/top at or after 0, right/bottom at
      or before the image's extent.  Extents may still be negative. */
  predicate WithinImage(r: Rect, imageWidth: nat, imageHeight: nat)
  {
    && 0 <= r.x && r.x + r.width <= imageWidth
    && 0 <= r.y && r.y + r.height <= imageHeight
  }

  /** A well-formed rectangle lying inside the image: non-negative extents
      and all four edges inside. */
  predicate Inside(r: Rect, imageWidth: nat, imageHeight: nat)
  {
    WithinImage(r, imageWidth, imageHeight) && 0 <= r.width && 0 <= r.height
  }

  /** FixInvalidRects, one assignment per source statement. */
  function FixInvalidRect(rect: Rect, imageWidth: nat, imageHeight: nat): (r: Rect)
    ensures WithinImage(r, imageWidth, imageHeight)
    ensures r.x == Max(rect.x, 0) && r.y == Max(rect.y, 0)
    // a left edge inside the image keeps the width, cut at the right edge
    ensures r.x <= imageWidth ==> r.width == Min(rect.width, imageWidth - r.x)
    ensures r.y <= imageHeight ==> r.height == Min(rect.height, imageHeight - r.y)
    // a left edge beyond the image yields a negative width
    ensures r.x > imageWidth ==> r.width == imageWidth - r.x < 0
    ensures r.y > imageHeight ==> r.height == imageHeight - r.y < 0
  {
    var r1 := if rect.x < 0 then rect.(x := 0) else rect;
    var r2 := if r1.y < 0 then r1.(y := 0) else r1;
    var r3 := if r2.x > imageWidth then r2.(width := imageWidth) else r2;
    var r4 := if r3.y > imageHeight then r3.(height := imageHeight) else r3;
    var r5 := if r4.width + r4.x > imageWidth then r4.(width := imageWidth - r4.x) else r4;
    if r5.height + r5.y > imageHeight then r5.(height := imageHeight - r5.y) else r5
  }

  /** Clamping twice is clamping once. */
  lemma FixIdempotent(rect: Rect, imageWidth: nat, imageHeight: nat)
    ensures var once := FixInvalidRect(rect, imageWidth, imageHeight);
            FixInvalidRect(once, imageWidth, imageHeight) == once
  {
  }

  /** A rectangle already inside the image is left alone. */
  lemma FixLeavesInsideAlone(rect: Rect, imageWidth: nat, imageHeight: nat)
    requires Inside(rect, imageWidth, imageHeight)
    ensures FixInvalidRect(rect, imageWidth, imageHeight) == rect
  {
  }

  /** With a non-negative input width, the clamped width is non-negative
      exactly when the clamped left edge is inside the image. */
  lemma FixWidthNonNegativeIff(rect: Rect, imageWidth: nat, imageHeight: nat)
    requires 0 <= rect.width && 0 <= rect.height
    ensures var r := FixInvalidRect(rect, imageWidth, imageHeight);
            && (0 <= r.width <==> r.x <= imageWidth)
            && (0 <= r.height <==> r.y <= imageHeight)
            && (Inside(r, imageWidth, imageHeight) <==> r.x <= imageWidth && r.y <= imageHeight)
  {
  }

  /** The negative-left-edge quirk: the box is shifted, not trimmed, so its
      right edge moves right by the amount the left edge moved. */
  lemma FixShiftsNegativeLeftEdge(rect: Rect, imageWidth: nat, imageHeight: nat)
    requires rect.x < 0 && 0 <= rect.width <= imageWidth
    ensures FixInvalidRect(rect, imageWidth, imageHeight).x == 0
    ensures FixInvalidRect(rect, imageWidth, imageHeight).width == rect.width
    ensures var r := FixInvalidRect(rect, imageWidth, imageHeight);
            r.x + r.width == rect.x + rect.width - rect.x
  {
  }

  /** Clamping never cuts into a box that already lies inside the image: any
      such box covered before the clamp is still covered after it. */
  lemma FixKeepsInsideContents(rect: Rect, inner: Rect, imageWidth: nat, imageHeight: nat)
    requires Contains(rect, inner) && Inside(inner, imageWidth, imageHeight)
    ensures Contains(FixInvalidRect(rect, imageWidth, imageHeight), inner)
  {
  }
}
