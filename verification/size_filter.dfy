/** The size envelope applied to every contour bounding box right after
    extraction (IsTooLarge / IsTooSmall).  The program compares integer
    extents against fractions of the image size; the fractions are modelled
    as exact rationals, so each test becomes an integer inequality. */
module SizeFilter {
  import opened Geometry

  /** Wider than 40% of the image or taller than 20% of it. */
  predicate IsTooLarge(r: Rect, imageWidth: nat, imageHeight: nat)
  {
    10 * r.width > 4 * imageWidth || 5 * r.height > imageHeight
  }

  /** Narrower than 4% of the image or shorter than 0.5% of it. */
  predicate IsTooSmall(r: Rect, imageWidth: nat, imageHeight: nat)
  {
    25 * r.width < imageWidth || 200 * r.height < imageHeight
  }

  predicate Keeps(r: Rect, imageWidth: nat, imageHeight: nat)
  {
    !IsTooLarge(r, imageWidth, imageHeight) && !IsTooSmall(r, imageWidth, imageHeight)
  }

  /** The envelope as written with fractions: both comparisons are strict in
      the program, so the boundary values themselves are inside. */
  ghost predicate InEnvelope(r: Rect, imageWidth: nat, imageHeight: nat)
  {
    && 0.04 * (imageWidth as real) <= r.width as real <= 0.40 * (imageWidth as real)
    && 0.005 * (imageHeight as real) <= r.height as real <= 0.20 * (imageHeight as real)
  }

  /** The integer tests keep exactly the boxes inside the fractional envelope. */
  lemma KeepsIffInEnvelope(r: Rect, imageWidth: nat, imageHeight: nat)
    ensures Keeps(r, imageWidth, imageHeight) <==> InEnvelope(r, imageWidth, imageHeight)
  {
  }

  /** The extraction loop: boxes are kept, in order, iff they pass both tests.
      The contract states membership and multiplicity only: the next stage
      sorts the kept boxes by left edge, so their relative order is never
      observed. */
  function FilterRects(rects: seq<Rect>, imageWidth: nat, imageHeight: nat): (kept: seq<Rect>)
    ensures |kept| <= |rects|
    ensures forall r :: r in kept <==> r in rects && Keeps(r, imageWidth, imageHeight)
    ensures forall r :: multiset(kept)[r] == if Keeps(r, imageWidth, imageHeight) then multiset(rects)[r] else 0
  {
    if |rects| == 0 then []
    else
      var rest := FilterRects(rects[1..], imageWidth, imageHeight);
      assert rects == [rects[0]] + rects[1..];
      if Keeps(rects[0], imageWidth, imageHeight) then [rects[0]] + rest else rest
  }

  /** Boundary values on a 1000 x 1000 image: 4% and 40% of the width and
      0.5% and 20% of the height are kept, one pixel further out is not. */
  lemma EnvelopeBoundaries()
    ensures Keeps(Rect(0, 0, 40, 5), 1000, 1000)
    ensures Keeps(Rect(0, 0, 400, 200), 1000, 1000)
    ensures IsTooSmall(Rect(0, 0, 39, 5), 1000, 1000)
    ensures IsTooSmall(Rect(0, 0, 40, 4), 1000, 1000)
    ensures IsTooLarge(Rect(0, 0, 401, 200), 1000, 1000)
    ensures IsTooLarge(Rect(0, 0, 400, 201), 1000, 1000)
  {
  }

  /** A blob covering half the image width never survives the filter. */
  lemma HalfWidthBlobDiscarded(rects: seq<Rect>, r: Rect, imageWidth: nat, imageHeight: nat)
    requires 2 * r.width == imageWidth && imageWidth > 0
    ensures r !in FilterRects(rects, imageWidth, imageHeight)
  {
  }
}
