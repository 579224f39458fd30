/** Integer axis-aligned rectangles and the rectangle operations the detector
    borrows from its image library.  The library is not part of this model, so
    union, intersection, inflation and the overlap test are defined here from
    their edges:

    - Union: least left and top edge, greatest right and bottom edge;
    - IntersectsWith: the open extents overlap on both axes;
    - Intersect: greatest left and top edge, least right and bottom edge;
    - Inflate(dx, dy): every edge pushed outwards by dx horizontally and dy
      vertically.

    Extents are plain integers: clamping can produce a negative width and the
    model keeps that visible instead of ruling it out. */
module Geometry {

  /** A rectangle in pixel coordinates: top-left corner and extents. */
  datatype Rect = Rect(x: int, y: int, width: int, height: int)
  {
    function Area(): int { width * height }
  }

  function Min(a: int, b: int): int { if a <= b then a else b }

  function Max(a: int, b: int): int { if a <= b then b else a }

  /** Every edge of `inner` lies on or inside the matching edge of `outer`. */
  predicate Contains(outer: Rect, inner: Rect)
  {
    && outer.x <= inner.x && inner.x + inner.width <= outer.x + outer.width
    && outer.y <= inner.y && inner.y + inner.height <= outer.y + outer.height
  }

  /** The bounding rectangle of two rectangles. */
  function Union(a: Rect, b: Rect): (u: Rect)
    ensures Contains(u, a) && Contains(u, b)
  {
    var x1 := if a.x <= b.x then a.x else b.x;
    var x2 := if a.x + a.width <= b.x + b.width then b.x + b.width else a.x + a.width;
    var y1 := if a.y <= b.y then a.y else b.y;
    var y2 := if a.y + a.height <= b.y + b.height then b.y + b.height else a.y + a.height;
    Rect(x1, y1, x2 - x1, y2 - y1)
  }

  /** Strict overlap of the two open extents on both axes.  Touching edges do
      not intersect. */
  predicate IntersectsWith(a: Rect, b: Rect)
  {
    && a.x < b.x + b.width && a.x + a.width > b.x
    && a.y < b.y + b.height && a.y + a.height > b.y
  }

  /** The common part of two rectangles.  Only ever taken of rectangles that
      intersect, where it is the usual non-empty overlap. */
  function Intersect(a: Rect, b: Rect): (c: Rect)
    ensures Contains(a, c) && Contains(b, c)
  {
    var x1 := if a.x <= b.x then b.x else a.x;
    var x2 := if a.x + a.width <= b.x + b.width then a.x + a.width else b.x + b.width;
    var y1 := if a.y <= b.y then b.y else a.y;
    var y2 := if a.y + a.height <= b.y + b.height then a.y + a.height else b.y + b.height;
    Rect(x1, y1, x2 - x1, y2 - y1)
  }

  /** Pushes the left and right edges out by `dx` and the top and bottom edges
      out by `dy`; the centre stays where it was. */
  function Inflate(r: Rect, dx: int, dy: int): (s: Rect)
    ensures s.x == r.x - dx && s.x + s.width == r.x + r.width + dx
    ensures s.y == r.y - dy && s.y + s.height == r.y + r.height + dy
  {
    Rect(r.x - dx, r.y - dy, r.width + 2 * dx, r.height + 2 * dy)
  }

  /** Containment is a preorder on rectangles. */
  lemma ContainsTransitive(a: Rect, b: Rect, c: Rect)
    requires Contains(a, b) && Contains(b, c)
    ensures Contains(a, c)
  {
  }

  /** The union is the LEAST rectangle holding both operands. */
  lemma UnionIsLeast(a: Rect, b: Rect, c: Rect)
    requires Contains(c, a) && Contains(c, b)
    ensures Contains(c, Union(a, b))
  {
  }

  /** The intersection is the GREATEST rectangle inside both operands. */
  lemma IntersectIsGreatest(a: Rect, b: Rect, c: Rect)
    requires Contains(a, c) && Contains(b, c)
    ensures Contains(Intersect(a, b), c)
  {
  }

  /** Growing one operand grows the union. */
  lemma UnionMonotone(a: Rect, a': Rect, b: Rect)
    requires Contains(a', a)
    ensures Contains(Union(a', b), Union(a, b))
  {
  }

  /** For rectangles with positive extents, the overlap test agrees with the
      intersection being non-empty. */
  lemma IntersectsIffNonEmpty(a: Rect, b: Rect)
    requires a.width > 0 && a.height > 0 && b.width > 0 && b.height > 0
    ensures IntersectsWith(a, b) <==> Intersect(a, b).width > 0 && Intersect(a, b).height > 0
  {
  }

  /** A rectangle is a fixed point of union with itself, and union is symmetric. */
  lemma UnionSelfAndSymmetric(a: Rect, b: Rect)
    ensures Union(a, a) == a
    ensures Union(a, b) == Union(b, a)
  {
  }

  /** Union folded left to right over `rs`, starting from `start`. */
  function UnionAll(start: Rect, rs: seq<Rect>): Rect
  {
    if |rs| == 0 then start else Union(UnionAll(start, rs[..|rs| - 1]), rs[|rs| - 1])
  }

  /** The fold holds its start and every folded rectangle. */
  lemma {:induction false} UnionAllBounds(start: Rect, rs: seq<Rect>)
    ensures Contains(UnionAll(start, rs), start)
    ensures forall k :: 0 <= k < |rs| ==> Contains(UnionAll(start, rs), rs[k])
  {
    if |rs| > 0 {
      var init := rs[..|rs| - 1];
      var u := UnionAll(start, rs);
      UnionAllBounds(start, init);
      assert u == Union(UnionAll(start, init), rs[|rs| - 1]);
      ContainsTransitive(u, UnionAll(start, init), start);
      forall k | 0 <= k < |rs| - 1
        ensures Contains(u, rs[k])
      {
        assert rs[k] == init[k];
        ContainsTransitive(u, UnionAll(start, init), rs[k]);
      }
    }
  }

  /** ... and is the least rectangle that does. */
  lemma {:induction false} UnionAllIsLeast(start: Rect, rs: seq<Rect>, c: Rect)
    requires Contains(c, start)
    requires forall k :: 0 <= k < |rs| ==> Contains(c, rs[k])
    ensures Contains(c, UnionAll(start, rs))
  {
    if |rs| > 0 {
      var init := rs[..|rs| - 1];
      forall k | 0 <= k < |init|
        ensures Contains(c, init[k])
      {
        assert init[k] == rs[k];
      }
      UnionAllIsLeast(start, init, c);
      UnionIsLeast(UnionAll(start, init), rs[|rs| - 1], c);
    }
  }

  /** Folding a rectangle onto itself first changes nothing. */
  lemma {:induction false} UnionAllRepeatedStart(start: Rect, rs: seq<Rect>)
    ensures UnionAll(start, [start] + rs) == UnionAll(start, rs)
  {
    if |rs| == 0 {
      assert UnionAll(start, [start]) == Union(UnionAll(start, []), start);
      UnionSelfAndSymmetric(start, start);
    } else {
      var init := rs[..|rs| - 1];
      assert ([start] + rs)[..|rs|] == [start] + init;
      UnionAllRepeatedStart(start, init);
    }
  }

  /** Appending one rectangle folds it in last. */
  lemma UnionAllSnoc(start: Rect, rs: seq<Rect>, r: Rect)
    ensures UnionAll(start, rs + [r]) == Union(UnionAll(start, rs), r)
  {
    assert (rs + [r])[..|rs|] == rs;
  }
}
