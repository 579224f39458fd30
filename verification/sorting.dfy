/** Ordering rectangles by their left edge (before the row merge) or their
    top edge (before block grouping).  The program's library sort is not
    stable, so any ordering by the key is admissible; the model uses a stable
    insertion sort as one such ordering. */
module Sorting {
  import opened Geometry

  datatype Axis = Horizontal | Vertical

  function Key(r: Rect, axis: Axis): int
  {
    match axis
    case Horizontal => r.x
    case Vertical => r.y
  }

  predicate SortedBy(s: seq<Rect>, axis: Axis)
  {
    forall i, j :: 0 <= i < j < |s| ==> Key(s[i], axis) <= Key(s[j], axis)
  }

  /** Inserts r before the first element whose key is not smaller. */
  function Insert(r: Rect, s: seq<Rect>, axis: Axis): (t: seq<Rect>)
    ensures multiset(t) == multiset(s) + multiset{r}
    ensures |t| == |s| + 1
    ensures t[0] == r || (|s| > 0 && t[0] == s[0])
  {
    if |s| == 0 then [r]
    else if Key(r, axis) <= Key(s[0], axis) then [r] + s
    else
      var rest := Insert(r, s[1..], axis);
      assert s == [s[0]] + s[1..];
      assert multiset([s[0]] + rest) == multiset{s[0]} + multiset(rest);
      [s[0]] + rest
  }

  /** Inserting into an ordered sequence keeps it ordered. */
  lemma {:induction false} InsertKeepsSorted(r: Rect, s: seq<Rect>, axis: Axis)
    requires SortedBy(s, axis)
    ensures SortedBy(Insert(r, s, axis), axis)
  {
    if |s| > 0 && Key(r, axis) > Key(s[0], axis) {
      var rest := Insert(r, s[1..], axis);
      InsertKeepsSorted(r, s[1..], axis);
      assert Key(s[0], axis) <= Key(rest[0], axis);
    }
  }

  /** A permutation of the input, ordered by the key. */
  function SortBy(s: seq<Rect>, axis: Axis): (t: seq<Rect>)
    ensures SortedBy(t, axis)
    ensures multiset(t) == multiset(s)
    ensures |t| == |s|
  {
    if |s| == 0 then []
    else
      assert s == [s[0]] + s[1..];
      var rest := SortBy(s[1..], axis);
      InsertKeepsSorted(s[0], rest, axis);
      Insert(s[0], rest, axis)
  }

  /** The insertion sort leaves an already ordered sequence as it is. */
  lemma {:induction false} SortByKeepsSorted(s: seq<Rect>, axis: Axis)
    requires SortedBy(s, axis)
    ensures SortBy(s, axis) == s
  {
    if |s| > 0 {
      var tail := s[1..];
      calc {
        SortBy(s, axis);
        Insert(s[0], SortBy(tail, axis), axis);
        { assert SortedBy(tail, axis);
          SortByKeepsSorted(tail, axis); }
        Insert(s[0], tail, axis);
        { if |tail| > 0 {
            assert Key(s[0], axis) <= Key(tail[0], axis);
          } }
        [s[0]] + tail;
        s;
      }
    }
  }
}
