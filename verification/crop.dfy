/** Choosing the image windows that are sent to text recognition (the loop
    over groups in TryOCR).

    A group is looked at only when it has between two and five boxes.  Its
    window is the union of its boxes, grown by a five-pixel margin on every
    side and then clamped to the image. */
module Crop {
  import opened Wrappers
  import opened Geometry
  import opened Bounds
  import opened BlockGroup
  import opened BlockGroupFacts

  /** Pixels added around a group's bounding box on every side. */
  const Margin: int := 5

  /** Smallest and largest number of boxes of a group that is looked at. */
  const FewestMembers: int := 2
  const MostMembers: int := 5

  predicate Selected(group: seq<Rect>)
  {
    FewestMembers <= |group| <= MostMembers
  }

  /** The window cut out of the image for a group, or None when the group
      is skipped for its size. */
  function GroupWindow(group: seq<Rect>, imageWidth: nat, imageHeight: nat): (w: Option<Rect>)
    ensures w.Some? <==> 1 < |group| < 6
    ensures w.Some? ==> WithinImage(w.value, imageWidth, imageHeight)
  {
    if Selected(group) then
      Some(FixInvalidRect(Inflate(UnionAll(group[0], group), Margin, Margin), imageWidth, imageHeight))
    else
      None
  }

  /** Every box of a selected group that lies inside the image is inside its
      window; clamping the grown box never cuts into such a box. */
  lemma WindowCoversMembers(group: seq<Rect>, imageWidth: nat, imageHeight: nat)
    requires Selected(group)
    ensures forall r :: r in group && Inside(r, imageWidth, imageHeight) ==>
              Contains(GroupWindow(group, imageWidth, imageHeight).value, r)
  {
    var box := UnionAll(group[0], group);
    var grown := Inflate(box, Margin, Margin);
    UnionAllBounds(group[0], group);
    forall r | r in group && Inside(r, imageWidth, imageHeight)
      ensures Contains(GroupWindow(group, imageWidth, imageHeight).value, r)
    {
      assert Contains(grown, box);
      ContainsTransitive(grown, box, r);
      FixKeepsInsideContents(grown, r, imageWidth, imageHeight);
    }
  }

  /** Before clamping, the window is the margin around the smallest box
      covering the group: any box covering every member, grown by the
      margin, covers it. */
  lemma WindowIsTight(group: seq<Rect>, cover: Rect)
    requires Selected(group)
    requires forall r :: r in group ==> Contains(cover, r)
    ensures Contains(Inflate(cover, Margin, Margin), Inflate(UnionAll(group[0], group), Margin, Margin))
  {
    UnionAllIsLeast(group[0], group, cover);
  }

  /** The window recomputed from a group's boxes is the one the grouping
      sweep already had: the grown, clamped running box of that group. */
  lemma WindowIsGrownCurrent(rects: seq<Rect>, i: nat, imageWidth: nat, imageHeight: nat)
    requires i < |rects|
    requires Selected(GroupOf(rects, i, imageWidth, imageHeight))
    ensures GroupWindow(GroupOf(rects, i, imageWidth, imageHeight), imageWidth, imageHeight)
         == Some(FixInvalidRect(Inflate(GrowFrom(rects, i, {}, imageWidth, imageHeight).current, Margin, Margin), imageWidth, imageHeight))
  {
    GroupOfBox(rects, i, imageWidth, imageHeight);
  }

  /** The windows of the selected groups, in group order. */
  function Windows(groups: seq<seq<Rect>>, imageWidth: nat, imageHeight: nat): (ws: seq<Rect>)
    ensures |ws| <= |groups|
    ensures forall w :: w in ws ==> WithinImage(w, imageWidth, imageHeight)
  {
    if |groups| == 0 then []
    else
      var first := GroupWindow(groups[0], imageWidth, imageHeight);
      (if first.Some? then [first.value] else []) + Windows(groups[1..], imageWidth, imageHeight)
  }

  /** A window is produced exactly for each selected group. */
  lemma {:induction false} WindowsExact(groups: seq<seq<Rect>>, imageWidth: nat, imageHeight: nat)
    ensures |Windows(groups, imageWidth, imageHeight)| == |SelectedIndices(groups, 0)|
    ensures forall w :: w in Windows(groups, imageWidth, imageHeight) <==>
              exists p :: 0 <= p < |groups| && Selected(groups[p]) && GroupWindow(groups[p], imageWidth, imageHeight) == Some(w)
  {
    if |groups| > 0 {
      WindowsExact(groups[1..], imageWidth, imageHeight);
      SelectedIndicesShift(groups, 0);
      var ws := Windows(groups, imageWidth, imageHeight);
      var rest := Windows(groups[1..], imageWidth, imageHeight);
      forall w ensures w in ws <==> exists p :: 0 <= p < |groups| && Selected(groups[p]) && GroupWindow(groups[p], imageWidth, imageHeight) == Some(w)
      {
        if w in rest {
          var p :| 0 <= p < |groups[1..]| && Selected(groups[1..][p]) && GroupWindow(groups[1..][p], imageWidth, imageHeight) == Some(w);
          assert groups[p + 1] == groups[1..][p];
        }
        if exists p :: 0 <= p < |groups| && Selected(groups[p]) && GroupWindow(groups[p], imageWidth, imageHeight) == Some(w) {
          var p :| 0 <= p < |groups| && Selected(groups[p]) && GroupWindow(groups[p], imageWidth, imageHeight) == Some(w);
          if p > 0 {
            assert groups[1..][p - 1] == groups[p];
          }
        }
      }
    }
  }

  /** The positions from k on of the selected groups. */
  function SelectedIndices(groups: seq<seq<Rect>>, k: nat): (ps: seq<nat>)
    requires k <= |groups|
    decreases |groups| - k
  {
    if k == |groups| then []
    else if Selected(groups[k]) then [k] + SelectedIndices(groups, k + 1)
    else SelectedIndices(groups, k + 1)
  }

  lemma {:induction false} SelectedIndicesShift(groups: seq<seq<Rect>>, k: nat)
    requires 0 < |groups| && k < |groups|
    decreases |groups| - k
    ensures |SelectedIndices(groups, k + 1)| == |SelectedIndices(groups[1..], k)|
  {
    if k + 1 < |groups| {
      SelectedIndicesShift(groups, k + 1);
      assert groups[1..][k] == groups[k + 1];
    }
  }
}
