/** The horizontal fragment merge (MergeRects): a single greedy sweep over
    the boxes ordered by left edge.

    For each box i that has not been consumed, every later box j is visited:
    - a box with a side under 5 pixels is noise and is consumed;
    - otherwise j, widened by `half` pixels on each side, is tested against
      the current (possibly grown) box i; on overlap the union of box i with
      the UNWIDENED j replaces box i and j is consumed, provided the union
      stays under 30% of the image width and 5% of its height.
    Consumed boxes are still visited by later seeds, so one fragment can end
    up inside two merged boxes.  Afterwards every box is clamped and the
    unconsumed ones are emitted in order. */
module RowMerge {
  import opened Geometry
  import opened Bounds
  import opened Sorting

  /** A fragment under 5 pixels on either side. */
  predicate IsNoise(r: Rect)
  {
    r.height < 5 || r.width < 5
  }

  /** A union is accepted only while narrower than 30% of the image width and
      shorter than 5% of its height. */
  predicate WithinMergeCap(u: Rect, imageWidth: nat, imageHeight: nat)
  {
    10 * u.width < 3 * imageWidth && 20 * u.height < imageHeight
  }

  /** `after` holds `before`, and if it differs it is under the cap. */
  predicate GrewUnderCap(after: Rect, before: Rect, imageWidth: nat, imageHeight: nat)
  {
    Contains(after, before) && (after == before || WithinMergeCap(after, imageWidth, imageHeight))
  }

  /** The sweep's state: the boxes, updated in place, and the consumed indices. */
  datatype MergeState = MergeState(rects: seq<Rect>, ignored: set<int>)

  /** One visit of box j while growing box i. */
  function MergeStep(st: MergeState, i: nat, j: nat, imageWidth: nat, imageHeight: nat, half: int): (next: MergeState)
    requires i < j < |st.rects|
    ensures |next.rects| == |st.rects|
    ensures next.rects == st.rects[i := next.rects[i]]
    ensures next.ignored == st.ignored || next.ignored == st.ignored + {j}
  {
    var rj := st.rects[j];
    if IsNoise(rj) then
      st.(ignored := st.ignored + {j})
    else if IntersectsWith(st.rects[i], Inflate(rj, half, 0)) then
      var u := Union(st.rects[i], rj);
      if WithinMergeCap(u, imageWidth, imageHeight) then
        MergeState(st.rects[i := u], st.ignored + {j})
      else
        st
    else
      st
  }

  /** Box j ends up consumed exactly when it already was, when it is noise,
      or when its widened copy meets box i and the union stays under the cap. */
  lemma MergeStepConsumesIff(st: MergeState, i: nat, j: nat, imageWidth: nat, imageHeight: nat, half: int)
    requires i < j < |st.rects|
    ensures j in MergeStep(st, i, j, imageWidth, imageHeight, half).ignored <==>
              || j in st.ignored
              || IsNoise(st.rects[j])
              || (IntersectsWith(st.rects[i], Inflate(st.rects[j], half, 0))
                  && WithinMergeCap(Union(st.rects[i], st.rects[j]), imageWidth, imageHeight))
  {
  }

  /** Box i changes only by absorbing the unwidened box j, and then stays
      under the cap; a box newly consumed without being noise was absorbed. */
  lemma MergeStepGrowsSeed(st: MergeState, i: nat, j: nat, imageWidth: nat, imageHeight: nat, half: int)
    requires i < j < |st.rects|
    ensures var next := MergeStep(st, i, j, imageWidth, imageHeight, half);
            && (next.rects[i] == st.rects[i]
                || (&& next.rects[i] == Union(st.rects[i], st.rects[j])
                    && WithinMergeCap(next.rects[i], imageWidth, imageHeight)
                    && j in next.ignored))
            && (j in next.ignored && j !in st.ignored && !IsNoise(st.rects[j]) ==>
                  next.rects[i] == Union(st.rects[i], st.rects[j]))
  {
  }

  /** The inner loop: visits j, j+1, ... while growing box i. */
  function InnerSweep(st: MergeState, i: nat, j: nat, imageWidth: nat, imageHeight: nat, half: int): (r: MergeState)
    requires i < j <= |st.rects|
    decreases |st.rects| - j
    ensures |r.rects| == |st.rects|
    ensures r.rects == st.rects[i := r.rects[i]]
    ensures st.ignored <= r.ignored
  {
    if j == |st.rects| then st
    else InnerSweep(MergeStep(st, i, j, imageWidth, imageHeight, half), i, j + 1, imageWidth, imageHeight, half)
  }

  /** Box i only grows during its inner loop, and if it grew at all it ends
      under the cap. */
  lemma {:induction false} InnerSweepGrowsSeed(st: MergeState, i: nat, j: nat, imageWidth: nat, imageHeight: nat, half: int)
    requires i < j <= |st.rects|
    decreases |st.rects| - j
    ensures var r := InnerSweep(st, i, j, imageWidth, imageHeight, half);
            GrewUnderCap(r.rects[i], st.rects[i], imageWidth, imageHeight)
  {
    if j < |st.rects| {
      var next := MergeStep(st, i, j, imageWidth, imageHeight, half);
      MergeStepGrowsSeed(st, i, j, imageWidth, imageHeight, half);
      InnerSweepGrowsSeed(next, i, j + 1, imageWidth, imageHeight, half);
      var r := InnerSweep(next, i, j + 1, imageWidth, imageHeight, half);
      ContainsTransitive(r.rects[i], next.rects[i], st.rects[i]);
    }
  }

  /** The inner loop from j consumes only indices it visits. */
  lemma {:induction false} InnerSweepConsumesVisited(st: MergeState, i: nat, j: nat, imageWidth: nat, imageHeight: nat, half: int)
    requires i < j <= |st.rects|
    decreases |st.rects| - j
    ensures var r := InnerSweep(st, i, j, imageWidth, imageHeight, half);
            forall k :: k in r.ignored && k !in st.ignored ==> j <= k < |st.rects|
  {
    if j < |st.rects| {
      var next := MergeStep(st, i, j, imageWidth, imageHeight, half);
      InnerSweepConsumesVisited(next, i, j + 1, imageWidth, imageHeight, half);
      assert forall k :: k in next.ignored && k !in st.ignored ==> k == j;
    }
  }

  /** The inner loop from j consumes every noise box it visits. */
  lemma {:induction false} InnerSweepConsumesNoise(st: MergeState, i: nat, j: nat, imageWidth: nat, imageHeight: nat, half: int)
    requires i < j <= |st.rects|
    decreases |st.rects| - j
    ensures var r := InnerSweep(st, i, j, imageWidth, imageHeight, half);
            forall k :: j <= k < |st.rects| && IsNoise(st.rects[k]) ==> k in r.ignored
  {
    if j < |st.rects| {
      MergeStepConsumesIff(st, i, j, imageWidth, imageHeight, half);
      InnerSweepConsumesNoise(MergeStep(st, i, j, imageWidth, imageHeight, half), i, j + 1, imageWidth, imageHeight, half);
    }
  }

  /** Every box the inner loop consumes without its being noise ends up
      inside box i. */
  lemma {:induction false} InnerSweepAbsorbs(st: MergeState, i: nat, j: nat, imageWidth: nat, imageHeight: nat, half: int)
    requires i < j <= |st.rects|
    decreases |st.rects| - j
    ensures var r := InnerSweep(st, i, j, imageWidth, imageHeight, half);
            forall k :: j <= k < |st.rects| && k in r.ignored && k !in st.ignored && !IsNoise(st.rects[k]) ==>
              Contains(r.rects[i], st.rects[k])
  {
    if j < |st.rects| {
      var next := MergeStep(st, i, j, imageWidth, imageHeight, half);
      var r := InnerSweep(next, i, j + 1, imageWidth, imageHeight, half);
      InnerSweepAbsorbs(next, i, j + 1, imageWidth, imageHeight, half);
      forall k | j <= k < |st.rects| && k in r.ignored && k !in st.ignored && !IsNoise(st.rects[k])
        ensures Contains(r.rects[i], st.rects[k])
      {
        if k == j {
          InnerSweepConsumesVisited(next, i, j + 1, imageWidth, imageHeight, half);
          assert j in next.ignored;
          MergeStepGrowsSeed(st, i, j, imageWidth, imageHeight, half);
          assert Contains(next.rects[i], st.rects[j]);
          InnerSweepGrowsSeed(next, i, j + 1, imageWidth, imageHeight, half);
          ContainsTransitive(r.rects[i], next.rects[i], st.rects[j]);
        } else {
          assert k !in next.ignored;
          assert next.rects[k] == st.rects[k];
        }
      }
    }
  }

  /** The outer loop: seeds i, i+1, ... in order, skipping consumed ones. */
  function OuterSweep(st: MergeState, i: nat, imageWidth: nat, imageHeight: nat, half: int): (r: MergeState)
    requires i <= |st.rects|
    decreases |st.rects| - i
    ensures |r.rects| == |st.rects|
    ensures r.rects[..i] == st.rects[..i]
    ensures st.ignored <= r.ignored
  {
    if i == |st.rects| then st
    else if i in st.ignored then OuterSweep(st, i + 1, imageWidth, imageHeight, half)
    else OuterSweep(InnerSweep(st, i, i + 1, imageWidth, imageHeight, half), i + 1, imageWidth, imageHeight, half)
  }

  /** Every box from i on only grows, and a box that grew is under the cap. */
  lemma {:induction false} OuterSweepGrows(st: MergeState, i: nat, imageWidth: nat, imageHeight: nat, half: int)
    requires i <= |st.rects|
    decreases |st.rects| - i
    ensures var r := OuterSweep(st, i, imageWidth, imageHeight, half);
            forall k :: i <= k < |st.rects| ==> GrewUnderCap(r.rects[k], st.rects[k], imageWidth, imageHeight)
  {
    if i < |st.rects| {
      var r := OuterSweep(st, i, imageWidth, imageHeight, half);
      if i in st.ignored {
        assert r == OuterSweep(st, i + 1, imageWidth, imageHeight, half);
        OuterSweepGrows(st, i + 1, imageWidth, imageHeight, half);
      } else {
        var grown := InnerSweep(st, i, i + 1, imageWidth, imageHeight, half);
        assert r == OuterSweep(grown, i + 1, imageWidth, imageHeight, half);
        forall k | i <= k < |st.rects|
          ensures GrewUnderCap(r.rects[k], st.rects[k], imageWidth, imageHeight)
        {
          if k == i {
            assert r.rects[i] == grown.rects[i];
            InnerSweepGrowsSeed(st, i, i + 1, imageWidth, imageHeight, half);
          } else {
            assert grown.rects[k] == st.rects[k];
            OuterSweepGrows(grown, i + 1, imageWidth, imageHeight, half);
          }
        }
      }
    }
  }

  /** The outer loop from i consumes only indices after i. */
  lemma {:induction false} OuterSweepConsumesLater(st: MergeState, i: nat, imageWidth: nat, imageHeight: nat, half: int)
    requires i <= |st.rects|
    decreases |st.rects| - i
    ensures var r := OuterSweep(st, i, imageWidth, imageHeight, half);
            forall k :: k in r.ignored && k !in st.ignored ==> i < k < |st.rects|
  {
    if i < |st.rects| {
      var r := OuterSweep(st, i, imageWidth, imageHeight, half);
      if i in st.ignored {
        assert r == OuterSweep(st, i + 1, imageWidth, imageHeight, half);
        OuterSweepConsumesLater(st, i + 1, imageWidth, imageHeight, half);
      } else {
        var grown := InnerSweep(st, i, i + 1, imageWidth, imageHeight, half);
        assert r == OuterSweep(grown, i + 1, imageWidth, imageHeight, half);
        InnerSweepConsumesVisited(st, i, i + 1, imageWidth, imageHeight, half);
        OuterSweepConsumesLater(grown, i + 1, imageWidth, imageHeight, half);
      }
    }
  }

  /** An unconsumed seed i consumes every later noise box. */
  lemma OuterSweepConsumesNoise(st: MergeState, i: nat, imageWidth: nat, imageHeight: nat, half: int)
    requires i < |st.rects| && i !in st.ignored
    ensures var r := OuterSweep(st, i, imageWidth, imageHeight, half);
            forall k :: i < k < |st.rects| && IsNoise(st.rects[k]) ==> k in r.ignored
  {
    InnerSweepConsumesNoise(st, i, i + 1, imageWidth, imageHeight, half);
  }

  /** Every box at or after i that `r` has consumed but `st` had not, and
      that is not noise, lies inside a box of `r` at or after i and before it
      that `r` keeps. */
  predicate AbsorbedBefore(st: MergeState, r: MergeState, i: nat)
    requires |r.rects| == |st.rects|
  {
    forall k {:trigger k in r.ignored} ::
      i <= k < |st.rects| && k in r.ignored && k !in st.ignored && !IsNoise(st.rects[k]) ==>
      exists m :: i <= m < k && m !in r.ignored && Contains(r.rects[m], st.rects[k])
  }

  /** A consumed seed position adds no obligation. */
  lemma AbsorbedBeforeSkip(st: MergeState, r: MergeState, i: nat)
    requires |r.rects| == |st.rects| && i in st.ignored
    requires AbsorbedBefore(st, r, i + 1)
    ensures AbsorbedBefore(st, r, i)
  {
    forall k {:trigger k in r.ignored} | i <= k < |st.rects| && k in r.ignored && k !in st.ignored && !IsNoise(st.rects[k])
      ensures exists m :: i <= m < k && m !in r.ignored && Contains(r.rects[m], st.rects[k])
    {
      var m :| i + 1 <= m < k && m !in r.ignored && Contains(r.rects[m], st.rects[k]);
    }
  }

  /** Every box the outer loop from i consumes without its being noise lies
      inside a merged box at or after i and before it that is never
      consumed itself. */
  lemma {:induction false} OuterSweepAbsorbs(st: MergeState, i: nat, imageWidth: nat, imageHeight: nat, half: int)
    requires i <= |st.rects|
    decreases |st.rects| - i, 1
    ensures AbsorbedBefore(st, OuterSweep(st, i, imageWidth, imageHeight, half), i)
  {
    if i == |st.rects| {
      assert OuterSweep(st, i, imageWidth, imageHeight, half) == st;
    } else if i in st.ignored {
      var r := OuterSweep(st, i + 1, imageWidth, imageHeight, half);
      assert r == OuterSweep(st, i, imageWidth, imageHeight, half);
      OuterSweepAbsorbs(st, i + 1, imageWidth, imageHeight, half);
      AbsorbedBeforeSkip(st, r, i);
    } else {
      OuterSweepAbsorbsSeeding(st, i, imageWidth, imageHeight, half);
    }
  }

  lemma {:induction false} OuterSweepAbsorbsSeeding(st: MergeState, i: nat, imageWidth: nat, imageHeight: nat, half: int)
    requires i < |st.rects| && i !in st.ignored
    decreases |st.rects| - i, 0
    ensures AbsorbedBefore(st, OuterSweep(st, i, imageWidth, imageHeight, half), i)
  {
    var grown := InnerSweep(st, i, i + 1, imageWidth, imageHeight, half);
    var r := OuterSweep(grown, i + 1, imageWidth, imageHeight, half);
    assert r == OuterSweep(st, i, imageWidth, imageHeight, half);
    InnerSweepConsumesVisited(st, i, i + 1, imageWidth, imageHeight, half);
    InnerSweepAbsorbs(st, i, i + 1, imageWidth, imageHeight, half);
    OuterSweepConsumesLater(grown, i + 1, imageWidth, imageHeight, half);
    OuterSweepAbsorbs(grown, i + 1, imageWidth, imageHeight, half);
    AbsorbedBeforeSeed(st, grown, r, i);
  }

  /** The seeding step of the outer loop, stated over the three states:
      before seed i, after its inner loop, and after the later seeds. */
  lemma AbsorbedBeforeSeed(st: MergeState, grown: MergeState, r: MergeState, i: nat)
    requires i < |st.rects| == |grown.rects| == |r.rects| && i !in st.ignored
    requires grown.rects == st.rects[i := grown.rects[i]]
    requires r.rects[..i + 1] == grown.rects[..i + 1]
    requires forall k :: k in grown.ignored && k !in st.ignored ==> i + 1 <= k < |st.rects|
    requires forall k :: i + 1 <= k < |st.rects| && k in grown.ignored && k !in st.ignored && !IsNoise(st.rects[k]) ==>
               Contains(grown.rects[i], st.rects[k])
    requires forall k :: k in r.ignored && k !in grown.ignored ==> i + 1 < k < |st.rects|
    requires AbsorbedBefore(grown, r, i + 1)
    ensures AbsorbedBefore(st, r, i)
  {
    assert r.rects[i] == grown.rects[i];
    assert i !in r.ignored;
    forall k {:trigger k in r.ignored} | i <= k < |st.rects| && k in r.ignored && k !in st.ignored && !IsNoise(st.rects[k])
      ensures exists m :: i <= m < k && m !in r.ignored && Contains(r.rects[m], st.rects[k])
    {
      if k in grown.ignored {
        assert Contains(r.rects[i], st.rects[k]);
      } else {
        assert grown.rects[k] == st.rects[k];
        var m :| i + 1 <= m < k && m !in r.ignored && Contains(r.rects[m], grown.rects[k]);
      }
    }
  }

  /** The whole sweep, from an empty consumed set. */
  function Sweep(xs: seq<Rect>, imageWidth: nat, imageHeight: nat, half: int): (st: MergeState)
    ensures |st.rects| == |xs|
  {
    OuterSweep(MergeState(xs, {}), 0, imageWidth, imageHeight, half)
  }

  /** What the sweep guarantees: boxes only grow, grown boxes are under the
      cap, the first box is never consumed and every later noise box is. */
  lemma SweepFacts(xs: seq<Rect>, imageWidth: nat, imageHeight: nat, half: int)
    ensures var st := Sweep(xs, imageWidth, imageHeight, half);
            && (forall k :: 0 <= k < |xs| ==> GrewUnderCap(st.rects[k], xs[k], imageWidth, imageHeight))
            && (forall k :: k in st.ignored ==> 1 <= k < |xs|)
            && (forall k :: 1 <= k < |xs| && IsNoise(xs[k]) ==> k in st.ignored)
  {
    var st0 := MergeState(xs, {});
    OuterSweepGrows(st0, 0, imageWidth, imageHeight, half);
    OuterSweepConsumesLater(st0, 0, imageWidth, imageHeight, half);
    if |xs| > 0 {
      OuterSweepConsumesNoise(st0, 0, imageWidth, imageHeight, half);
    }
  }

  /** No fragment is lost: the first box and every box that is not noise
      lies inside a box the sweep keeps, its own or an earlier one. */
  lemma SweepLosesNoFragment(xs: seq<Rect>, imageWidth: nat, imageHeight: nat, half: int)
    ensures var st := Sweep(xs, imageWidth, imageHeight, half);
            forall k :: 0 <= k < |xs| && (k == 0 || !IsNoise(xs[k])) ==>
              exists m :: 0 <= m <= k && m !in st.ignored && Contains(st.rects[m], xs[k])
  {
    var st0 := MergeState(xs, {});
    var st := Sweep(xs, imageWidth, imageHeight, half);
    assert st == OuterSweep(st0, 0, imageWidth, imageHeight, half);
    SweepFacts(xs, imageWidth, imageHeight, half);
    OuterSweepAbsorbs(st0, 0, imageWidth, imageHeight, half);
    forall k | 0 <= k < |xs| && (k == 0 || !IsNoise(xs[k]))
      ensures exists m :: 0 <= m <= k && m !in st.ignored && Contains(st.rects[m], xs[k])
    {
      if k !in st.ignored {
        assert Contains(st.rects[k], xs[k]);
      } else {
        assert k in OuterSweep(st0, 0, imageWidth, imageHeight, half).ignored;
        var m :| 0 <= m < k && m !in st.ignored && Contains(st.rects[m], xs[k]);
      }
    }
  }

  /** The indices in [lo, hi) of a consumed set. */
  function IgnoredBetween(ignored: set<int>, lo: int, hi: int): set<int>
  {
    set m | m in ignored && lo <= m < hi
  }

  /** The unconsumed indices in [k, n), in increasing order. */
  function Survivors(ignored: set<int>, k: nat, n: nat): (s: seq<nat>)
    requires k <= n
    decreases n - k
    ensures forall p :: 0 <= p < |s| ==> k <= s[p] < n
  {
    if k == n then []
    else if k in ignored then Survivors(ignored, k + 1, n)
    else [k] + Survivors(ignored, k + 1, n)
  }

  /** The survivors are exactly the unconsumed indices of the range, each
      once, in increasing order. */
  lemma {:induction false} SurvivorsExact(ignored: set<int>, k: nat, n: nat)
    requires k <= n
    decreases n - k
    ensures var s := Survivors(ignored, k, n);
            && (forall m :: m in s <==> k <= m < n && m !in ignored)
            && (forall p, q :: 0 <= p < q < |s| ==> s[p] < s[q])
  {
    if k < n {
      SurvivorsExact(ignored, k + 1, n);
    }
  }

  /** One survivor per index of the range that is not consumed. */
  lemma {:induction false} SurvivorsCount(ignored: set<int>, k: nat, n: nat)
    requires k <= n
    decreases n - k
    ensures |Survivors(ignored, k, n)| == (n - k) - |IgnoredBetween(ignored, k, n)|
  {
    if k == n {
      assert IgnoredBetween(ignored, k, n) == {};
    } else {
      SurvivorsCount(ignored, k + 1, n);
      if k in ignored {
        assert IgnoredBetween(ignored, k, n) == IgnoredBetween(ignored, k + 1, n) + {k};
      } else {
        assert IgnoredBetween(ignored, k, n) == IgnoredBetween(ignored, k + 1, n);
      }
    }
  }

  /** The emission loop: clamps every box from index k on and keeps the
      unconsumed ones, in order. */
  function Collect(rs: seq<Rect>, ignored: set<int>, imageWidth: nat, imageHeight: nat, k: nat): (out: seq<Rect>)
    requires k <= |rs|
    decreases |rs| - k
    ensures forall o :: o in out ==> WithinImage(o, imageWidth, imageHeight)
  {
    if k == |rs| then []
    else if k in ignored then Collect(rs, ignored, imageWidth, imageHeight, k + 1)
    else [FixInvalidRect(rs[k], imageWidth, imageHeight)] + Collect(rs, ignored, imageWidth, imageHeight, k + 1)
  }

  /** The emitted boxes are exactly the clamped survivors, in index order. */
  lemma {:induction false} CollectIsClampedSurvivors(rs: seq<Rect>, ignored: set<int>, imageWidth: nat, imageHeight: nat, k: nat)
    requires k <= |rs|
    decreases |rs| - k
    ensures var s := Survivors(ignored, k, |rs|);
            var out := Collect(rs, ignored, imageWidth, imageHeight, k);
            && |out| == |s|
            && forall p :: 0 <= p < |out| ==> out[p] == FixInvalidRect(rs[s[p]], imageWidth, imageHeight)
  {
    if k < |rs| {
      CollectIsClampedSurvivors(rs, ignored, imageWidth, imageHeight, k + 1);
      if k !in ignored {
        var rest := Collect(rs, ignored, imageWidth, imageHeight, k + 1);
        var out := [FixInvalidRect(rs[k], imageWidth, imageHeight)] + rest;
        assert forall p :: 1 <= p < |out| ==> out[p] == rest[p - 1];
      }
    }
  }

  /** The merge of boxes already ordered by left edge; `hExpand` is the
      rounded 1% of the image width, and half of it (integer division) widens
      each candidate on both sides. */
  function MergeSorted(xs: seq<Rect>, imageWidth: nat, imageHeight: nat, hExpand: nat): (out: seq<Rect>)
    ensures forall o :: o in out ==> WithinImage(o, imageWidth, imageHeight)
  {
    var st := Sweep(xs, imageWidth, imageHeight, hExpand / 2);
    Collect(st.rects, st.ignored, imageWidth, imageHeight, 0)
  }

  /** MergeRects: sort by left edge, then sweep. */
  function MergeRects(rects: seq<Rect>, imageWidth: nat, imageHeight: nat, hExpand: nat): (out: seq<Rect>)
    ensures forall o :: o in out ==> WithinImage(o, imageWidth, imageHeight)
  {
    MergeSorted(SortBy(rects, Horizontal), imageWidth, imageHeight, hExpand)
  }
}

module RowMergeFacts {
  import opened Geometry
  import opened Bounds
  import opened RowMerge

  /** The shape of the merge output: the clamped boxes at the unconsumed
      indices, in index order, one fewer than the input for every consumed
      index; the first box is always among them. */
  lemma MergeSortedShape(xs: seq<Rect>, imageWidth: nat, imageHeight: nat, hExpand: nat)
    ensures var st := Sweep(xs, imageWidth, imageHeight, hExpand / 2);
            var s := Survivors(st.ignored, 0, |xs|);
            var out := MergeSorted(xs, imageWidth, imageHeight, hExpand);
            && |out| == |s| == |xs| - |st.ignored|
            && (forall p :: 0 <= p < |out| ==> out[p] == FixInvalidRect(st.rects[s[p]], imageWidth, imageHeight))
            && (|xs| > 0 ==> |s| > 0 && s[0] == 0)
  {
    var st := Sweep(xs, imageWidth, imageHeight, hExpand / 2);
    var s := Survivors(st.ignored, 0, |xs|);
    SweepFacts(xs, imageWidth, imageHeight, hExpand / 2);
    CollectIsClampedSurvivors(st.rects, st.ignored, imageWidth, imageHeight, 0);
    SurvivorsCount(st.ignored, 0, |xs|);
    SurvivorsExact(st.ignored, 0, |xs|);
    assert IgnoredBetween(st.ignored, 0, |xs|) == st.ignored;
    if |xs| > 0 {
      assert 0 in s;
    }
  }

  /** No fragment is lost by the merge: the first box and every box that is
      not noise lies, before clamping, inside the box emitted at some output
      position whose index is at or before its own. */
  lemma MergeSortedCoversFragments(xs: seq<Rect>, imageWidth: nat, imageHeight: nat, hExpand: nat)
    ensures var st := Sweep(xs, imageWidth, imageHeight, hExpand / 2);
            var s := Survivors(st.ignored, 0, |xs|);
            forall k :: 0 <= k < |xs| && (k == 0 || !IsNoise(xs[k])) ==>
              exists p :: 0 <= p < |s| && s[p] <= k && Contains(st.rects[s[p]], xs[k])
  {
    var st := Sweep(xs, imageWidth, imageHeight, hExpand / 2);
    var s := Survivors(st.ignored, 0, |xs|);
    SweepLosesNoFragment(xs, imageWidth, imageHeight, hExpand / 2);
    SurvivorsExact(st.ignored, 0, |xs|);
    forall k | 0 <= k < |xs| && (k == 0 || !IsNoise(xs[k]))
      ensures exists p :: 0 <= p < |s| && s[p] <= k && Contains(st.rects[s[p]], xs[k])
    {
      var m :| 0 <= m <= k && m !in st.ignored && Contains(st.rects[m], xs[k]);
      assert m in s;
      var p :| 0 <= p < |s| && s[p] == m;
    }
  }

  /** Two 5 x 5 boxes are not noise: the noise test is a side UNDER 5.  On
      any image that holds them, and for any widening too small to bridge
      the gap between them, both survive the merge unchanged. */
  lemma FivesKept(xs: seq<Rect>, imageWidth: nat, imageHeight: nat, hExpand: nat)
    requires |xs| == 2 && xs[0] == Rect(0, 0, 5, 5) && xs[1] == Rect(100, 0, 5, 5)
    requires 105 <= imageWidth && 5 <= imageHeight && hExpand < 190
    ensures MergeSorted(xs, imageWidth, imageHeight, hExpand) == xs
  {
    HalfBelow(hExpand);
    LeftOfWidened(xs[0], xs[1], hExpand / 2);
    SquareInside(xs[0], 0, imageWidth, imageHeight);
    SquareInside(xs[1], 100, imageWidth, imageHeight);
    ApartKept(xs, imageWidth, imageHeight, hExpand);
  }

  /** Two boxes inside the image, the second not noise and not meeting the
      first even widened, both come out of the merge unchanged. */
  lemma ApartKept(xs: seq<Rect>, imageWidth: nat, imageHeight: nat, hExpand: nat)
    requires |xs| == 2 && Inside(xs[0], imageWidth, imageHeight) && Inside(xs[1], imageWidth, imageHeight)
    requires !IsNoise(xs[1]) && !IntersectsWith(xs[0], Inflate(xs[1], hExpand / 2, 0))
    ensures MergeSorted(xs, imageWidth, imageHeight, hExpand) == xs
  {
    var s := MergeState(xs, {});
    ApartOuter(s, imageWidth, imageHeight, hExpand / 2);
    assert Sweep(xs, imageWidth, imageHeight, hExpand / 2) == s;
    KeptPairCollect(xs, {}, imageWidth, imageHeight);
  }

  /** A second box that is not noise and does not meet the first, even
      widened, leaves a two-box inner loop idle. */
  lemma ApartInner(s: MergeState, imageWidth: nat, imageHeight: nat, half: int)
    requires |s.rects| == 2
    requires !IsNoise(s.rects[1]) && !IntersectsWith(s.rects[0], Inflate(s.rects[1], half, 0))
    ensures InnerSweep(s, 0, 1, imageWidth, imageHeight, half) == s
  {
    assert MergeStep(s, 0, 1, imageWidth, imageHeight, half) == s;
    assert InnerSweep(s, 0, 2, imageWidth, imageHeight, half) == s;
  }

  /** The last seed of a two-box sweep has nothing to visit. */
  lemma LastSeedIdle(s: MergeState, imageWidth: nat, imageHeight: nat, half: int)
    requires |s.rects| == 2
    ensures OuterSweep(s, 1, imageWidth, imageHeight, half) == s
  {
    assert InnerSweep(s, 1, 2, imageWidth, imageHeight, half) == s;
    assert OuterSweep(s, 2, imageWidth, imageHeight, half) == s;
  }

  /** ... and so does the whole two-box sweep. */
  lemma ApartOuter(s: MergeState, imageWidth: nat, imageHeight: nat, half: int)
    requires |s.rects| == 2 && 0 !in s.ignored
    requires !IsNoise(s.rects[1]) && !IntersectsWith(s.rects[0], Inflate(s.rects[1], half, 0))
    ensures OuterSweep(s, 0, imageWidth, imageHeight, half) == s
  {
    ApartInner(s, imageWidth, imageHeight, half);
    LastSeedIdle(s, imageWidth, imageHeight, half);
  }

  /** Emitting two boxes that lie inside the image, with `ignored` holding
      neither index, gives them back unchanged. */
  lemma KeptPairCollect(rs: seq<Rect>, ignored: set<int>, imageWidth: nat, imageHeight: nat)
    requires |rs| == 2 && 0 !in ignored && 1 !in ignored
    requires Inside(rs[0], imageWidth, imageHeight) && Inside(rs[1], imageWidth, imageHeight)
    ensures Collect(rs, ignored, imageWidth, imageHeight, 0) == rs
  {
    FixLeavesInsideAlone(rs[0], imageWidth, imageHeight);
    FixLeavesInsideAlone(rs[1], imageWidth, imageHeight);
    assert Collect(rs, ignored, imageWidth, imageHeight, 2) == [];
    assert Collect(rs, ignored, imageWidth, imageHeight, 1) == [rs[1]];
  }

  /** The box at the head of the ordering is never tested for noise: of two
      4 x 4 boxes only the second is dropped. */
  lemma FoursHalved(xs: seq<Rect>)
    requires |xs| == 2 && xs[0] == Rect(0, 0, 4, 4) && xs[1] == Rect(100, 0, 4, 4)
    ensures MergeSorted(xs, 1000, 1000, 0) == [xs[0]]
  {
    var s := MergeState(xs, {});
    var t := MergeState(xs, {1});
    FoursInner(s, t);
    LastSeedIdle(t, 1000, 1000, 0);
    assert OuterSweep(s, 0, 1000, 1000, 0) == t;
    FixLeavesInsideAlone(xs[0], 1000, 1000);
    assert Collect(xs, {1}, 1000, 1000, 1) == [];
  }

  lemma FoursInner(s: MergeState, t: MergeState)
    requires |s.rects| == 2 && s.ignored == {} && t == s.(ignored := {1})
    requires s.rects[1] == Rect(100, 0, 4, 4)
    ensures InnerSweep(s, 0, 1, 1000, 1000, 0) == t
  {
    FoursAreNoise(s.rects[1]);
    assert MergeStep(s, 0, 1, 1000, 1000, 0) == t;
    assert InnerSweep(t, 0, 2, 1000, 1000, 0) == t;
  }

  /** The consumed-fragment quirk in general: a fragment already consumed
      by an earlier seed is still absorbed by box i when it overlaps the
      widened test and the union stays under the cap. */
  lemma ConsumedFragmentStillAbsorbed(st: MergeState, i: nat, j: nat, imageWidth: nat, imageHeight: nat, half: int)
    requires i < j < |st.rects| && j in st.ignored && !IsNoise(st.rects[j])
    requires IntersectsWith(st.rects[i], Inflate(st.rects[j], half, 0))
    requires WithinMergeCap(Union(st.rects[i], st.rects[j]), imageWidth, imageHeight)
    ensures MergeStep(st, i, j, imageWidth, imageHeight, half).rects[i] == Union(st.rects[i], st.rects[j])
  {
  }

  /** The arithmetic behind the two-box examples. */
  /** A box ending left of another's widened left edge does not meet it. */
  lemma LeftOfWidened(a: Rect, b: Rect, half: int)
    requires a.x + a.width <= b.x - half
    ensures !IntersectsWith(a, Inflate(b, half, 0))
  {
  }

  /** A 5 x 5 box on the top row, within the image width. */
  lemma SquareInside(b: Rect, x: int, imageWidth: nat, imageHeight: nat)
    requires b == Rect(x, 0, 5, 5) && 0 <= x && x + 5 <= imageWidth && 5 <= imageHeight
    ensures Inside(b, imageWidth, imageHeight)
  {
  }

  lemma HalfBelow(hExpand: nat)
    requires hExpand < 190
    ensures 0 <= hExpand / 2 < 95
  {
  }

  lemma FoursAreNoise(b: Rect)
    requires b == Rect(100, 0, 4, 4)
    ensures IsNoise(b)
  {
  }
}
