/** Vertical grouping of the merged line boxes into address-block candidates
    (GroupRects).

    The boxes are ordered by top edge.  Every box i that is not too large
    seeds a group holding itself; the later boxes j are then visited in
    order, and j joins when
    - it is not too large (a too-large j is recorded as ignored),
    - its top is not more than twice its own height below the bottom of the
      group box `current` grown so far, and
    - its horizontal projection overlaps that of the SEED (not of `current`)
      by more than a quarter of the seed's area and of j's area;
    a joining j is appended to the group and `current` grows to hold it.
    Groups may share boxes: a box that joined one group still seeds its own. */
module BlockGroup {
  import opened Geometry
  import opened SizeFilter
  import opened Sorting

  /** r starts more than twice its own height below the bottom of `current`. */
  predicate TooFarBelow(r: Rect, current: Rect)
  {
    r.y > current.y + current.height + r.height * 2
  }

  /** The box moved to the top row, so that only columns are compared. */
  function Flatten(r: Rect): Rect
  {
    Rect(r.x, 0, r.width, r.height)
  }

  /** The flattened boxes overlap, and the overlap's area exceeds a quarter of
      the seed's area and a quarter of r's. */
  predicate ColumnsOverlap(seed: Rect, r: Rect)
  {
    && IntersectsWith(Flatten(seed), Flatten(r))
    && 4 * Intersect(Flatten(seed), Flatten(r)).Area() > seed.Area()
    && 4 * Intersect(Flatten(seed), Flatten(r)).Area() > r.Area()
  }

  /** The three gates a later box must pass to join the seed's group. */
  predicate Joins(seed: Rect, current: Rect, r: Rect, imageWidth: nat, imageHeight: nat)
  {
    && !IsTooLarge(r, imageWidth, imageHeight)
    && !TooFarBelow(r, current)
    && ColumnsOverlap(seed, r)
  }

  predicate AllIn(ps: seq<nat>, lo: int, hi: int)
  {
    forall q :: 0 <= q < |ps| ==> lo <= ps[q] < hi
  }

  predicate Increasing(ps: seq<nat>)
  {
    forall p, q :: 0 <= p < q < |ps| ==> ps[p] < ps[q]
  }

  /** The boxes at the given indices, in that order. */
  function Pick(rects: seq<Rect>, ps: seq<nat>): (rs: seq<Rect>)
    requires AllIn(ps, 0, |rects|)
    ensures |rs| == |ps|
  {
    if |ps| == 0 then [] else Pick(rects, ps[..|ps| - 1]) + [rects[ps[|ps| - 1]]]
  }

  lemma {:induction false} PickIndex(rects: seq<Rect>, ps: seq<nat>)
    requires AllIn(ps, 0, |rects|)
    ensures forall q :: 0 <= q < |ps| ==> Pick(rects, ps)[q] == rects[ps[q]]
  {
    if |ps| > 0 {
      PickIndex(rects, ps[..|ps| - 1]);
    }
  }

  lemma PickSnoc(rects: seq<Rect>, ps: seq<nat>, k: nat)
    requires AllIn(ps, 0, |rects|) && k < |rects|
    ensures AllIn(ps + [k], 0, |rects|)
    ensures Pick(rects, ps + [k]) == Pick(rects, ps) + [rects[k]]
  {
    assert (ps + [k])[..|ps|] == ps;
  }

  /** The indices in ps below k, in their order. */
  function Below(ps: seq<nat>, k: int): (b: seq<nat>)
    ensures AllIn(b, 0, k)
  {
    if |ps| == 0 then []
    else
      var b := Below(ps[..|ps| - 1], k);
      if ps[|ps| - 1] < k then b + [ps[|ps| - 1]] else b
  }

  lemma BelowSnoc(ps: seq<nat>, x: nat, k: int)
    ensures Below(ps + [x], k) == if x < k then Below(ps, k) + [x] else Below(ps, k)
  {
    assert (ps + [x])[..|ps|] == ps;
  }

  lemma {:induction false} BelowAllBelow(ps: seq<nat>, k: int)
    requires AllIn(ps, 0, k)
    ensures Below(ps, k) == ps
  {
    if |ps| > 0 {
      var init := ps[..|ps| - 1];
      BelowAllBelow(init, k);
      BelowSnoc(init, ps[|ps| - 1], k);
      assert init + [ps[|ps| - 1]] == ps;
    }
  }

  lemma {:induction false} BelowAppendAbove(ps: seq<nat>, t: seq<nat>, k: int, hi: int)
    requires AllIn(t, k, hi)
    ensures Below(ps + t, k) == Below(ps, k)
  {
    if |t| > 0 {
      var init := t[..|t| - 1];
      assert AllIn(init, k, hi);
      BelowAppendAbove(ps, init, k, hi);
      BelowSnoc(ps + init, t[|t| - 1], k);
      calc {
        Below(ps + t, k);
        { assert (ps + init) + [t[|t| - 1]] == ps + t; }
        Below((ps + init) + [t[|t| - 1]], k);
        Below(ps + init, k);
      }
    } else {
      assert ps + t == ps;
    }
  }

  /** The state of one group's sweep: the grown box, the indices that joined
      (after the seed), and the shared ignored indices. */
  datatype Growth = Growth(current: Rect, picked: seq<nat>, ignored: set<int>)

  /** One visit of box j while growing the group seeded at i. */
  function GrowStep(rects: seq<Rect>, i: nat, j: nat, g: Growth, imageWidth: nat, imageHeight: nat): (next: Growth)
    requires i < j < |rects|
    ensures next.picked == g.picked || next.picked == g.picked + [j]
    ensures next.ignored == g.ignored || next.ignored == g.ignored + {j}
  {
    if IsTooLarge(rects[j], imageWidth, imageHeight) then
      g.(ignored := g.ignored + {j})
    else if TooFarBelow(rects[j], g.current) then
      g
    else if ColumnsOverlap(rects[i], rects[j]) then
      Growth(Union(g.current, rects[j]), g.picked + [j], g.ignored)
    else
      g
  }

  /** Box j joins exactly when it passes the three gates against the box
      grown so far; only then does the group box change, to the union.  j is
      recorded as ignored exactly when it is too large. */
  lemma GrowStepIff(rects: seq<Rect>, i: nat, j: nat, g: Growth, imageWidth: nat, imageHeight: nat)
    requires i < j < |rects|
    ensures var next := GrowStep(rects, i, j, g, imageWidth, imageHeight);
            && (next.picked == g.picked + [j] <==> Joins(rects[i], g.current, rects[j], imageWidth, imageHeight))
            && next.current == (if next.picked == g.picked + [j] then Union(g.current, rects[j]) else g.current)
            && (next.ignored == g.ignored + {j} <==> j in g.ignored || IsTooLarge(rects[j], imageWidth, imageHeight))
  {
    var next := GrowStep(rects, i, j, g, imageWidth, imageHeight);
    assert |g.picked + [j]| != |g.picked|;
  }

  /** The inner loop of the group seeded at i, from box j on. */
  function Grow(rects: seq<Rect>, i: nat, j: nat, g: Growth, imageWidth: nat, imageHeight: nat): (r: Growth)
    requires i < j <= |rects|
    decreases |rects| - j
    ensures |g.picked| <= |r.picked| && r.picked[..|g.picked|] == g.picked
    ensures g.ignored <= r.ignored
  {
    if j == |rects| then g
    else Grow(rects, i, j + 1, GrowStep(rects, i, j, g, imageWidth, imageHeight), imageWidth, imageHeight)
  }

  /** The indices a sweep from j adds lie in [j, |rects|) and increase. */
  lemma {:induction false} GrowTail(rects: seq<Rect>, i: nat, j: nat, g: Growth, imageWidth: nat, imageHeight: nat)
    requires i < j <= |rects|
    decreases |rects| - j
    ensures var r := Grow(rects, i, j, g, imageWidth, imageHeight);
            AllIn(r.picked[|g.picked|..], j, |rects|) && Increasing(r.picked[|g.picked|..])
  {
    var r := Grow(rects, i, j, g, imageWidth, imageHeight);
    if j < |rects| {
      var next := GrowStep(rects, i, j, g, imageWidth, imageHeight);
      var r' := Grow(rects, i, j + 1, next, imageWidth, imageHeight);
      GrowTail(rects, i, j + 1, next, imageWidth, imageHeight);
      TailStepLogic(g.picked, next.picked, r'.picked, j, |rects|);
      assert r == r';
    }
  }

  /** One step of GrowTail, stated on the index sequences alone. */
  lemma TailStepLogic(gp: seq<nat>, np: seq<nat>, rp: seq<nat>, j: nat, n: nat)
    requires np == gp || np == gp + [j]
    requires |np| <= |rp| && rp[..|np|] == np
    requires AllIn(rp[|np|..], j + 1, n) && Increasing(rp[|np|..])
    requires j < n
    ensures AllIn(rp[|gp|..], j, n) && Increasing(rp[|gp|..])
  {
    if np != gp {
      var tail := rp[|np|..];
      assert rp[|gp|] == np[|gp|] == j;
      assert rp[|gp|..] == [j] + tail;
    }
  }

  /** A prefix below j followed by increasing indices from j on is increasing. */
  lemma IncreasingConcat(ps: seq<nat>, r: seq<nat>, j: nat)
    requires Increasing(ps) && AllIn(ps, 0, j)
    requires |ps| <= |r| && r[..|ps|] == ps
    requires Increasing(r[|ps|..]) && AllIn(r[|ps|..], j, j + |r|)
    ensures Increasing(r)
  {
    forall p, q | 0 <= p < q < |r|
      ensures r[p] < r[q]
    {
      if q < |ps| {
        assert r[p] == ps[p] && r[q] == ps[q];
      } else if p < |ps| {
        assert r[p] == ps[p] && r[q] == r[|ps|..][q - |ps|];
      } else {
        assert r[p] == r[|ps|..][p - |ps|] && r[q] == r[|ps|..][q - |ps|];
      }
    }
  }

  /** The group box is the union of the seed with the boxes that joined. */
  predicate CurrentIsUnion(rects: seq<Rect>, i: nat, g: Growth)
    requires i < |rects|
  {
    AllIn(g.picked, 0, |rects|) && g.current == UnionAll(rects[i], Pick(rects, g.picked))
  }

  /** The group box always equals the union of the seed with the boxes that
      joined, in joining order. */
  lemma {:induction false} GrowCurrentIsUnion(rects: seq<Rect>, i: nat, j: nat, g: Growth, imageWidth: nat, imageHeight: nat)
    requires i < j <= |rects|
    decreases |rects| - j
    requires CurrentIsUnion(rects, i, g)
    ensures CurrentIsUnion(rects, i, Grow(rects, i, j, g, imageWidth, imageHeight))
  {
    if j < |rects| {
      var next := GrowStep(rects, i, j, g, imageWidth, imageHeight);
      GrowStepKeepsUnion(rects, i, j, g, imageWidth, imageHeight);
      GrowCurrentIsUnion(rects, i, j + 1, next, imageWidth, imageHeight);
      assert Grow(rects, i, j, g, imageWidth, imageHeight) == Grow(rects, i, j + 1, next, imageWidth, imageHeight);
    }
  }

  /** One step of GrowCurrentIsUnion. */
  lemma GrowStepKeepsUnion(rects: seq<Rect>, i: nat, j: nat, g: Growth, imageWidth: nat, imageHeight: nat)
    requires i < j < |rects|
    requires CurrentIsUnion(rects, i, g)
    ensures CurrentIsUnion(rects, i, GrowStep(rects, i, j, g, imageWidth, imageHeight))
  {
    var next := GrowStep(rects, i, j, g, imageWidth, imageHeight);
    GrowStepIff(rects, i, j, g, imageWidth, imageHeight);
    if next.picked == g.picked + [j] {
      PickSnoc(rects, g.picked, j);
      UnionAllSnoc(rects[i], Pick(rects, g.picked), rects[j]);
    }
  }

  lemma AllInSnoc(ps: seq<nat>, j: nat)
    requires AllIn(ps, 0, j)
    ensures AllIn(ps, 0, j + 1) && AllIn(ps + [j], 0, j + 1)
  {
  }



  /** The group box only grows. */
  lemma {:induction false} GrowOnlyGrows(rects: seq<Rect>, i: nat, j: nat, g: Growth, imageWidth: nat, imageHeight: nat)
    requires i < j <= |rects|
    decreases |rects| - j
    ensures Contains(Grow(rects, i, j, g, imageWidth, imageHeight).current, g.current)
  {
    if j < |rects| {
      var next := GrowStep(rects, i, j, g, imageWidth, imageHeight);
      GrowOnlyGrows(rects, i, j + 1, next, imageWidth, imageHeight);
      assert Contains(next.current, g.current);
      ContainsTransitive(Grow(rects, i, j + 1, next, imageWidth, imageHeight).current, next.current, g.current);
    }
  }

  /** The sweep adds to the ignored set exactly the too-large boxes it visits. */
  lemma {:induction false} GrowIgnored(rects: seq<Rect>, i: nat, j: nat, g: Growth, imageWidth: nat, imageHeight: nat)
    requires i < j <= |rects|
    decreases |rects| - j
    ensures var r := Grow(rects, i, j, g, imageWidth, imageHeight);
            forall k :: k in r.ignored <==> k in g.ignored || (j <= k < |rects| && IsTooLarge(rects[k], imageWidth, imageHeight))
  {
    if j < |rects| {
      var next := GrowStep(rects, i, j, g, imageWidth, imageHeight);
      GrowIgnored(rects, i, j + 1, next, imageWidth, imageHeight);
    }
  }

  /** What joins does not depend on the ignored set the sweep starts with. */
  lemma {:induction false} GrowIndependentOfIgnored(rects: seq<Rect>, i: nat, j: nat, g: Growth, h: Growth, imageWidth: nat, imageHeight: nat)
    requires i < j <= |rects|
    decreases |rects| - j
    requires g.current == h.current && g.picked == h.picked
    ensures Grow(rects, i, j, g, imageWidth, imageHeight).picked == Grow(rects, i, j, h, imageWidth, imageHeight).picked
    ensures Grow(rects, i, j, g, imageWidth, imageHeight).current == Grow(rects, i, j, h, imageWidth, imageHeight).current
  {
    if j < |rects| {
      GrowIndependentOfIgnored(rects, i, j + 1,
        GrowStep(rects, i, j, g, imageWidth, imageHeight), GrowStep(rects, i, j, h, imageWidth, imageHeight),
        imageWidth, imageHeight);
    }
  }

  /** The facts one step of the join characterisation rests on, stated
      without the sweep: j is in r's indices exactly when the step took it,
      and the indices of r below j are those before the step. */
  lemma JoinStepLogic(gp: seq<nat>, np: seq<nat>, rp: seq<nat>, j: nat, n: nat)
    requires AllIn(gp, 0, j)
    requires np == gp || np == gp + [j]
    requires |np| <= |rp| && rp[..|np|] == np
    requires AllIn(rp[|np|..], j + 1, n)
    ensures j in rp <==> np == gp + [j]
    ensures Below(rp, j) == gp
  {
    assert rp == np + rp[|np|..];
    BelowAppendAbove(np, rp[|np|..], j, n);
    BelowAllBelow(gp, j);
    if np == gp + [j] {
      BelowSnoc(gp, j, j);
      assert rp[|gp|] == j;
    }
  }

  /** The group box as it stood when box k was visited: the seed joined with
      the boxes picked before k. */
  function CurrentBefore(rects: seq<Rect>, i: nat, picked: seq<nat>, k: nat): Rect
    requires i < |rects| && k <= |rects|
  {
    UnionAll(rects[i], Pick(rects, Below(picked, k)))
  }

  /** The join rule for the boxes from j on: each is among `picked` exactly
      when it passes the three gates, the vertical one measured against the
      union of the seed with the boxes picked before it. */
  predicate JoinRuleFrom(rects: seq<Rect>, i: nat, j: nat, picked: seq<nat>, imageWidth: nat, imageHeight: nat)
    requires i < |rects|
    decreases |rects| - j
  {
    j < |rects| ==>
      && (j in picked <==>
            Joins(rects[i], CurrentBefore(rects, i, picked, j), rects[j], imageWidth, imageHeight))
      && JoinRuleFrom(rects, i, j + 1, picked, imageWidth, imageHeight)
  }

  /** The join rule read at one box k. */
  lemma {:induction false} JoinRuleAt(rects: seq<Rect>, i: nat, j: nat, picked: seq<nat>, k: nat, imageWidth: nat, imageHeight: nat)
    requires i < |rects| && j <= k < |rects|
    requires JoinRuleFrom(rects, i, j, picked, imageWidth, imageHeight)
    decreases k - j
    ensures k in picked <==>
              Joins(rects[i], CurrentBefore(rects, i, picked, k), rects[k], imageWidth, imageHeight)
  {
    if j < k {
      JoinRuleAt(rects, i, j + 1, picked, k, imageWidth, imageHeight);
    }
  }

  /** The join rule holds for the whole sweep. */
  lemma {:induction false} GrowJoinIff(rects: seq<Rect>, i: nat, j: nat, g: Growth, imageWidth: nat, imageHeight: nat)
    requires i < j <= |rects|
    requires AllIn(g.picked, 0, j) && CurrentIsUnion(rects, i, g)
    decreases |rects| - j, 1
    ensures JoinRuleFrom(rects, i, j, Grow(rects, i, j, g, imageWidth, imageHeight).picked, imageWidth, imageHeight)
  {
    if j < |rects| {
      var next := GrowStep(rects, i, j, g, imageWidth, imageHeight);
      GrowJoinIffAfterStep(rects, i, j, g, imageWidth, imageHeight);
      assert Grow(rects, i, j, g, imageWidth, imageHeight) == Grow(rects, i, j + 1, next, imageWidth, imageHeight);
    }
  }

  /** GrowJoinIff for the sweep after the visit of j. */
  lemma {:induction false} GrowJoinIffAfterStep(rects: seq<Rect>, i: nat, j: nat, g: Growth, imageWidth: nat, imageHeight: nat)
    requires i < j < |rects|
    requires AllIn(g.picked, 0, j) && CurrentIsUnion(rects, i, g)
    decreases |rects| - j, 0
    ensures var next := GrowStep(rects, i, j, g, imageWidth, imageHeight);
            JoinRuleFrom(rects, i, j, Grow(rects, i, j + 1, next, imageWidth, imageHeight).picked, imageWidth, imageHeight)
  {
    var next := GrowStep(rects, i, j, g, imageWidth, imageHeight);
    var r := Grow(rects, i, j + 1, next, imageWidth, imageHeight);
    GrowTail(rects, i, j + 1, next, imageWidth, imageHeight);
    JoinRuleStep(rects, i, j, g, r.picked, imageWidth, imageHeight);
    GrowStepKeepsUnion(rects, i, j, g, imageWidth, imageHeight);
    AllInSnoc(g.picked, j);
    GrowJoinIff(rects, i, j + 1, next, imageWidth, imageHeight);
  }




  /** The inductive step of GrowJoinIff: the rule for the boxes after j
      extends to j itself.  `rp` stands for the indices the rest of the sweep
      ends with. */
  lemma JoinRuleStep(rects: seq<Rect>, i: nat, j: nat, g: Growth, rp: seq<nat>, imageWidth: nat, imageHeight: nat)
    requires i < j < |rects|
    requires AllIn(g.picked, 0, j) && CurrentIsUnion(rects, i, g)
    requires var np := GrowStep(rects, i, j, g, imageWidth, imageHeight).picked;
             |np| <= |rp| && rp[..|np|] == np && AllIn(rp[|np|..], j + 1, |rects|)
    ensures j in rp <==> Joins(rects[i], CurrentBefore(rects, i, rp, j), rects[j], imageWidth, imageHeight)
  {
    var next := GrowStep(rects, i, j, g, imageWidth, imageHeight);
    var joined := next.picked == g.picked + [j];
    assert joined <==> Joins(rects[i], g.current, rects[j], imageWidth, imageHeight) by {
      GrowStepIff(rects, i, j, g, imageWidth, imageHeight);
    }
    assert (j in rp <==> joined) && Below(rp, j) == g.picked by {
      JoinStepLogic(g.picked, next.picked, rp, j, |rects|);
    }
  }

  /** The sweep for the group seeded at i, starting from the given ignored set. */
  function GrowFrom(rects: seq<Rect>, i: nat, ignored: set<int>, imageWidth: nat, imageHeight: nat): Growth
    requires i < |rects|
  {
    Grow(rects, i, i + 1, Growth(rects[i], [], ignored), imageWidth, imageHeight)
  }

  /** The boxes that join the group seeded at i come after it, in order. */
  lemma GrowFromInRange(rects: seq<Rect>, i: nat, ignored: set<int>, imageWidth: nat, imageHeight: nat)
    requires i < |rects|
    ensures var g := GrowFrom(rects, i, ignored, imageWidth, imageHeight);
            AllIn(g.picked, i + 1, |rects|) && AllIn(g.picked, 0, |rects|) && Increasing(g.picked)
  {
    var g0 := Growth(rects[i], [], ignored);
    GrowTail(rects, i, i + 1, g0, imageWidth, imageHeight);
    var g := GrowFrom(rects, i, ignored, imageWidth, imageHeight);
    assert g.picked[|g0.picked|..] == g.picked;
  }

  /** The outer loop from index i on, with the ignored indices so far. */
  function GroupFrom(rects: seq<Rect>, i: nat, ignored: set<int>, imageWidth: nat, imageHeight: nat): (groups: seq<seq<Rect>>)
    requires i <= |rects|
    decreases |rects| - i
    ensures |groups| <= |rects| - i
  {
    if i == |rects| then []
    else if i in ignored || IsTooLarge(rects[i], imageWidth, imageHeight) then
      GroupFrom(rects, i + 1, ignored, imageWidth, imageHeight)
    else
      var g := GrowFrom(rects, i, ignored, imageWidth, imageHeight);
      GrowFromInRange(rects, i, ignored, imageWidth, imageHeight);
      [[rects[i]] + Pick(rects, g.picked)] + GroupFrom(rects, i + 1, g.ignored, imageWidth, imageHeight)
  }

  /** GroupRects on boxes already ordered by top edge. */
  function GroupSorted(rects: seq<Rect>, imageWidth: nat, imageHeight: nat): (groups: seq<seq<Rect>>)
    ensures |groups| <= |rects|
  {
    GroupFrom(rects, 0, {}, imageWidth, imageHeight)
  }

  /** GroupRects: order by top edge, then group. */
  function GroupRects(rects: seq<Rect>, imageWidth: nat, imageHeight: nat): (groups: seq<seq<Rect>>)
    ensures |groups| <= |rects|
  {
    GroupSorted(SortBy(rects, Vertical), imageWidth, imageHeight)
  }

  // ---------------------------------------------------------------------
  // A reference formulation: one group per seed, computed independently.

  /** The group box i would grow, on its own. */
  function GroupOf(rects: seq<Rect>, i: nat, imageWidth: nat, imageHeight: nat): (group: seq<Rect>)
    requires i < |rects|
    ensures 1 <= |group| && group[0] == rects[i]
  {
    GrowFromInRange(rects, i, {}, imageWidth, imageHeight);
    [rects[i]] + Pick(rects, GrowFrom(rects, i, {}, imageWidth, imageHeight).picked)
  }

  /** The indices from i on of boxes that are not too large, in order. */
  function SeedIndices(rects: seq<Rect>, i: nat, imageWidth: nat, imageHeight: nat): (s: seq<nat>)
    requires i <= |rects|
    decreases |rects| - i
    ensures AllIn(s, i, |rects|)
  {
    if i == |rects| then []
    else if IsTooLarge(rects[i], imageWidth, imageHeight) then SeedIndices(rects, i + 1, imageWidth, imageHeight)
    else [i] + SeedIndices(rects, i + 1, imageWidth, imageHeight)
  }

  function GroupsAt(rects: seq<Rect>, s: seq<nat>, imageWidth: nat, imageHeight: nat): (groups: seq<seq<Rect>>)
    requires AllIn(s, 0, |rects|)
    ensures |groups| == |s|
  {
    if |s| == 0 then [] else [GroupOf(rects, s[0], imageWidth, imageHeight)] + GroupsAt(rects, s[1..], imageWidth, imageHeight)
  }

  lemma {:induction false} GroupsAtIndex(rects: seq<Rect>, s: seq<nat>, imageWidth: nat, imageHeight: nat)
    requires AllIn(s, 0, |rects|)
    ensures forall p :: 0 <= p < |s| ==> GroupsAt(rects, s, imageWidth, imageHeight)[p] == GroupOf(rects, s[p], imageWidth, imageHeight)
  {
    if |s| > 0 {
      GroupsAtIndex(rects, s[1..], imageWidth, imageHeight);
    }
  }

  /** The seeds are exactly the boxes from i on that are not too large, in
      increasing order. */
  lemma {:induction false} SeedIndicesExact(rects: seq<Rect>, i: nat, imageWidth: nat, imageHeight: nat)
    requires i <= |rects|
    decreases |rects| - i
    ensures var s := SeedIndices(rects, i, imageWidth, imageHeight);
            && Increasing(s)
            && forall k :: k in s <==> i <= k < |rects| && !IsTooLarge(rects[k], imageWidth, imageHeight)
  {
    if i < |rects| {
      SeedIndicesExact(rects, i + 1, imageWidth, imageHeight);
    }
  }

  /** The ignored set only ever holds too-large boxes, so skipping an ignored
      seed is the same as skipping a too-large one, and the outer loop emits
      exactly the reference group of every seed, in order. */
  lemma {:induction false} GroupFromIsPerSeed(rects: seq<Rect>, i: nat, ignored: set<int>, imageWidth: nat, imageHeight: nat)
    requires i <= |rects|
    requires forall k :: k in ignored && i <= k < |rects| ==> IsTooLarge(rects[k], imageWidth, imageHeight)
    decreases |rects| - i
    ensures GroupFrom(rects, i, ignored, imageWidth, imageHeight)
         == GroupsAt(rects, SeedIndices(rects, i, imageWidth, imageHeight), imageWidth, imageHeight)
  {
    if i < |rects| {
      var rest := SeedIndices(rects, i + 1, imageWidth, imageHeight);
      if i in ignored || IsTooLarge(rects[i], imageWidth, imageHeight) {
        GroupFromIsPerSeed(rects, i + 1, ignored, imageWidth, imageHeight);
      } else {
        var g := GrowFrom(rects, i, ignored, imageWidth, imageHeight);
        GrowIgnored(rects, i, i + 1, Growth(rects[i], [], ignored), imageWidth, imageHeight);
        GrowIndependentOfIgnored(rects, i, i + 1, Growth(rects[i], [], ignored), Growth(rects[i], [], {}), imageWidth, imageHeight);
        GroupFromIsPerSeed(rects, i + 1, g.ignored, imageWidth, imageHeight);
        assert ([i] + rest)[1..] == rest;
      }
    }
  }
}

/** What the grouping promises, stated on its result. */
module BlockGroupFacts {
  import opened Geometry
  import opened SizeFilter
  import opened Sorting
  import opened BlockGroup

  /** The sweep of the group seeded at i starts in a state the invariants hold for. */
  lemma StartHolds(rects: seq<Rect>, i: nat)
    requires i < |rects|
    ensures AllIn([], 0, i + 1) && CurrentIsUnion(rects, i, Growth(rects[i], [], {}))
  {
    assert Pick(rects, []) == [];
  }

  /** The shape of one group: the seed first, then the boxes that joined, in
      increasing index order and all after the seed. */
  lemma GroupOfMembers(rects: seq<Rect>, i: nat, imageWidth: nat, imageHeight: nat)
    requires i < |rects|
    ensures var picked := GrowFrom(rects, i, {}, imageWidth, imageHeight).picked;
            var group := GroupOf(rects, i, imageWidth, imageHeight);
            && AllIn(picked, i + 1, |rects|) && Increasing(picked)
            && |group| == 1 + |picked| && group[0] == rects[i]
            && forall q :: 0 <= q < |picked| ==> group[q + 1] == rects[picked[q]]
  {
    var picked := GrowFrom(rects, i, {}, imageWidth, imageHeight).picked;
    GrowFromInRange(rects, i, {}, imageWidth, imageHeight);
    PickIndex(rects, picked);
  }

  /** The join rule of one group: a later box is in the group exactly when it
      is not too large, is not too far below the group box as it stood when
      the box was visited, and overlaps the seed's columns enough. */
  lemma GroupOfJoinRule(rects: seq<Rect>, i: nat, k: nat, imageWidth: nat, imageHeight: nat)
    requires i < k < |rects|
    ensures var picked := GrowFrom(rects, i, {}, imageWidth, imageHeight).picked;
            k in picked <==> Joins(rects[i], CurrentBefore(rects, i, picked, k), rects[k], imageWidth, imageHeight)
  {
    var g0 := Growth(rects[i], [], {});
    StartHolds(rects, i);
    GrowJoinIff(rects, i, i + 1, g0, imageWidth, imageHeight);
    JoinRuleAt(rects, i, i + 1, GrowFrom(rects, i, {}, imageWidth, imageHeight).picked, k, imageWidth, imageHeight);
  }

  /** The final group box is the union of the group's boxes; it holds the
      seed and every member. */
  lemma GroupOfBox(rects: seq<Rect>, i: nat, imageWidth: nat, imageHeight: nat)
    requires i < |rects|
    ensures var group := GroupOf(rects, i, imageWidth, imageHeight);
            var current := GrowFrom(rects, i, {}, imageWidth, imageHeight).current;
            && current == UnionAll(group[0], group)
            && forall q :: 0 <= q < |group| ==> Contains(current, group[q])
  {
    var g := GrowFrom(rects, i, {}, imageWidth, imageHeight);
    var group := GroupOf(rects, i, imageWidth, imageHeight);
    StartHolds(rects, i);
    GrowCurrentIsUnion(rects, i, i + 1, Growth(rects[i], [], {}), imageWidth, imageHeight);
    assert group == [rects[i]] + Pick(rects, g.picked);
    UnionAllRepeatedStart(rects[i], Pick(rects, g.picked));
    UnionAllBounds(group[0], group);
  }

  /** No box of a group is too large, provided its seed is not. */
  lemma GroupOfNotTooLarge(rects: seq<Rect>, i: nat, imageWidth: nat, imageHeight: nat)
    requires i < |rects| && !IsTooLarge(rects[i], imageWidth, imageHeight)
    ensures forall r :: r in GroupOf(rects, i, imageWidth, imageHeight) ==> !IsTooLarge(r, imageWidth, imageHeight)
  {
    var picked := GrowFrom(rects, i, {}, imageWidth, imageHeight).picked;
    var group := GroupOf(rects, i, imageWidth, imageHeight);
    GroupOfMembers(rects, i, imageWidth, imageHeight);
    forall q | 0 <= q < |group|
      ensures !IsTooLarge(group[q], imageWidth, imageHeight)
    {
      if q > 0 {
        var k := picked[q - 1];
        GroupOfJoinRule(rects, i, k, imageWidth, imageHeight);
      }
    }
  }

  /** GroupRects emits exactly one group per box of the top-edge order that is
      not too large, in that order, each group being that box's own group. */
  lemma GroupRectsIsPerSeed(rects: seq<Rect>, imageWidth: nat, imageHeight: nat)
    ensures var s := SortBy(rects, Vertical);
            var seeds := SeedIndices(s, 0, imageWidth, imageHeight);
            var groups := GroupRects(rects, imageWidth, imageHeight);
            && |groups| == |seeds| && Increasing(seeds)
            && (forall k :: k in seeds <==> 0 <= k < |s| && !IsTooLarge(s[k], imageWidth, imageHeight))
            && forall p :: 0 <= p < |groups| ==> groups[p] == GroupOf(s, seeds[p], imageWidth, imageHeight)
  {
    var s := SortBy(rects, Vertical);
    var seeds := SeedIndices(s, 0, imageWidth, imageHeight);
    GroupFromIsPerSeed(s, 0, {}, imageWidth, imageHeight);
    SeedIndicesExact(s, 0, imageWidth, imageHeight);
    GroupsAtIndex(s, seeds, imageWidth, imageHeight);
  }

  /** A too-large box never seeds or joins any group. */
  lemma GroupRectsExcludeTooLarge(rects: seq<Rect>, imageWidth: nat, imageHeight: nat)
    ensures forall p, r :: 0 <= p < |GroupRects(rects, imageWidth, imageHeight)| && r in GroupRects(rects, imageWidth, imageHeight)[p]
              ==> !IsTooLarge(r, imageWidth, imageHeight)
  {
    var s := SortBy(rects, Vertical);
    var seeds := SeedIndices(s, 0, imageWidth, imageHeight);
    var groups := GroupRects(rects, imageWidth, imageHeight);
    GroupRectsIsPerSeed(rects, imageWidth, imageHeight);
    forall p | 0 <= p < |groups|
      ensures forall r :: r in groups[p] ==> !IsTooLarge(r, imageWidth, imageHeight)
    {
      assert seeds[p] in seeds;
      GroupOfNotTooLarge(s, seeds[p], imageWidth, imageHeight);
    }
  }

  // ---------------------------------------------------------------------
  // Three text lines of one address block: 150 x 15 boxes, 20 pixels
  // apart, in the same columns of a 400 x 200 image.

  lemma StackFacts(a: Rect, b: Rect, c: Rect)
    requires a == Rect(100, 10, 150, 15) && b == Rect(100, 30, 150, 15) && c == Rect(100, 50, 150, 15)
    ensures !IsTooLarge(a, 400, 200)
    ensures Joins(a, a, b, 400, 200) && Joins(a, Union(a, b), c, 400, 200) && Joins(b, b, c, 400, 200)
    ensures SortedBy([a, b, c], Vertical)
  {
    assert Intersect(Flatten(a), Flatten(b)) == Flatten(a);
    assert Intersect(Flatten(a), Flatten(c)) == Flatten(a);
    assert Intersect(Flatten(b), Flatten(c)) == Flatten(a);
    assert Flatten(a).Area() == 2250;
  }

  lemma StackFirstGroup(s: seq<Rect>, a: Rect, b: Rect, c: Rect)
    requires a == Rect(100, 10, 150, 15) && b == Rect(100, 30, 150, 15) && c == Rect(100, 50, 150, 15)
    requires s == [a, b, c]
    ensures GroupOf(s, 0, 400, 200) == [a, b, c]
  {
    StackFacts(a, b, c);
    var g0 := Growth(a, [], {});
    var g1 := GrowStep(s, 0, 1, g0, 400, 200);
    GrowStepIff(s, 0, 1, g0, 400, 200);
    var g2 := GrowStep(s, 0, 2, g1, 400, 200);
    GrowStepIff(s, 0, 2, g1, 400, 200);
    assert g2.picked == [1, 2];
    assert Grow(s, 0, 1, g0, 400, 200) == Grow(s, 0, 2, g1, 400, 200) == Grow(s, 0, 3, g2, 400, 200) == g2;
    assert Pick(s, [1, 2]) == Pick(s, [1]) + [c];
    assert Pick(s, [1]) == Pick(s, []) + [b];
  }

  lemma StackSecondGroup(s: seq<Rect>, a: Rect, b: Rect, c: Rect)
    requires a == Rect(100, 10, 150, 15) && b == Rect(100, 30, 150, 15) && c == Rect(100, 50, 150, 15)
    requires s == [a, b, c]
    ensures GroupOf(s, 1, 400, 200) == [b, c]
  {
    StackFacts(a, b, c);
    var g0 := Growth(b, [], {});
    var g1 := GrowStep(s, 1, 2, g0, 400, 200);
    GrowStepIff(s, 1, 2, g0, 400, 200);
    assert g1.picked == [2];
    assert Grow(s, 1, 2, g0, 400, 200) == Grow(s, 1, 3, g1, 400, 200) == g1;
    assert Pick(s, [2]) == Pick(s, []) + [c];
  }

  lemma StackLastGroup(s: seq<Rect>, a: Rect, b: Rect, c: Rect)
    requires s == [a, b, c]
    ensures GroupOf(s, 2, 400, 200) == [c]
  {
    assert GrowFrom(s, 2, {}, 400, 200) == Growth(c, [], {});
  }

  lemma StackSeeds(s: seq<Rect>, a: Rect, b: Rect, c: Rect)
    requires a == Rect(100, 10, 150, 15) && b == Rect(100, 30, 150, 15) && c == Rect(100, 50, 150, 15)
    requires s == [a, b, c]
    ensures SeedIndices(s, 0, 400, 200) == [0, 1, 2]
  {
    assert SeedIndices(s, 3, 400, 200) == [];
    assert SeedIndices(s, 2, 400, 200) == [2];
    assert SeedIndices(s, 1, 400, 200) == [1, 2];
  }

  lemma StackGroupSorted(s: seq<Rect>, a: Rect, b: Rect, c: Rect)
    requires a == Rect(100, 10, 150, 15) && b == Rect(100, 30, 150, 15) && c == Rect(100, 50, 150, 15)
    requires s == [a, b, c]
    ensures GroupSorted(s, 400, 200) == [[a, b, c], [b, c], [c]]
  {
    var seeds: seq<nat> := [0, 1, 2];
    calc {
      GroupSorted(s, 400, 200);
      GroupFrom(s, 0, {}, 400, 200);
      { GroupFromIsPerSeed(s, 0, {}, 400, 200);
        StackSeeds(s, a, b, c); }
      GroupsAt(s, seeds, 400, 200);
      { assert seeds[1..] == [1, 2]; }
      [GroupOf(s, 0, 400, 200)] + GroupsAt(s, [1, 2], 400, 200);
      { assert [1, 2][1..] == [2]; assert [2][1..] == []; }
      [GroupOf(s, 0, 400, 200), GroupOf(s, 1, 400, 200), GroupOf(s, 2, 400, 200)];
      { StackFirstGroup(s, a, b, c);
        StackSecondGroup(s, a, b, c);
        StackLastGroup(s, a, b, c); }
      [[a, b, c], [b, c], [c]];
    }
  }

  /** Three stacked lines of text give three groups, not one: the top line's
      group holds all three lines, and each lower line seeds its own group
      with the lines beneath it. */
  lemma StackedLinesGiveThreeGroups(a: Rect, b: Rect, c: Rect)
    requires a == Rect(100, 10, 150, 15) && b == Rect(100, 30, 150, 15) && c == Rect(100, 50, 150, 15)
    ensures GroupRects([a, b, c], 400, 200) == [[a, b, c], [b, c], [c]]
  {
    StackFacts(a, b, c);
    SortByKeepsSorted([a, b, c], Vertical);
    StackGroupSorted([a, b, c], a, b, c);
  }
}
