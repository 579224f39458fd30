/** Counting zero runs in a profile (CountSegements).

    The loop keeps one flag, "the last value that was not negative was a
    zero".  A zero seen with the flag down opens a run and is counted; a
    positive value lowers the flag; a negative value changes nothing.  A run
    still open at the end is taken back off the count.  So the result is the
    number of positive values that close a run of zeros, negatives being
    invisible. */
module Segments {

  /** The last non-negative value of s is a zero. */
  predicate InZeroRun(s: seq<int>)
    decreases |s|
  {
    if |s| == 0 then false
    else if s[|s| - 1] < 0 then InZeroRun(s[..|s| - 1])
    else s[|s| - 1] == 0
  }

  /** Reference count: positions holding a positive value that directly
      follows (negatives aside) a zero. */
  function ClosedRuns(s: seq<int>): nat
    decreases |s|
  {
    if |s| == 0 then 0
    else
      var before := s[..|s| - 1];
      ClosedRuns(before) + (if s[|s| - 1] > 0 && InZeroRun(before) then 1 else 0)
  }

  /** Positions where a zero run opens: a zero not already inside a run. */
  function OpenedRuns(s: seq<int>): nat
    decreases |s|
  {
    if |s| == 0 then 0
    else
      var before := s[..|s| - 1];
      OpenedRuns(before) + (if s[|s| - 1] == 0 && !InZeroRun(before) then 1 else 0)
  }

  /** Every opened run is closed, except the one still open at the end. */
  lemma {:induction false} OpenedMinusOpenIsClosed(s: seq<int>)
    ensures OpenedRuns(s) == ClosedRuns(s) + (if InZeroRun(s) then 1 else 0)
    decreases |s|
  {
    if |s| > 0 {
      OpenedMinusOpenIsClosed(s[..|s| - 1]);
    }
  }

  /** CountSegements as the program writes it, with the flag and the count
      held in local variables. */
  method CountSegments(values: seq<int>) returns (count: int)
    ensures count == ClosedRuns(values)
  {
    var segmentCount := 0;
    var prevWasZero := false;
    var i := 0;
    while i < |values|
      invariant 0 <= i <= |values|
      invariant segmentCount == OpenedRuns(values[..i])
      invariant prevWasZero == InZeroRun(values[..i])
    {
      var v := values[i];
      assert values[..i + 1][..i] == values[..i];
      if v == 0 && !prevWasZero {
        segmentCount := segmentCount + 1;
        prevWasZero := true;
      } else if v > 0 {
        prevWasZero := false;
      }
      i := i + 1;
    }
    assert values[..i] == values;
    OpenedMinusOpenIsClosed(values);
    count := segmentCount - (if prevWasZero then 1 else 0);
  }

  /** The values that are not negative, in order. */
  function NonNegatives(s: seq<int>): (t: seq<int>)
    ensures forall k :: 0 <= k < |t| ==> t[k] >= 0
    decreases |s|
  {
    if |s| == 0 then []
    else if s[|s| - 1] < 0 then NonNegatives(s[..|s| - 1])
    else NonNegatives(s[..|s| - 1]) + [s[|s| - 1]]
  }

  /** Negative values are invisible to the count: dropping them all leaves
      both the run flag and the count unchanged. */
  lemma {:induction false} NegativesAreInvisible(s: seq<int>)
    ensures InZeroRun(NonNegatives(s)) == InZeroRun(s)
    ensures ClosedRuns(NonNegatives(s)) == ClosedRuns(s)
    decreases |s|
  {
    if |s| > 0 {
      var before := s[..|s| - 1];
      NegativesAreInvisible(before);
      if s[|s| - 1] >= 0 {
        var t := NonNegatives(before) + [s[|s| - 1]];
        assert t[..|t| - 1] == NonNegatives(before);
      }
    }
  }

  lemma CountExamples()
    ensures ClosedRuns([3, 0, 0, 4, 0, 2, 0]) == 2
    ensures ClosedRuns([0, -1, 0, 5]) == 1
    ensures ClosedRuns([0, 0, 0]) == 0
  {
    assert [3, 0, 0, 4, 0, 2, 0][..6] == [3, 0, 0, 4, 0, 2];
    assert [3, 0, 0, 4, 0, 2][..5] == [3, 0, 0, 4, 0];
    assert [3, 0, 0, 4, 0][..4] == [3, 0, 0, 4];
    assert [3, 0, 0, 4][..3] == [3, 0, 0];
    assert [3, 0, 0][..2] == [3, 0];
    assert [3, 0][..1] == [3];
    assert [0, -1, 0, 5][..3] == [0, -1, 0];
    assert [0, -1, 0][..2] == [0, -1];
    assert [0, -1][..1] == [0];
    assert [0, 0, 0][..2] == [0, 0];
    assert [0, 0][..1] == [0];
  }
}
