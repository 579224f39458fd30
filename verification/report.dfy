/** The text TryOCR reports: every accepted address followed by an empty
    line, in window order, and how that text reads back as lines. */
module Report {
  import opened Wrappers
  import opened Geometry
  import opened Address

  /** The line terminator the report appends (a Windows line end). */
  const NewLine: string := "\r\n"

  /** The address text accepted for one window, if any. */
  function AddressAt(w: Rect, ocr: Rect -> Option<string>, classify: string -> seq<string>): Option<string>
  {
    match ocr(w)
    case None => None
    case Some(pageText) => TryOcrAddress(pageText, classify)
  }

  /** What each window yields, in window order. */
  function Outcomes(ws: seq<Rect>, ocr: Rect -> Option<string>, classify: string -> seq<string>): seq<Option<string>>
  {
    seq(|ws|, k requires 0 <= k < |ws| => AddressAt(ws[k], ocr, classify))
  }

  /** The values of the outcomes that are present, in order. */
  function Values(rs: seq<Option<string>>): (vs: seq<string>)
    ensures |vs| <= |rs|
  {
    if |rs| == 0 then []
    else
      var before := Values(rs[..|rs| - 1]);
      if rs[|rs| - 1].Some? then before + [rs[|rs| - 1].value] else before
  }

  /** A value is kept exactly when it is present among the outcomes. */
  lemma {:induction false} ValuesExact(rs: seq<Option<string>>)
    ensures forall v :: v in Values(rs) <==> Some(v) in rs
  {
    if |rs| > 0 {
      var init := rs[..|rs| - 1];
      ValuesExact(init);
      assert rs == init + [rs[|rs| - 1]];
    }
  }

  /** The accepted addresses, in window order. */
  function Accepted(ws: seq<Rect>, ocr: Rect -> Option<string>, classify: string -> seq<string>): seq<string>
  {
    Values(Outcomes(ws, ocr, classify))
  }

  /** Every block reads back as exactly three lines. */
  predicate ThreeLinesEach(blocks: seq<string>)
  {
    forall k :: 0 <= k < |blocks| ==> |SplitLines(blocks[k])| == 3
  }

  /** Every present outcome reads back as exactly three lines. */
  predicate ThreeLinesWherePresent(rs: seq<Option<string>>)
  {
    forall k :: 0 <= k < |rs| && rs[k].Some? ==> |SplitLines(rs[k].value)| == 3
  }

  lemma {:induction false} ValuesThreeLines(rs: seq<Option<string>>)
    requires ThreeLinesWherePresent(rs)
    ensures ThreeLinesEach(Values(rs))
  {
    if |rs| > 0 {
      var init := rs[..|rs| - 1];
      assert ThreeLinesWherePresent(init) by {
        forall k | 0 <= k < |init| && init[k].Some?
          ensures |SplitLines(init[k].value)| == 3
        {
          assert init[k] == rs[k];
        }
      }
      ValuesThreeLines(init);
      if rs[|rs| - 1].Some? {
        ThreeLinesSnoc(Values(init), rs[|rs| - 1].value);
      }
    }
  }

  /** Each accepted address reads back as three lines. */
  lemma AcceptedAreThreeLines(ws: seq<Rect>, ocr: Rect -> Option<string>, classify: string -> seq<string>)
    ensures ThreeLinesEach(Accepted(ws, ocr, classify))
  {
    var rs := Outcomes(ws, ocr, classify);
    forall k | 0 <= k < |rs| && rs[k].Some?
      ensures |SplitLines(rs[k].value)| == 3
    {
      AddressAtIsThreeLines(ws[k], ocr, classify);
    }
    ValuesThreeLines(rs);
  }

  lemma ThreeLinesSnoc(blocks: seq<string>, b: string)
    requires ThreeLinesEach(blocks) && |SplitLines(b)| == 3
    ensures ThreeLinesEach(blocks + [b])
  {
    var t := blocks + [b];
    forall k | 0 <= k < |t|
      ensures |SplitLines(t[k])| == 3
    {
      if k < |blocks| {
        assert t[k] == blocks[k];
      }
    }
  }

  lemma AddressAtIsThreeLines(w: Rect, ocr: Rect -> Option<string>, classify: string -> seq<string>)
    requires AddressAt(w, ocr, classify).Some?
    ensures |SplitLines(AddressAt(w, ocr, classify).value)| == 3
  {
    AcceptedIsFirstThreeLines(ocr(w).value, classify);
  }

  /** One accepted address as the report holds it: the address on its
      line, then an empty line. */
  function Entry(address: string): string
  {
    address + NewLine + NewLine
  }

  /** Every accepted address followed by an empty line. */
  function Report(blocks: seq<string>): string
  {
    if |blocks| == 0 then []
    else Report(blocks[..|blocks| - 1]) + Entry(blocks[|blocks| - 1])
  }

  /** The report as the program builds it: one pass over the windows'
      outcomes, appending each accepted address and an empty line. */
  method ReportText(outcomes: seq<Option<string>>) returns (text: string)
    ensures text == Report(Values(outcomes))
  {
    text := [];
    var i := 0;
    while i < |outcomes|
      invariant 0 <= i <= |outcomes|
      invariant text == Report(Values(outcomes[..i]))
    {
      assert outcomes[..i + 1][..i] == outcomes[..i];
      if outcomes[i].Some? {
        var before := Values(outcomes[..i]);
        var after := before + [outcomes[i].value];
        assert after[..|after| - 1] == before;
        text := text + Entry(outcomes[i].value);
      }
      i := i + 1;
    }
    assert outcomes[..i] == outcomes;
  }

  // ---------------------------------------------------------------------
  // Reading the report back

  /** The lines of a report are the lines of its blocks, in order: the
      empty lines between blocks vanish when it is split. */
  function LinesOf(blocks: seq<string>): seq<string>
  {
    if |blocks| == 0 then [] else LinesOf(blocks[..|blocks| - 1]) + SplitLines(blocks[|blocks| - 1])
  }

  lemma {:induction false} ReportLines(blocks: seq<string>)
    requires ThreeLinesEach(blocks)
    ensures SplitLines(Report(blocks)) == LinesOf(blocks)
    ensures |LinesOf(blocks)| == 3 * |blocks|
  {
    if |blocks| > 0 {
      var init := blocks[..|blocks| - 1];
      var b := blocks[|blocks| - 1];
      var r := Report(init);
      assert ThreeLinesEach(init) by {
        forall k | 0 <= k < |init| ensures |SplitLines(init[k])| == 3 {
          assert init[k] == blocks[k];
        }
      }
      ReportLines(init);
      ReportEndsWithBreak(init);
      assert Report(blocks) == r + Entry(b);
      assert b + NewLine + NewLine == b + (NewLine + NewLine);
      SplitAfterBreak(r, Entry(b));
      SplitAppend(b, NewLine + NewLine);
      BreaksOnly(NewLine + NewLine);
      assert SplitLines(b) + [] == SplitLines(b);
    }
  }

  lemma ReportEndsWithBreak(blocks: seq<string>)
    ensures var r := Report(blocks); |r| == 0 || IsBreak(r[|r| - 1])
  {
  }

  lemma {:induction false} BreaksOnly(s: string)
    requires forall k :: 0 <= k < |s| ==> IsBreak(s[k])
    ensures SplitLines(s) == []
    decreases |s|
  {
    if |s| > 0 {
      BreaksOnly(s[1..]);
    }
  }
}
