/** Deciding whether a recognised text block is a postal address
    (HeuristicAddressCheck and the decision part of TryOcrAddress).

    The recognised page text is split into lines at every line-feed and
    carriage-return character, dropping empty pieces.  A block is accepted
    when the line shape looks like "name / street / town" and the entity
    tagger finds a person in the first line; the output is the first three
    lines joined by line-feeds.  Recognition and tagging are engines outside
    this model, so the page text and the tagger are parameters. */
module Address {
  import opened Wrappers

  // ---------------------------------------------------------------------
  // Lines

  predicate IsBreak(c: char) { c == '\n' || c == '\r' }

  predicate NoBreak(s: string) { forall k :: 0 <= k < |s| ==> !IsBreak(s[k]) }

  /** A line as the split produces it: non-empty, with no break inside. */
  predicate IsLine(s: string) { |s| > 0 && NoBreak(s) }

  /** Index of the first break in s, or |s| when there is none. */
  function FirstBreak(s: string): (n: nat)
    ensures n <= |s| && NoBreak(s[..n])
    ensures n < |s| ==> IsBreak(s[n])
  {
    if |s| == 0 || IsBreak(s[0]) then 0
    else
      var m := FirstBreak(s[1..]);
      assert s[..m + 1] == [s[0]] + s[1..][..m];
      m + 1
  }

  /** The page text cut at every break, empty pieces removed. */
  function SplitLines(text: string): (lines: seq<string>)
    ensures forall k :: 0 <= k < |lines| ==> IsLine(lines[k])
    decreases |text|
  {
    if |text| == 0 then []
    else if IsBreak(text[0]) then SplitLines(text[1..])
    else
      var n := FirstBreak(text);
      [text[..n]] + SplitLines(text[n..])
  }

  /** The lines joined by single line-feeds. */
  function JoinLines(lines: seq<string>): string
  {
    if |lines| == 0 then []
    else if |lines| == 1 then lines[0]
    else lines[0] + "\n" + JoinLines(lines[1..])
  }

  /** The text with its breaks deleted. */
  function DropBreaks(text: string): (t: string)
    ensures NoBreak(t) && |t| <= |text|
  {
    if |text| == 0 then []
    else (if IsBreak(text[0]) then [] else [text[0]]) + DropBreaks(text[1..])
  }

  function Concat(lines: seq<string>): string
  {
    if |lines| == 0 then [] else lines[0] + Concat(lines[1..])
  }

  lemma {:induction false} FirstBreakOfLine(line: string, rest: string)
    requires NoBreak(line)
    requires |rest| == 0 || IsBreak(rest[0])
    ensures FirstBreak(line + rest) == |line|
  {
    if |line| == 0 {
      assert line + rest == rest;
    } else {
      assert (line + rest)[0] == line[0];
      assert (line + rest)[1..] == line[1..] + rest;
      FirstBreakOfLine(line[1..], rest);
    }
  }

  lemma {:induction false} DropBreaksAppend(a: string, b: string)
    ensures DropBreaks(a + b) == DropBreaks(a) + DropBreaks(b)
  {
    if |a| > 0 {
      var head := if IsBreak(a[0]) then [] else [a[0]];
      assert (a + b)[0] == a[0] && (a + b)[1..] == a[1..] + b;
      DropBreaksAppend(a[1..], b);
      calc {
        DropBreaks(a + b);
        head + DropBreaks(a[1..] + b);
        head + (DropBreaks(a[1..]) + DropBreaks(b));
        (head + DropBreaks(a[1..])) + DropBreaks(b);
      }
    } else {
      assert a + b == b;
    }
  }

  lemma DropBreaksOfLine(s: string)
    requires NoBreak(s)
    ensures DropBreaks(s) == s
  {
    if |s| > 0 {
      DropBreaksOfLine(s[1..]);
      assert s == [s[0]] + s[1..];
    }
  }

  /** Splitting loses only the breaks: the lines, run together, are the
      text without its breaks. */
  lemma {:induction false} SplitKeepsText(text: string)
    ensures Concat(SplitLines(text)) == DropBreaks(text)
    decreases |text|
  {
    if |text| > 0 {
      if IsBreak(text[0]) {
        SplitKeepsText(text[1..]);
      } else {
        var n := FirstBreak(text);
        SplitKeepsText(text[n..]);
        assert text == text[..n] + text[n..];
        DropBreaksAppend(text[..n], text[n..]);
        DropBreaksOfLine(text[..n]);
        assert ([text[..n]] + SplitLines(text[n..]))[1..] == SplitLines(text[n..]);
      }
    }
  }

  /** Joining lines and splitting the result gives back the lines: the
      split is a left inverse of the join on lines it can produce. */
  lemma {:induction false} SplitJoinRoundTrip(lines: seq<string>)
    requires forall k :: 0 <= k < |lines| ==> IsLine(lines[k])
    ensures SplitLines(JoinLines(lines)) == lines
  {
    if |lines| == 1 {
      var l := lines[0];
      FirstBreakOfLine(l, []);
      assert l + [] == l;
      assert l[|l|..] == [];
    } else if |lines| > 1 {
      var l := lines[0];
      var rest := JoinLines(lines[1..]);
      var text := l + "\n" + rest;
      assert text == l + ("\n" + rest);
      FirstBreakOfLine(l, "\n" + rest);
      assert text[..|l|] == l;
      assert text[|l|..] == "\n" + rest;
      assert ("\n" + rest)[1..] == rest;
      SplitJoinRoundTrip(lines[1..]);
      assert lines == [l] + lines[1..];
    }
  }

  // ---------------------------------------------------------------------
  // Line shape

  /** Decimal digits and Latin letters; other scripts are not modelled. */
  predicate IsDigit(c: char) { '0' <= c <= '9' }

  predicate IsLetter(c: char) { 'a' <= c <= 'z' || 'A' <= c <= 'Z' }

  predicate HasDigit(s: string) { exists k :: 0 <= k < |s| && IsDigit(s[k]) }

  predicate HasLetter(s: string) { exists k :: 0 <= k < |s| && IsLetter(s[k]) }

  /** A line holding both a digit and a letter, such as "12 Main St". */
  predicate IsAddressLine(s: string) { HasDigit(s) && HasLetter(s) }

  /** The address heuristic, one early return per test, in the program's
      order. */
  function HeuristicAddressCheck(lines: seq<string>): (ok: bool)
    ensures ok <==> |lines| >= 3 && !HasDigit(lines[0]) && IsAddressLine(lines[1]) && IsAddressLine(lines[2])
  {
    if |lines| < 3 then false
    else if HasDigit(lines[0]) then false
    else if !HasDigit(lines[1]) || !HasLetter(lines[1]) then false
    else if !HasDigit(lines[2]) || !HasLetter(lines[2]) then false
    else true
  }

  /** Lines after the third never change the verdict. */
  lemma HeuristicLooksAtThreeLines(lines: seq<string>, more: seq<string>)
    requires |lines| >= 3
    ensures HeuristicAddressCheck(lines + more) == HeuristicAddressCheck(lines[..3])
  {
    assert (lines + more)[..3] == lines[..3];
  }

  /** A name line with a digit is rejected; a name line followed by two
      lines that each hold a digit and a letter passes; two lines are never
      enough. */
  lemma HeuristicExamples()
    ensures HeuristicAddressCheck(["John Doe", "12 Main St", "Anytown ST 00000"])
    ensures !HeuristicAddressCheck(["Doe123", "12 Main St", "Anytown 4"])
    ensures !HeuristicAddressCheck(["John Doe", "Main St", "Anytown 4"])
    ensures !HeuristicAddressCheck(["John Doe", "12 Main St"])
  {
    assert IsDigit("12 Main St"[0]) && IsLetter("12 Main St"[3]);
    assert IsDigit("Anytown ST 00000"[11]) && IsLetter("Anytown ST 00000"[0]);
    assert IsDigit("Doe123"[3]);
    assert forall k :: 0 <= k < |"Main St"| ==> !IsDigit("Main St"[k]);
  }

  // ---------------------------------------------------------------------
  // The accept decision

  /** The entity labels of interest among the tagger's results. */
  datatype Labels = Labels(person: bool, location: bool)

  /** The scan over the tagger's results: each flag is or-ed with one
      comparison per result. */
  function ScanLabels(tags: seq<string>): (l: Labels)
    ensures l.person <==> "PERSON" in tags
    ensures l.location <==> "LOCATION" in tags
  {
    if |tags| == 0 then Labels(false, false)
    else
      var l := ScanLabels(tags[..|tags| - 1]);
      var t := tags[|tags| - 1];
      assert tags == tags[..|tags| - 1] + [t];
      Labels(l.person || t == "PERSON", l.location || t == "LOCATION")
  }

  /** The decision of TryOcrAddress on recognised page text: the joined
      first three lines when the block passes the heuristic and the tagger
      finds a person in its first line, None otherwise.  `classify` maps a
      line to the labels of the entities found in it. */
  function TryOcrAddress(pageText: string, classify: string -> seq<string>): (out: Option<string>)
    ensures var lines := SplitLines(pageText);
            out.Some? <==> HeuristicAddressCheck(lines) && "PERSON" in classify(lines[0])
  {
    var lines := SplitLines(pageText);
    if !HeuristicAddressCheck(lines) then None
    else
      var flat := JoinLines(lines[..3]);
      var labels := ScanLabels(classify(lines[0]));
      if labels.person then Some(flat) else None
  }

  /** An accepted block is exactly the first three recognised lines. */
  lemma AcceptedIsFirstThreeLines(pageText: string, classify: string -> seq<string>)
    requires TryOcrAddress(pageText, classify).Some?
    ensures var lines := SplitLines(pageText);
            SplitLines(TryOcrAddress(pageText, classify).value) == lines[..3]
  {
    SplitJoinRoundTrip(SplitLines(pageText)[..3]);
  }

  /** Accepted output is a fixed point: recognising it again gives it back. */
  lemma AcceptedIsStable(pageText: string, classify: string -> seq<string>)
    requires TryOcrAddress(pageText, classify).Some?
    ensures var out := TryOcrAddress(pageText, classify).value;
            TryOcrAddress(out, classify) == Some(out)
  {
    var lines := SplitLines(pageText);
    var out := TryOcrAddress(pageText, classify).value;
    AcceptedIsFirstThreeLines(pageText, classify);
    HeuristicLooksAtThreeLines(lines, []);
    assert lines + [] == lines;
    assert lines[..3][..3] == lines[..3];
  }

  /** Only the person label matters: a location label found or not changes
      nothing, and neither do lines after the third. */
  lemma OnlyPersonMatters(pageText: string, classify: string -> seq<string>, other: string -> seq<string>)
    requires var first := SplitLines(pageText);
             |first| > 0 ==> ("PERSON" in classify(first[0]) <==> "PERSON" in other(first[0]))
    ensures TryOcrAddress(pageText, classify) == TryOcrAddress(pageText, other)
  {
  }

  lemma ExtraLinesAreDropped(pageText: string, tail: string, classify: string -> seq<string>)
    requires |SplitLines(pageText)| >= 3
    ensures TryOcrAddress(pageText + "\n" + tail, classify) == TryOcrAddress(pageText, classify)
  {
    SplitAppend(pageText, "\n" + tail);
    var lines := SplitLines(pageText);
    HeuristicLooksAtThreeLines(lines, SplitLines("\n" + tail));
    HeuristicLooksAtThreeLines(lines, []);
    assert lines + [] == lines;
    assert (lines + SplitLines("\n" + tail))[..3] == lines[..3];
    assert (pageText + "\n" + tail) == pageText + ("\n" + tail);
  }

  /** Splitting text followed by a break-led text splits each part. */
  lemma {:induction false} SplitAppend(a: string, b: string)
    requires |b| > 0 && IsBreak(b[0])
    ensures SplitLines(a + b) == SplitLines(a) + SplitLines(b)
    decreases |a|
  {
    if |a| == 0 {
      assert a + b == b;
    } else if IsBreak(a[0]) {
      assert (a + b)[1..] == a[1..] + b;
      SplitAppend(a[1..], b);
    } else {
      var n := FirstBreak(a);
      FirstBreakPrefix(a, b);
      assert (a + b)[..n] == a[..n];
      assert (a + b)[n..] == a[n..] + b;
      if n < |a| {
        SplitAppend(a[n..], b);
      } else {
        assert a[n..] == [];
        assert a[n..] + b == b;
      }
    }
  }

  lemma FirstBreakPrefix(a: string, b: string)
    requires |b| > 0 && IsBreak(b[0])
    ensures FirstBreak(a + b) == FirstBreak(a)
  {
    var n := FirstBreak(a);
    FirstBreakOfLine(a[..n], a[n..] + b);
    assert a + b == a[..n] + (a[n..] + b);
  }

  /** Splitting text that ends at a break splits the parts apart. */
  lemma {:induction false} SplitAfterBreak(a: string, b: string)
    requires |a| == 0 || IsBreak(a[|a| - 1])
    ensures SplitLines(a + b) == SplitLines(a) + SplitLines(b)
    decreases |a|
  {
    if |a| == 0 {
      assert a + b == b;
    } else if IsBreak(a[0]) {
      assert (a + b)[0] == a[0] && (a + b)[1..] == a[1..] + b;
      SplitAfterBreak(a[1..], b);
    } else {
      var n := FirstBreak(a);
      SplitLeadingLine(a, b);
      SplitAfterBreak(a[n..], b);
    }
  }

  /** A text that starts with a line and ends at a break: the line comes off
      first, whatever follows. */
  lemma SplitLeadingLine(a: string, b: string)
    requires |a| > 0 && !IsBreak(a[0]) && IsBreak(a[|a| - 1])
    ensures var n := FirstBreak(a);
            && 0 < n < |a| && IsBreak(a[n..][0]) && IsBreak(a[n..][|a[n..]| - 1])
            && SplitLines(a + b) == [a[..n]] + SplitLines(a[n..] + b)
            && SplitLines(a) == [a[..n]] + SplitLines(a[n..])
  {
    var n := FirstBreak(a);
    FirstBreakOfLine(a[..n], a[n..] + b);
    assert a + b == a[..n] + (a[n..] + b);
    assert (a + b)[..n] == a[..n];
    assert (a + b)[n..] == a[n..] + b;
  }
}
