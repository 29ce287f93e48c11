/** Classification of timed entries into a morse string
    (`decode_morse_code_data`). Red entries become dots or dashes against the
    midpoint of the shortest and longest red time; white entries become no
    space, a letter space, or a word space, depending on the outlier filter
    and on the midpoint of the filtered white times. */
module MorseClassifier {
  import opened Sequences
  import opened Entries
  import opened Outliers

  /** `(min + max) / 2` of a non-empty list of durations. */
  function Midpoint(s: seq<real>): real
    requires |s| > 0
  {
    (Min(s) + Max(s)) / 2.0
  }

  /** The dot/dash cut-off: the midpoint of the red times. */
  function DashThreshold(reds: seq<real>): real
    requires |reds| > 0
  {
    Midpoint(reds)
  }

  /** The letter-space cut-off: the midpoint of the white times that survive
      the outlier filter (never empty, because the first quartile survives). */
  function CharThreshold(whites: seq<real>): real
    requires |whites| > 0
  {
    FirstQuartileKept(whites);
    Midpoint(RemoveTimeOutliers(whites))
  }

  /** What one red entry contributes. */
  function Stroke(t: real, dashThreshold: real): char
  {
    if t < dashThreshold then '.' else '-'
  }

  /** What one white entry contributes: a value that the filter dropped is a
      word break; a kept one is a letter break unless below the cut-off. */
  function Gap(t: real, kept: seq<real>, charThreshold: real): string
  {
    if t in kept then (if t < charThreshold then "" else " ") else "   "
  }

  function Mark(e: Entry, dashThreshold: real, kept: seq<real>, charThreshold: real): string
  {
    match e.color
    case Red => [Stroke(e.time, dashThreshold)]
    case White => Gap(e.time, kept, charThreshold)
    case Boundary => ""
  }

  /** The entries' marks, concatenated in order. */
  function Marks(times: seq<Entry>, dashThreshold: real, kept: seq<real>, charThreshold: real): string
    decreases |times|
  {
    if |times| == 0 then ""
    else Mark(times[0], dashThreshold, kept, charThreshold) + Marks(times[1..], dashThreshold, kept, charThreshold)
  }

  /** Decoding fails when there is no red entry (the minimum of an empty list)
      or no white entry (the outlier filter indexes an empty list); the red
      check comes first. */
  function DecodeMorseCodeData(times: seq<Entry>): (r: Result<string>)
    ensures Red !in Colors(times) <==> r == Err(NoRedEntries)
    ensures Red in Colors(times) && White !in Colors(times) <==> r == Err(NoWhiteEntries)
    ensures r.Ok? <==> Red in Colors(times) && White in Colors(times)
  {
    var reds := TimesOf(times, Red);
    var whites := TimesOf(times, White);
    if |reds| == 0 then Err(NoRedEntries)
    else if |whites| == 0 then Err(NoWhiteEntries)
    else Ok(Marks(times, DashThreshold(reds), RemoveTimeOutliers(whites), CharThreshold(whites)))
  }

  /** The dots and dashes of a morse string, in order. */
  function Strokes(s: string): string
    decreases |s|
  {
    if |s| == 0 then ""
    else if s[0] == '.' || s[0] == '-' then [s[0]] + Strokes(s[1..])
    else Strokes(s[1..])
  }

  /** Number of space characters in a string. */
  function SpaceCount(s: string): nat
    decreases |s|
  {
    if |s| == 0 then 0 else (if s[0] == ' ' then 1 else 0) + SpaceCount(s[1..])
  }

  predicate IsMorseAlphabet(s: string)
  {
    forall i :: 0 <= i < |s| ==> s[i] == '.' || s[i] == '-' || s[i] == ' '
  }

  /** Spaces a white time of `t` produces, stated through the filter's fences
      rather than through membership in the filtered list. */
  function GapWidth(t: real, fences: Fences, charThreshold: real): nat
  {
    if !fences.Contains(t) then 3 else if t < charThreshold then 0 else 1
  }

  /** The spaces a white time of `t` produces, stated through the fences. */
  function GapText(t: real, fences: Fences, charThreshold: real): string
  {
    if !fences.Contains(t) then "   " else if t < charThreshold then "" else " "
  }

  /** What one entry contributes, stated through the fences. */
  function Piece(e: Entry, dashThreshold: real, fences: Fences, charThreshold: real): string
  {
    match e.color
    case Red => [Stroke(e.time, dashThreshold)]
    case White => GapText(e.time, fences, charThreshold)
    case Boundary => ""
  }

  /** The pieces of the entries, concatenated in entry order. */
  function Layout(times: seq<Entry>, dashThreshold: real, fences: Fences, charThreshold: real): string
    decreases |times|
  {
    if |times| == 0 then ""
    else Piece(times[0], dashThreshold, fences, charThreshold) + Layout(times[1..], dashThreshold, fences, charThreshold)
  }

  function TotalGapWidth(whites: seq<real>, fences: Fences, charThreshold: real): nat
    decreases |whites|
  {
    if |whites| == 0 then 0
    else GapWidth(whites[0], fences, charThreshold) + TotalGapWidth(whites[1..], fences, charThreshold)
  }

  lemma {:induction false} StrokesAppend(a: string, b: string)
    ensures Strokes(a + b) == Strokes(a) + Strokes(b)
    decreases |a|
  {
    if |a| > 0 {
      StrokesAppend(a[1..], b);
      assert (a + b)[1..] == a[1..] + b;
    } else {
      assert a + b == b;
    }
  }

  lemma {:induction false} SpaceCountAppend(a: string, b: string)
    ensures SpaceCount(a + b) == SpaceCount(a) + SpaceCount(b)
    decreases |a|
  {
    if |a| > 0 {
      SpaceCountAppend(a[1..], b);
      assert (a + b)[1..] == a[1..] + b;
    } else {
      assert a + b == b;
    }
  }

  /** One stroke per red time, in order. */
  function StrokesOf(reds: seq<real>, dash: real): (r: string)
    ensures |r| == |reds|
    ensures forall k :: 0 <= k < |reds| ==> (r[k] == '.' <==> reds[k] < dash) && (r[k] == '-' <==> dash <= reds[k])
    decreases |reds|
  {
    if |reds| == 0 then "" else [Stroke(reds[0], dash)] + StrokesOf(reds[1..], dash)
  }

  /** Each red entry yields exactly one dot or dash, in order; white and
      boundary entries yield none. */
  lemma {:induction false} MarksStrokes(times: seq<Entry>, dash: real, kept: seq<real>, charT: real)
    ensures Strokes(Marks(times, dash, kept, charT)) == StrokesOf(TimesOf(times, Red), dash)
    decreases |times|
  {
    if |times| > 0 {
      var head := Mark(times[0], dash, kept, charT);
      var tail := Marks(times[1..], dash, kept, charT);
      MarksStrokes(times[1..], dash, kept, charT);
      StrokesAppend(head, tail);
      assert Marks(times, dash, kept, charT) == head + tail;
      if times[0].color == Red {
        assert head[1..] == "";
        assert Strokes(head) == head;
        var reds := TimesOf(times, Red);
        assert reds[1..] == TimesOf(times[1..], Red);
      } else {
        SpacesOnly(head);
      }
    }
  }

  /** Marks use only dots, dashes and spaces. */
  lemma {:induction false} MarksAlphabet(times: seq<Entry>, dash: real, kept: seq<real>, charT: real)
    ensures IsMorseAlphabet(Marks(times, dash, kept, charT))
    decreases |times|
  {
    if |times| > 0 {
      var head := Mark(times[0], dash, kept, charT);
      var tail := Marks(times[1..], dash, kept, charT);
      MarksAlphabet(times[1..], dash, kept, charT);
      assert Marks(times, dash, kept, charT) == head + tail;
      assert IsMorseAlphabet(head);
    }
  }

  /** The spaces come from white entries alone: none, one or three each. */
  lemma {:induction false} MarksSpaces(times: seq<Entry>, dash: real, whites: seq<real>)
    requires |whites| > 0
    requires forall k :: 0 <= k < |times| && times[k].color == White ==> times[k].time in whites
    ensures SpaceCount(Marks(times, dash, RemoveTimeOutliers(whites), CharThreshold(whites)))
         == TotalGapWidth(TimesOf(times, White), OutlierFences(whites), CharThreshold(whites))
    decreases |times|
  {
    if |times| > 0 {
      var kept := RemoveTimeOutliers(whites);
      var charT := CharThreshold(whites);
      var fences := OutlierFences(whites);
      var head := Mark(times[0], dash, kept, charT);
      var tail := Marks(times[1..], dash, kept, charT);
      assert forall k :: 0 <= k < |times[1..]| ==> times[1..][k] == times[k + 1];
      MarksSpaces(times[1..], dash, whites);
      assert Marks(times, dash, kept, charT) == head + tail;
      SpaceCountAppend(head, tail);
      assert SpaceCount(head) == (if times[0].color == White then GapWidth(times[0].time, fences, charT) else 0) by {
        HeadSpaces(times[0], dash, whites);
      }
    }
  }

  /** What one entry contributes: its piece as stated through the fences, so
      a white entry gives three spaces outside them and otherwise none or one
      by the letter-space threshold. */
  lemma HeadSpaces(e: Entry, dash: real, whites: seq<real>)
    requires |whites| > 0
    requires e.color == White ==> e.time in whites
    ensures Mark(e, dash, RemoveTimeOutliers(whites), CharThreshold(whites))
         == Piece(e, dash, OutlierFences(whites), CharThreshold(whites))
    ensures SpaceCount(Mark(e, dash, RemoveTimeOutliers(whites), CharThreshold(whites)))
         == if e.color == White then GapWidth(e.time, OutlierFences(whites), CharThreshold(whites)) else 0
  {
    var m := Mark(e, dash, RemoveTimeOutliers(whites), CharThreshold(whites));
    if e.color == White {
      KeptIffWithinFences(whites, e.time);
      SpacesOnly(m);
    } else if e.color == Red {
      assert m[1..] == "";
    }
  }

  /** The decoded string is, entry by entry in order, the pieces stated
      through the fences: this fixes where every space falls between the
      strokes. */
  lemma {:induction false} MarksLayout(times: seq<Entry>, dash: real, whites: seq<real>)
    requires |whites| > 0
    requires forall k :: 0 <= k < |times| && times[k].color == White ==> times[k].time in whites
    ensures Marks(times, dash, RemoveTimeOutliers(whites), CharThreshold(whites))
         == Layout(times, dash, OutlierFences(whites), CharThreshold(whites))
    decreases |times|
  {
    if |times| > 0 {
      assert forall k :: 0 <= k < |times[1..]| ==> times[1..][k] == times[k + 1];
      MarksLayout(times[1..], dash, whites);
      HeadSpaces(times[0], dash, whites);
    }
  }

  /** A string of spaces holds no strokes, and its space count is its length. */
  lemma {:induction false} SpacesOnly(s: string)
    requires forall i :: 0 <= i < |s| ==> s[i] == ' '
    ensures Strokes(s) == "" && SpaceCount(s) == |s|
    decreases |s|
  {
    if |s| > 0 {
      SpacesOnly(s[1..]);
    }
  }

  /** What a successful decode says about the red and white entries. */
  lemma {:induction false} DecodeMorseCodeDataSpec(times: seq<Entry>)
    requires Red in Colors(times) && White in Colors(times)
    ensures var r := DecodeMorseCodeData(times);
            var reds := TimesOf(times, Red);
            var whites := TimesOf(times, White);
            && r.Ok?
            && r.value == Layout(times, DashThreshold(reds), OutlierFences(whites), CharThreshold(whites))
            && IsMorseAlphabet(r.value)
            && Strokes(r.value) == StrokesOf(reds, DashThreshold(reds))
            && SpaceCount(r.value) == TotalGapWidth(whites, OutlierFences(whites), CharThreshold(whites))
  {
    var reds := TimesOf(times, Red);
    var whites := TimesOf(times, White);
    MarksStrokes(times, DashThreshold(reds), RemoveTimeOutliers(whites), CharThreshold(whites));
    MarksAlphabet(times, DashThreshold(reds), RemoveTimeOutliers(whites), CharThreshold(whites));
    TimesOfCovers(times, White);
    MarksSpaces(times, DashThreshold(reds), whites);
    MarksLayout(times, DashThreshold(reds), whites);
  }

  /** Every time of an entry of colour `c` is in the list for `c`. */
  lemma {:induction false} TimesOfCovers(times: seq<Entry>, c: Color)
    ensures forall k :: 0 <= k < |times| && times[k].color == c ==> times[k].time in TimesOf(times, c)
    decreases |times|
  {
    if |times| > 0 {
      TimesOfCovers(times[1..], c);
      assert forall k :: 1 <= k < |times| ==> times[k] == times[1..][k - 1];
    }
  }

  /** The marks of an entry occur in the marks of any list holding it. */
  lemma {:induction false} MarkInMarks(times: seq<Entry>, i: nat, dash: real, kept: seq<real>, charT: real)
    requires i < |times|
    ensures forall c :: c in Mark(times[i], dash, kept, charT) ==> c in Marks(times, dash, kept, charT)
    decreases |times|
  {
    if i > 0 {
      MarkInMarks(times[1..], i - 1, dash, kept, charT);
    }
  }

  /** The midpoint of a list lies between its extremes, strictly above the
      minimum exactly when the list holds two different values. */
  lemma MidpointBounds(s: seq<real>)
    requires |s| > 0
    ensures Min(s) <= Midpoint(s) <= Max(s)
    ensures Min(s) < Midpoint(s) <==> Min(s) < Max(s)
  {
  }

  /** When the red times differ the shortest is read as a dot and the longest
      as a dash; when they are all equal every red entry is a dash. */
  lemma {:induction false} DotsAndDashes(times: seq<Entry>)
    requires Red in Colors(times) && White in Colors(times)
    ensures var reds := TimesOf(times, Red);
            var m := DecodeMorseCodeData(times).value;
            if Min(reds) < Max(reds) then '.' in m && '-' in m else '.' !in m
  {
    var reds := TimesOf(times, Red);
    var m := DecodeMorseCodeData(times).value;
    DecodeMorseCodeDataSpec(times);
    StrokesOfExtremes(reds);
    StrokesMembers(m);
  }

  /** Against the midpoint threshold, the extremes of the red times are a dot
      and a dash, unless all red times are equal, when all are dashes. */
  lemma StrokesOfExtremes(reds: seq<real>)
    requires |reds| > 0
    ensures var strokes := StrokesOf(reds, DashThreshold(reds));
            if Min(reds) < Max(reds) then '.' in strokes && '-' in strokes else '.' !in strokes
  {
    var dash := DashThreshold(reds);
    var lo, hi := Min(reds), Max(reds);
    assert lo <= dash <= hi && (lo < dash <==> lo < hi) by {
      MidpointBounds(reds);
    }
    if lo < hi {
      StrokeOfMember(reds, dash, lo);
      StrokeOfMember(reds, dash, hi);
    } else {
      NoDots(reds, dash);
    }
  }

  /** Each red time yields its own stroke somewhere in the strokes. */
  lemma StrokeOfMember(reds: seq<real>, dash: real, v: real)
    requires v in reds
    ensures Stroke(v, dash) in StrokesOf(reds, dash)
  {
    var i :| 0 <= i < |reds| && reds[i] == v;
    assert StrokesOf(reds, dash)[i] == Stroke(v, dash);
  }

  lemma NoDots(reds: seq<real>, dash: real)
    requires forall k :: 0 <= k < |reds| ==> dash <= reds[k]
    ensures '.' !in StrokesOf(reds, dash)
  {
    var strokes := StrokesOf(reds, dash);
    forall k | 0 <= k < |strokes|
      ensures strokes[k] != '.'
    {
      assert dash <= reds[k];
    }
  }

  /** The strokes of a string are exactly its dots and dashes. */
  lemma {:induction false} StrokesMembers(s: string)
    ensures forall c :: c in Strokes(s) <==> c in s && (c == '.' || c == '-')
    decreases |s|
  {
    if |s| > 0 {
      StrokesMembers(s[1..]);
      assert s == [s[0]] + s[1..];
    }
  }

  /** The longest white time that survives the filter always produces a
      letter space, so a decoded morse string contains at least one space. */
  lemma HasLetterSpace(times: seq<Entry>)
    requires Red in Colors(times) && White in Colors(times)
    ensures ' ' in DecodeMorseCodeData(times).value
  {
    var reds := TimesOf(times, Red);
    var whites := TimesOf(times, White);
    var kept := RemoveTimeOutliers(whites);
    FirstQuartileKept(whites);
    MidpointBounds(kept);
    var w := Max(kept);
    OutliersSelect(whites);
    assert w in multiset(kept);
    assert w in whites;
    var k :| 0 <= k < |whites| && whites[k] == w;
    assert Entry(White, w) in times;
    var i :| 0 <= i < |times| && times[i] == Entry(White, w);
    assert Mark(times[i], DashThreshold(reds), kept, CharThreshold(whites)) == " ";
    MarkInMarks(times, i, DashThreshold(reds), kept, CharThreshold(whites));
  }
}
