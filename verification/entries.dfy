/** The timed colour entries the capture loop records: `{"color": c, "time": t}`
    with `c` one of `"red"`, `"white"` or `"boundary"` and `t` in seconds. */
module Entries {

  /** The three colour tags the capture loop ever writes. */
  datatype Color = Red | White | Boundary

  datatype Entry = Entry(color: Color, time: real)

  /** Why decoding a captured run can fail: `min` of an empty red list raises,
      and so does indexing the sorted list of an empty white list. */
  datatype DecodeError = NoRedEntries | NoWhiteEntries

  datatype Result<T> = Ok(value: T) | Err(error: DecodeError)

  /** The colours that occur in a list of entries. */
  function Colors(s: seq<Entry>): set<Color>
  {
    set e | e in s :: e.color
  }

  predicate NoBoundary(s: seq<Entry>)
  {
    forall i :: 0 <= i < |s| ==> s[i].color != Boundary
  }

  /** The entries of `s` that are not boundary recoveries, in order. */
  function NonBoundary(s: seq<Entry>): (r: seq<Entry>)
    ensures NoBoundary(r)
    ensures NoBoundary(s) ==> r == s
    decreases |s|
  {
    if |s| == 0 then []
    else
      var front := NonBoundary(s[..|s| - 1]);
      var last := s[|s| - 1];
      assert s == s[..|s| - 1] + [last];
      if last.color == Boundary then front else front + [last]
  }

  /** Dropping the boundary entries drops exactly the colour `Boundary`. */
  lemma {:induction false} NonBoundaryColors(s: seq<Entry>)
    ensures Colors(NonBoundary(s)) == Colors(s) - {Boundary}
    decreases |s|
  {
    if |s| > 0 {
      var front := s[..|s| - 1];
      var last := s[|s| - 1];
      assert s == front + [last];
      NonBoundaryColors(front);
      ColorsSnoc(front, last);
      if last.color != Boundary {
        ColorsSnoc(NonBoundary(front), last);
      }
    }
  }

  /** Sum of the recorded times, in order. */
  function TotalTime(s: seq<Entry>): real
    decreases |s|
  {
    if |s| == 0 then 0.0 else TotalTime(s[..|s| - 1]) + s[|s| - 1].time
  }

  lemma ColorsSnoc(s: seq<Entry>, e: Entry)
    ensures Colors(s + [e]) == Colors(s) + {e.color}
  {
    assert forall x :: x in s + [e] <==> x in s || x == e;
  }

  /** The times of the entries of colour `c`, in order: the list the decoder
      builds for `"red"` or `"white"`. */
  function TimesOf(s: seq<Entry>, c: Color): (r: seq<real>)
    ensures |r| <= |s|
    ensures |r| == 0 <==> c !in Colors(s)
    ensures forall k :: 0 <= k < |r| ==> Entry(c, r[k]) in s
    decreases |s|
  {
    if |s| == 0 then []
    else
      var tail := TimesOf(s[1..], c);
      assert s == [s[0]] + s[1..];
      assert Colors(s) == {s[0].color} + Colors(s[1..]) by {
        assert forall x :: x in s <==> x == s[0] || x in s[1..];
      }
      if s[0].color == c then [s[0].time] + tail else tail
  }

  /** The list for a concatenation is the concatenation of the lists: every
      entry contributes on its own, in order. */
  lemma {:induction false} TimesOfAppend(a: seq<Entry>, b: seq<Entry>, c: Color)
    ensures TimesOf(a + b, c) == TimesOf(a, c) + TimesOf(b, c)
    decreases |a|
  {
    if |a| > 0 {
      TimesOfAppend(a[1..], b, c);
      assert (a + b)[0] == a[0] && (a + b)[1..] == a[1..] + b;
    } else {
      assert a + b == b;
    }
  }

  /** One entry contributes its time exactly when it has the colour. */
  lemma TimesOfSingle(e: Entry, c: Color)
    ensures TimesOf([e], c) == if e.color == c then [e.time] else []
  {
    assert [e][1..] == [];
  }

  /** Every entry of colour `c` contributes its time once, in order and with
      repetitions: the entry at position `i`, preceded by k entries of its
      colour, supplies the k-th time of the list. */
  lemma {:induction false} TimesOfCounts(s: seq<Entry>, c: Color, i: nat)
    requires i <= |s|
    ensures TimesOf(s, c) == TimesOf(s[..i], c) + TimesOf(s[i..], c)
    ensures i < |s| && s[i].color == c
            ==> |TimesOf(s[..i], c)| < |TimesOf(s, c)|
                && TimesOf(s, c)[|TimesOf(s[..i], c)|] == s[i].time
  {
    assert s == s[..i] + s[i..];
    TimesOfAppend(s[..i], s[i..], c);
    if i < |s| && s[i].color == c {
      assert s[i..][0] == s[i];
    }
  }
}
