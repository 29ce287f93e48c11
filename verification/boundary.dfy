/** Removal of boundary-recovery entries (`remove_boundary_time_intervals`).
    A boundary entry sandwiched between two entries of the same colour is
    dropped together with its successor, whose time is added to the
    predecessor; any other boundary entry is simply dropped. */
module BoundaryRemoval {
  import opened Entries

  /** `r` arises from the boundary-free list `s` by gluing contiguous runs of
      equal colour into one entry whose time is the run's total: the result
      the recording would have had if the robot had never left the track. */
  predicate MergedFrom(r: seq<Entry>, s: seq<Entry>)
    decreases |s|
  {
    if |s| == 0 then |r| == 0
    else if |r| == 0 then false
    else
      var e := s[|s| - 1];
      var last := r[|r| - 1];
      var front := r[..|r| - 1];
      || (last == e && MergedFrom(front, s[..|s| - 1]))
      || (last.color == e.color
          && MergedFrom(front + [last.(time := last.time - e.time)], s[..|s| - 1]))
  }

  /** The recording read up to `s` ends in a boundary hit. */
  predicate EndsInBoundary(s: seq<Entry>)
  {
    |s| > 0 && s[|s| - 1].color == Boundary
  }

  /** The cleaned recording, read entry by entry from the start: a boundary
      entry is dropped; an entry that directly follows one or more boundary
      entries is glued onto the previous survivor when the two share a
      colour; every other entry is kept as it is. */
  function Cleaned(s: seq<Entry>): (r: seq<Entry>)
    ensures NoBoundary(r)
    ensures |r| <= |s|
    decreases |s|
  {
    if |s| == 0 then []
    else
      var front := s[..|s| - 1];
      var e := s[|s| - 1];
      var done := Cleaned(front);
      if e.color == Boundary then done
      else if EndsInBoundary(front) && |done| > 0 && done[|done| - 1].color == e.color then Glue(done, e)
      else done + [e]
  }

  /** `done` with the time of `e` added to its last entry. */
  function Glue(done: seq<Entry>, e: Entry): seq<Entry>
    requires |done| > 0
  {
    var prev := done[|done| - 1];
    done[..|done| - 1] + [prev.(time := prev.time + e.time)]
  }

  /** Functional reading of the scan: `done` is the list up to the scan index
      (already free of boundaries), `rest` is the list from the index on. */
  function Scan(done: seq<Entry>, rest: seq<Entry>): seq<Entry>
    decreases |rest|
  {
    if |rest| == 0 then done
    else if rest[0].color != Boundary then Scan(done + [rest[0]], rest[1..])
    else if |done| > 0 && |rest| > 1 && done[|done| - 1].color == rest[1].color then
      Scan(Glue(done, rest[1]), rest[2..])
    else Scan(done, rest[1..])
  }

  function RemoveBoundaries(times: seq<Entry>): seq<Entry>
  {
    Scan([], times)
  }

  /** The in-place scan of the source: the index stays put after a deletion.
      It computes `RemoveBoundaries`, whose merge and total-time properties
      are the lemmas below. */
  method RemoveBoundaryTimeIntervals(times: seq<Entry>) returns (r: seq<Entry>)
    ensures r == RemoveBoundaries(times)
    ensures NoBoundary(r)
    ensures |r| <= |times|
  {
    var t := times;
    var x := 0;
    while x < |t|
      invariant 0 <= x <= |t| <= |times|
      invariant NoBoundary(t[..x])
      invariant Scan(t[..x], t[x..]) == RemoveBoundaries(times)
      decreases |t| - x
    {
      if t[x].color == Boundary {
        if x > 0 && x < |t| - 1 && t[x - 1].color == t[x + 1].color {
          var merged := t[x - 1].(time := t[x - 1].time + t[x + 1].time);
          var next := t[..x - 1] + [merged] + t[x + 2..];
          assert t[..x][..x - 1] == t[..x - 1];
          assert t[x..][2..] == t[x + 2..];
          assert next[..x] == Glue(t[..x], t[x + 1]);
          assert next[x..] == t[x + 2..];
          t := next;
        } else {
          var next := t[..x] + t[x + 1..];
          assert t[x..][1..] == t[x + 1..];
          assert next[..x] == t[..x];
          assert next[x..] == t[x + 1..];
          t := next;
        }
      } else {
        assert t[..x + 1] == t[..x] + [t[x]];
        assert t[x..][1..] == t[x + 1..];
        x := x + 1;
      }
    }
    assert t[..x] == t;
    r := t;
    RemoveBoundariesMerges(times);
  }

  lemma NonBoundarySnoc(s: seq<Entry>, e: Entry)
    ensures NonBoundary(s + [e]) == NonBoundary(s) + (if e.color == Boundary then [] else [e])
  {
    assert (s + [e])[..|s|] == s;
  }

  /** Appending an entry to both sides keeps a merge. */
  lemma MergedSnoc(r: seq<Entry>, s: seq<Entry>, e: Entry)
    requires MergedFrom(r, s)
    ensures MergedFrom(r + [e], s + [e])
  {
    assert (r + [e])[..|r|] == r;
    assert (s + [e])[..|s|] == s;
  }

  /** Adding a same-coloured entry's time to the last entry of a merge gives
      a merge of the longer list. */
  lemma MergedGlue(r: seq<Entry>, s: seq<Entry>, e: Entry)
    requires |r| > 0 && r[|r| - 1].color == e.color
    requires MergedFrom(r, s)
    ensures MergedFrom(Glue(r, e), s + [e])
  {
    var prev := r[|r| - 1];
    var merged := prev.(time := prev.time + e.time);
    var r' := Glue(r, e);
    assert r'[..|r'| - 1] == r[..|r| - 1];
    assert merged.(time := merged.time - e.time) == prev;
    assert r'[..|r'| - 1] + [prev] == r;
    assert (s + [e])[..|s|] == s;
  }

  /** The scan keeps `done` free of boundaries and a merge of the
      non-boundary entries consumed so far; `all` is the whole input. */
  lemma {:induction false} ScanMerges(done: seq<Entry>, rest: seq<Entry>, consumed: seq<Entry>, all: seq<Entry>)
    requires all == consumed + rest
    requires NoBoundary(done)
    requires MergedFrom(done, NonBoundary(consumed))
    ensures NoBoundary(Scan(done, rest))
    ensures MergedFrom(Scan(done, rest), NonBoundary(all))
    decreases |rest|
  {
    if |rest| == 0 {
      assert all == consumed;
    } else if rest[0].color != Boundary {
      var e := rest[0];
      KeepStep(done, consumed, e);
      assert consumed + [e] + rest[1..] == all;
      ScanMerges(done + [e], rest[1..], consumed + [e], all);
      assert Scan(done, rest) == Scan(done + [e], rest[1..]);
    } else if |done| > 0 && |rest| > 1 && done[|done| - 1].color == rest[1].color {
      var done' := Glue(done, rest[1]);
      GlueStep(done, consumed, rest[0], rest[1]);
      assert consumed + [rest[0], rest[1]] + rest[2..] == all;
      ScanMerges(done', rest[2..], consumed + [rest[0], rest[1]], all);
      assert Scan(done, rest) == Scan(done', rest[2..]);
    } else {
      NonBoundarySnoc(consumed, rest[0]);
      assert consumed + [rest[0]] + rest[1..] == all;
      ScanMerges(done, rest[1..], consumed + [rest[0]], all);
      assert Scan(done, rest) == Scan(done, rest[1..]);
    }
  }

  /** Scan step over a non-boundary entry. */
  lemma KeepStep(done: seq<Entry>, consumed: seq<Entry>, e: Entry)
    requires e.color != Boundary
    requires NoBoundary(done)
    requires MergedFrom(done, NonBoundary(consumed))
    ensures NoBoundary(done + [e])
    ensures MergedFrom(done + [e], NonBoundary(consumed + [e]))
  {
    NonBoundarySnoc(consumed, e);
    MergedSnoc(done, NonBoundary(consumed), e);
  }

  /** Scan step over a boundary `b` whose neighbours share a colour. */
  lemma {:induction false} GlueStep(done: seq<Entry>, consumed: seq<Entry>, b: Entry, e: Entry)
    requires b.color == Boundary
    requires |done| > 0 && done[|done| - 1].color == e.color
    requires NoBoundary(done)
    requires MergedFrom(done, NonBoundary(consumed))
    ensures NoBoundary(Glue(done, e))
    ensures MergedFrom(Glue(done, e), NonBoundary(consumed + [b, e]))
  {
    assert e.color != Boundary;
    var nb := NonBoundary(consumed);
    assert NonBoundary(consumed + [b, e]) == nb + [e] by {
      NonBoundarySnoc(consumed, b);
      NonBoundarySnoc(consumed + [b], e);
      assert consumed + [b] + [e] == consumed + [b, e];
    }
    MergedGlue(done, nb, e);
  }

  /** No boundary entry survives, and the survivors are the non-boundary
      entries in their original order, with runs glued across removed
      boundaries. */
  lemma RemoveBoundariesMerges(times: seq<Entry>)
    ensures NoBoundary(RemoveBoundaries(times))
    ensures MergedFrom(RemoveBoundaries(times), NonBoundary(times))
  {
    ScanMerges([], times, [], times);
  }

  /** The scan from a state `done` reached after reading `consumed` finishes
      the cleaned recording of `consumed + rest`. When `consumed` ends in a
      boundary the scan has already declined to glue the next entry, so that
      entry would not glue in the cleaned reading either. */
  lemma {:induction false} ScanCleaned(done: seq<Entry>, rest: seq<Entry>, consumed: seq<Entry>)
    requires done == Cleaned(consumed)
    requires EndsInBoundary(consumed) && |rest| > 0 && rest[0].color != Boundary
             ==> !(|done| > 0 && done[|done| - 1].color == rest[0].color)
    ensures Scan(done, rest) == Cleaned(consumed + rest)
    decreases |rest|
  {
    if |rest| == 0 {
      assert consumed + rest == consumed;
    } else if rest[0].color != Boundary {
      var e := rest[0];
      assert (consumed + [e])[..|consumed|] == consumed;
      assert consumed + [e] + rest[1..] == consumed + rest;
      ScanCleaned(done + [e], rest[1..], consumed + [e]);
    } else if |done| > 0 && |rest| > 1 && done[|done| - 1].color == rest[1].color {
      var b, e := rest[0], rest[1];
      assert (consumed + [b])[..|consumed|] == consumed;
      assert (consumed + [b, e])[..|consumed| + 1] == consumed + [b];
      assert e.color != Boundary by {
        assert done[|done| - 1].color != Boundary;
      }
      assert consumed + [b, e] + rest[2..] == consumed + rest;
      ScanCleaned(Glue(done, e), rest[2..], consumed + [b, e]);
    } else {
      var b := rest[0];
      assert (consumed + [b])[..|consumed|] == consumed;
      assert consumed + [b] + rest[1..] == consumed + rest;
      ScanCleaned(done, rest[1..], consumed + [b]);
    }
  }

  /** The source's scan produces the cleaned recording: entries next to each
      other in the input are never glued, and a boundary between two entries
      of one colour always glues them. */
  lemma RemoveBoundariesCleaned(times: seq<Entry>)
    ensures RemoveBoundaries(times) == Cleaned(times)
  {
    ScanCleaned([], times, []);
    assert [] + times == times;
  }

  /** Appending one entry to a recording: a boundary adds nothing; an entry
      right after a non-boundary entry is kept unchanged, never glued; an entry
      right after a boundary is glued onto the last survivor exactly when the
      colours match. */
  lemma RemoveBoundariesSnoc(s: seq<Entry>, e: Entry)
    ensures e.color == Boundary ==> RemoveBoundaries(s + [e]) == RemoveBoundaries(s)
    ensures e.color != Boundary && !EndsInBoundary(s)
            ==> RemoveBoundaries(s + [e]) == RemoveBoundaries(s) + [e]
    ensures var done := RemoveBoundaries(s);
            e.color != Boundary && EndsInBoundary(s)
            ==> RemoveBoundaries(s + [e])
                == if |done| > 0 && done[|done| - 1].color == e.color then Glue(done, e) else done + [e]
  {
    RemoveBoundariesCleaned(s);
    RemoveBoundariesCleaned(s + [e]);
    assert (s + [e])[..|s|] == s;
  }

  /** Gluing runs keeps the total recorded time. */
  lemma {:induction false} MergedKeepsTotal(r: seq<Entry>, s: seq<Entry>)
    requires MergedFrom(r, s)
    ensures TotalTime(r) == TotalTime(s)
    decreases |s|
  {
    if |s| > 0 {
      var e := s[|s| - 1];
      var last := r[|r| - 1];
      var front := r[..|r| - 1];
      if last == e && MergedFrom(front, s[..|s| - 1]) {
        MergedKeepsTotal(front, s[..|s| - 1]);
      } else {
        var front' := front + [last.(time := last.time - e.time)];
        MergedKeepsTotal(front', s[..|s| - 1]);
        assert front'[..|front'| - 1] == front;
      }
    }
  }

  /** Gluing runs keeps the set of colours present. */
  lemma {:induction false} MergedKeepsColors(r: seq<Entry>, s: seq<Entry>)
    requires MergedFrom(r, s)
    ensures Colors(r) == Colors(s)
    decreases |s|
  {
    if |s| > 0 {
      var e := s[|s| - 1];
      var last := r[|r| - 1];
      var front := r[..|r| - 1];
      assert r == front + [last];
      assert s == s[..|s| - 1] + [e];
      ColorsSnoc(front, last);
      ColorsSnoc(s[..|s| - 1], e);
      if last == e && MergedFrom(front, s[..|s| - 1]) {
        MergedKeepsColors(front, s[..|s| - 1]);
      } else {
        var front' := front + [last.(time := last.time - e.time)];
        MergedKeepsColors(front', s[..|s| - 1]);
        ColorsSnoc(front, last.(time := last.time - e.time));
      }
    }
  }

  /** The sum of the non-boundary times is the same before and after, as if
      the boundary hits had not happened. */
  lemma RemoveBoundariesKeepsTotal(times: seq<Entry>)
    ensures TotalTime(RemoveBoundaries(times)) == TotalTime(NonBoundary(times))
  {
    RemoveBoundariesMerges(times);
    MergedKeepsTotal(RemoveBoundaries(times), NonBoundary(times));
  }

  /** Exactly the non-boundary colours of the input remain present. */
  lemma RemoveBoundariesKeepsColors(times: seq<Entry>)
    ensures Colors(RemoveBoundaries(times)) == Colors(times) - {Boundary}
  {
    RemoveBoundariesMerges(times);
    MergedKeepsColors(RemoveBoundaries(times), NonBoundary(times));
    NonBoundaryColors(times);
  }

  /** Without boundary entries the scan changes nothing. */
  lemma {:induction false} ScanIdentity(done: seq<Entry>, rest: seq<Entry>)
    requires NoBoundary(rest)
    ensures Scan(done, rest) == done + rest
    decreases |rest|
  {
    if |rest| > 0 {
      ScanIdentity(done + [rest[0]], rest[1..]);
      assert done + [rest[0]] + rest[1..] == done + rest;
    }
  }

  lemma RemoveBoundariesIdentity(times: seq<Entry>)
    requires NoBoundary(times)
    ensures RemoveBoundaries(times) == times
  {
    ScanIdentity([], times);
    assert [] + times == times;
  }

  /** Removing boundaries a second time changes nothing. */
  lemma RemoveBoundariesIdempotent(times: seq<Entry>)
    ensures RemoveBoundaries(RemoveBoundaries(times)) == RemoveBoundaries(times)
  {
    RemoveBoundariesMerges(times);
    RemoveBoundariesIdentity(RemoveBoundaries(times));
  }

  /** The two merge cases on three-entry recordings. */
  lemma RemoveBoundariesExamples()
    ensures RemoveBoundaries([Entry(Red, 1.0), Entry(Boundary, 0.3), Entry(Red, 2.0)])
         == [Entry(Red, 3.0)]
    ensures RemoveBoundaries([Entry(Red, 1.0), Entry(Boundary, 0.3), Entry(White, 2.0)])
         == [Entry(Red, 1.0), Entry(White, 2.0)]
    ensures RemoveBoundaries([Entry(Boundary, 0.3), Entry(Red, 1.0), Entry(Boundary, 0.5)])
         == [Entry(Red, 1.0)]
  {
  }
}
