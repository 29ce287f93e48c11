/** Small specified counterparts of the Python list built-ins the decoder
    relies on: `min`, `max`, `sorted`, and filtering a list while keeping
    its order. */
module Sequences {

  /** Python's `min` over a non-empty list of durations. */
  function Min(s: seq<real>): (m: real)
    requires |s| > 0
    ensures m in s
    ensures forall x :: x in s ==> m <= x
  {
    if |s| == 1 then s[0]
    else
      var rest := Min(s[1..]);
      assert forall x :: x in s ==> x == s[0] || x in s[1..];
      if s[0] <= rest then s[0] else rest
  }

  /** Python's `max` over a non-empty list of durations. */
  function Max(s: seq<real>): (m: real)
    requires |s| > 0
    ensures m in s
    ensures forall x :: x in s ==> x <= m
  {
    if |s| == 1 then s[0]
    else
      var rest := Max(s[1..]);
      assert forall x :: x in s ==> x == s[0] || x in s[1..];
      if rest <= s[0] then s[0] else rest
  }

  predicate Sorted(s: seq<real>)
  {
    forall i, j :: 0 <= i <= j < |s| ==> s[i] <= s[j]
  }

  /** Inserts `x` into a list before its first element not below `x`. */
  function Insert(x: real, s: seq<real>): seq<real>
  {
    if |s| == 0 then [x]
    else if x <= s[0] then [x] + s
    else [s[0]] + Insert(x, s[1..])
  }

  /** Python's `sorted` on a list of durations, as an insertion sort. */
  function SortAscending(s: seq<real>): seq<real>
  {
    if |s| == 0 then [] else Insert(s[0], SortAscending(s[1..]))
  }

  /** Inserting adds exactly `x`. */
  lemma {:induction false} InsertMultiset(x: real, s: seq<real>)
    ensures multiset(Insert(x, s)) == multiset(s) + multiset{x}
    decreases |s|
  {
    if |s| > 0 && s[0] < x {
      InsertMultiset(x, s[1..]);
      assert s == [s[0]] + s[1..];
    }
  }

  /** Inserting into an ascending list keeps it ascending. */
  lemma {:induction false} InsertSorted(x: real, s: seq<real>)
    requires Sorted(s)
    ensures Sorted(Insert(x, s))
    decreases |s|
  {
    if |s| == 0 {
    } else if x <= s[0] {
      SortedCons(x, s);
    } else {
      var tail := Insert(x, s[1..]);
      SortedTail(s);
      InsertSorted(x, s[1..]);
      InsertMultiset(x, s[1..]);
      forall k | 0 <= k < |tail|
        ensures s[0] <= tail[k]
      {
        assert tail[k] in multiset(tail);
        if tail[k] != x {
          assert tail[k] in multiset(s[1..]);
          var j :| 0 <= j < |s[1..]| && s[1..][j] == tail[k];
          assert s[0] <= s[j + 1];
        }
      }
      SortedCons(s[0], tail);
    }
  }

  /** Prepending a value no larger than any element keeps a list ascending. */
  lemma SortedCons(h: real, t: seq<real>)
    requires Sorted(t)
    requires forall k :: 0 <= k < |t| ==> h <= t[k]
    ensures Sorted([h] + t)
  {
    var s := [h] + t;
    forall i, j | 0 <= i <= j < |s|
      ensures s[i] <= s[j]
    {
      if i > 0 {
        assert s[i] == t[i - 1] && s[j] == t[j - 1];
      } else if j > 0 {
        assert s[j] == t[j - 1];
      }
    }
  }

  lemma {:induction false} InsertLength(x: real, s: seq<real>)
    ensures |Insert(x, s)| == |s| + 1
    decreases |s|
  {
    if |s| > 0 && s[0] < x {
      InsertLength(x, s[1..]);
    }
  }

  /** `SortAscending` returns an ascending rearrangement of its input. */
  lemma {:induction false} SortAscendingSorts(s: seq<real>)
    ensures Sorted(SortAscending(s))
    ensures multiset(SortAscending(s)) == multiset(s)
    ensures |SortAscending(s)| == |s|
    decreases |s|
  {
    if |s| > 0 {
      var rest := SortAscending(s[1..]);
      SortAscendingSorts(s[1..]);
      InsertSorted(s[0], rest);
      InsertMultiset(s[0], rest);
      InsertLength(s[0], rest);
      assert multiset(s) == multiset(s[1..]) + multiset{s[0]} by {
        assert s == [s[0]] + s[1..];
      }
    }
  }

  /** Two ascending lists holding the same values are the same list, so any
      sorting function agrees with `SortAscending`. */
  lemma {:induction false} SortedUnique(a: seq<real>, b: seq<real>)
    requires Sorted(a) && Sorted(b)
    requires multiset(a) == multiset(b)
    ensures a == b
    decreases |a|
  {
    assert |a| == |b| by {
      assert |a| == |multiset(a)| && |b| == |multiset(b)|;
    }
    if |a| > 0 {
      assert a[0] == b[0] by {
        assert a[0] in multiset(a) && b[0] in multiset(b);
        SortedFirstIsLeast(b, a[0]);
        SortedFirstIsLeast(a, b[0]);
      }
      assert multiset(a[1..]) == multiset(b[1..]) by {
        MultisetTail(a);
        MultisetTail(b);
      }
      SortedTail(a);
      SortedTail(b);
      SortedUnique(a[1..], b[1..]);
      assert forall i :: 0 < i < |a| ==> a[i] == a[1..][i - 1] && b[i] == b[1..][i - 1];
    }
  }

  lemma SortedFirstIsLeast(s: seq<real>, x: real)
    requires Sorted(s)
    requires x in multiset(s)
    ensures |s| > 0 && s[0] <= x
  {
    var i :| 0 <= i < |s| && s[i] == x;
  }

  lemma MultisetTail(s: seq<real>)
    requires |s| > 0
    ensures multiset(s[1..]) == multiset(s) - multiset{s[0]}
  {
    assert s == [s[0]] + s[1..];
  }

  lemma SortedTail(s: seq<real>)
    requires Sorted(s) && |s| > 0
    ensures Sorted(s[1..])
  {
  }

  /** `a` can be obtained from `b` by deleting elements, keeping the order of the rest. */
  predicate IsSubsequence<T(==)>(a: seq<T>, b: seq<T>)
    decreases |b|
  {
    || |a| == 0
    || (&& |b| > 0
        && ((a[0] == b[0] && IsSubsequence(a[1..], b[1..])) || IsSubsequence(a, b[1..])))
  }

  /** The Python list comprehension that keeps the values `v` with `lo <= v <= hi`. */
  function KeepWithin(s: seq<real>, lo: real, hi: real): seq<real>
  {
    if |s| == 0 then []
    else if lo <= s[0] <= hi then [s[0]] + KeepWithin(s[1..], lo, hi)
    else KeepWithin(s[1..], lo, hi)
  }

  /** The kept values are an order-preserving selection from the input, and
      each value occurs as often as in the input when it lies in
      `[lo, hi]`, and not at all otherwise. */
  lemma {:induction false} KeepWithinSelects(s: seq<real>, lo: real, hi: real)
    ensures IsSubsequence(KeepWithin(s, lo, hi), s)
    ensures forall v :: multiset(KeepWithin(s, lo, hi))[v] == if lo <= v <= hi then multiset(s)[v] else 0
    decreases |s|
  {
    if |s| > 0 {
      var tail := KeepWithin(s[1..], lo, hi);
      KeepWithinSelects(s[1..], lo, hi);
      assert s == [s[0]] + s[1..];
      if lo <= s[0] <= hi {
        assert ([s[0]] + tail)[1..] == tail;
      }
    }
  }

  /** Filtering distributes over concatenation. */
  lemma {:induction false} KeepWithinAppend(a: seq<real>, b: seq<real>, lo: real, hi: real)
    ensures KeepWithin(a + b, lo, hi) == KeepWithin(a, lo, hi) + KeepWithin(b, lo, hi)
    decreases |a|
  {
    if |a| > 0 {
      KeepWithinAppend(a[1..], b, lo, hi);
      assert (a + b)[1..] == a[1..] + b;
    } else {
      assert a + b == b;
    }
  }

  /** A list lying wholly within the bounds is kept unchanged. */
  lemma {:induction false} KeepWithinAll(s: seq<real>, lo: real, hi: real)
    requires forall k :: 0 <= k < |s| ==> lo <= s[k] <= hi
    ensures KeepWithin(s, lo, hi) == s
    decreases |s|
  {
    if |s| > 0 {
      KeepWithinAll(s[1..], lo, hi);
    }
  }
}
