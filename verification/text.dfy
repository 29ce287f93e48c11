/** Python's `str.split(sep)` for a non-empty separator, and its inverse
    `sep.join(parts)`. */
module Text {

  /** `sep` occurs somewhere in `s`. */
  predicate Occurs(sep: string, s: string)
    decreases |s|
  {
    sep <= s || (|s| > 0 && Occurs(sep, s[1..]))
  }

  /** Splits at every occurrence of `sep`, scanning left to right and
      resuming after each separator (so occurrences never overlap). */
  function Split(s: string, sep: string): (parts: seq<string>)
    requires |sep| > 0
    ensures |parts| > 0
    ensures parts[0] <= s
    decreases |s|
  {
    if sep <= s then [""] + Split(s[|sep|..], sep)
    else if |s| == 0 then [""]
    else
      var rest := Split(s[1..], sep);
      [[s[0]] + rest[0]] + rest[1..]
  }

  /** `sep.join(parts)`. */
  function Join(parts: seq<string>, sep: string): string
    decreases |parts|
  {
    if |parts| == 0 then ""
    else if |parts| == 1 then parts[0]
    else parts[0] + sep + Join(parts[1..], sep)
  }

  /** Joining the pieces with the separator gives back the string. */
  lemma {:induction false} JoinSplit(s: string, sep: string)
    requires |sep| > 0
    ensures Join(Split(s, sep), sep) == s
    decreases |s|
  {
    if sep <= s {
      JoinSplit(s[|sep|..], sep);
      assert s == sep + s[|sep|..];
    } else if |s| > 0 {
      var rest := Split(s[1..], sep);
      JoinSplit(s[1..], sep);
      JoinCons(s[0], rest, sep);
      assert s == [s[0]] + s[1..];
    }
  }

  /** Prepending a character to the first piece prepends it to the join. */
  lemma JoinCons(x: char, parts: seq<string>, sep: string)
    requires |parts| > 0
    ensures Join([[x] + parts[0]] + parts[1..], sep) == [x] + Join(parts, sep)
  {
    var parts' := [[x] + parts[0]] + parts[1..];
    assert parts'[1..] == parts[1..];
  }

  lemma {:induction false} PrefixTransitive(a: string, b: string, c: string)
    requires a <= b && b <= c
    ensures a <= c
  {
    assert forall i :: 0 <= i < |a| ==> a[i] == b[i] == c[i];
  }

  /** No piece contains the separator. */
  lemma {:induction false} SplitPiecesAreFree(s: string, sep: string)
    requires |sep| > 0
    ensures forall i :: 0 <= i < |Split(s, sep)| ==> !Occurs(sep, Split(s, sep)[i])
    decreases |s|
  {
    if sep <= s {
      SplitPiecesAreFree(s[|sep|..], sep);
      var parts := Split(s, sep);
      assert !Occurs(sep, parts[0]);
      assert forall i :: 1 <= i < |parts| ==> parts[i] == Split(s[|sep|..], sep)[i - 1];
    } else if |s| > 0 {
      var rest := Split(s[1..], sep);
      SplitPiecesAreFree(s[1..], sep);
      var first := [s[0]] + rest[0];
      assert first[1..] == rest[0];
      assert first <= s;
      if sep <= first {
        PrefixTransitive(sep, first, s);
      }
      assert !Occurs(sep, first);
      var parts := Split(s, sep);
      assert forall i :: 1 <= i < |parts| ==> parts[i] == rest[i];
    }
  }

  /** A string in which `sep` does not occur is one piece. */
  lemma {:induction false} SplitWithoutSeparator(s: string, sep: string)
    requires |sep| > 0
    requires !Occurs(sep, s)
    ensures Split(s, sep) == [s]
    decreases |s|
  {
    if |s| > 0 {
      SplitWithoutSeparator(s[1..], sep);
      assert s == [s[0]] + s[1..];
    }
  }

  /** When `sep` starts at no position inside `p`, the string `p + sep + tail`
      splits off `p` first. */
  lemma {:induction false} SplitAfterPiece(p: string, sep: string, tail: string)
    requires |sep| > 0
    requires forall i :: 0 <= i < |p| ==> !(sep <= (p + sep + tail)[i..])
    ensures Split(p + sep + tail, sep) == [p] + Split(tail, sep)
    decreases |p|
  {
    var s := p + sep + tail;
    if |p| == 0 {
      assert s == sep + tail;
      assert s[|sep|..] == tail;
    } else {
      assert s[0..] == s;
      assert s[1..] == p[1..] + sep + tail;
      assert forall i :: 0 <= i < |p| - 1 ==> (p[1..] + sep + tail)[i..] == s[i + 1..];
      SplitAfterPiece(p[1..], sep, tail);
      assert [p[0]] + p[1..] == p;
    }
  }

  lemma {:induction false} NotOccursChar(s: string, c: char)
    requires c !in s
    ensures !Occurs([c], s)
    decreases |s|
  {
    if |s| > 0 {
      assert s[0] in s;
      assert !([c] <= s);
      assert forall x :: x in s[1..] ==> x in s;
      NotOccursChar(s[1..], c);
    }
  }

  /** `sep` starts at no position of `s`. */
  lemma {:induction false} NotOccursAnywhere(s: string, sep: string)
    requires forall i :: 0 <= i <= |s| ==> !(sep <= s[i..])
    ensures !Occurs(sep, s)
    decreases |s|
  {
    if |s| > 0 {
      assert s[0..] == s;
      assert forall i :: 0 <= i <= |s| - 1 ==> s[1..][i..] == s[i + 1..];
      NotOccursAnywhere(s[1..], sep);
    }
  }

  /** For a one-character separator the split undoes the join, provided no
      piece holds the separator. */
  lemma {:induction false} SplitJoin(parts: seq<string>, c: char)
    requires |parts| > 0
    requires forall i :: 0 <= i < |parts| ==> c !in parts[i]
    ensures Split(Join(parts, [c]), [c]) == parts
    decreases |parts|
  {
    if |parts| == 1 {
      NotOccursChar(parts[0], c);
      SplitWithoutSeparator(parts[0], [c]);
    } else {
      SplitJoin(parts[1..], c);
      var tail := Join(parts[1..], [c]);
      forall i | 0 <= i < |parts[0]|
        ensures !([c] <= (parts[0] + [c] + tail)[i..])
      {
        assert (parts[0] + [c] + tail)[i..][0] == parts[0][i];
      }
      SplitAfterPiece(parts[0], [c], tail);
      assert parts == [parts[0]] + parts[1..];
    }
  }
}
