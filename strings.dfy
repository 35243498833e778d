/**
 * Splitting a string on a one-character separator, the way Rust's
 * `str::split` does it for a `char`-like pattern: the result always has at
 * least one segment (the empty string splits into `[""]`), adjacent
 * separators produce empty segments, and the separators themselves are
 * dropped.
 */
module Strings {

  /** The position of the first occurrence of `c` in `s`. */
  function IndexOf(s: string, c: char): (i: nat)
    requires c in s
    ensures i < |s| && s[i] == c
    ensures c !in s[..i]
  {
    if s[0] == c then 0
    else
      var i := 1 + IndexOf(s[1..], c);
      assert s[..i] == [s[0]] + s[1..][..i - 1];
      i
  }

  /** Glues segments back together with `sep` between consecutive ones. */
  function Join(segs: seq<string>, sep: char): (s: string)
  {
    if |segs| == 0 then ""
    else if |segs| == 1 then segs[0]
    else segs[0] + [sep] + Join(segs[1..], sep)
  }

  /**
   * The segments of `s` between occurrences of `sep`: the text up to the
   * first separator, then the segments of whatever follows it.
   */
  function Split(s: string, sep: char): (segs: seq<string>)
    ensures |segs| == multiset(s)[sep] + 1
    ensures forall i :: 0 <= i < |segs| ==> sep !in segs[i]
    ensures Join(segs, sep) == s
    decreases |s|
  {
    if sep !in s then [s]
    else
      var i := IndexOf(s, sep);
      var rest := Split(s[i + 1..], sep);
      var segs := [s[..i]] + rest;
      assert s == s[..i] + [sep] + s[i + 1..];
      assert multiset(s)[sep] == multiset(s[..i])[sep] + 1 + multiset(s[i + 1..])[sep];
      assert segs[1..] == rest;
      segs
  }

  /** Joining two or more segments writes the first, a separator, then the rest joined. */
  lemma JoinCons(segs: seq<string>, sep: char)
    requires |segs| >= 2
    ensures Join(segs, sep) == segs[0] + ([sep] + Join(segs[1..], sep))
  {
    assert segs[0] + [sep] + Join(segs[1..], sep) == segs[0] + ([sep] + Join(segs[1..], sep));
  }

  /** The first occurrence of a separator that follows a separator-free prefix. */
  lemma IndexOfAfterFree(a: string, c: char, b: string)
    requires c !in a
    ensures c in a + ([c] + b)
    ensures IndexOf(a + ([c] + b), c) == |a|
  {
    var s := a + ([c] + b);
    assert s[|a|] == c;
  }

  /** Splitting after a separator-free prefix peels that prefix off as the first segment. */
  lemma SplitAfterFree(a: string, c: char, b: string)
    requires c !in a
    ensures Split(a + ([c] + b), c) == [a] + Split(b, c)
  {
    var s := a + ([c] + b);
    IndexOfAfterFree(a, c, b);
    assert s[..|a|] == a;
    assert s[|a| + 1..] == b;
  }

  /**
   * Split undoes Join: segments that do not contain the separator come back
   * unchanged.
   */
  lemma {:induction false} SplitJoin(segs: seq<string>, sep: char)
    requires |segs| >= 1
    requires forall i :: 0 <= i < |segs| ==> sep !in segs[i]
    ensures Split(Join(segs, sep), sep) == segs
    decreases |segs|
  {
    if |segs| == 1 {
      assert Join(segs, sep) == segs[0];
    } else {
      var tail := segs[1..];
      assert forall i :: 0 <= i < |tail| ==> sep !in tail[i] by {
        forall i | 0 <= i < |tail| ensures sep !in tail[i] {
          assert tail[i] == segs[i + 1];
        }
      }
      SplitJoin(tail, sep);
      assert sep !in segs[0];
      SplitAfterFree(segs[0], sep, Join(tail, sep));
      assert segs == [segs[0]] + tail;
    }
  }

  /**
   * `seg` stands in `s` at offset `start`, holds no `sep`, and is followed
   * either by `sep` or by the end of `s`: it is a whole segment of `s`.
   */
  ghost predicate SegmentAt(s: string, start: nat, seg: string, sep: char)
  {
    && start + |seg| <= |s|
    && s[start..start + |seg|] == seg
    && sep !in seg
    && (start + |seg| == |s| || s[start + |seg|] == sep)
  }

  /**
   * A segment is pinned down by where it starts: two whole segments at the
   * same offset are the same string.
   */
  lemma SegmentAtUnique(s: string, start: nat, a: string, b: string, sep: char)
    requires SegmentAt(s, start, a, sep) && SegmentAt(s, start, b, sep)
    ensures a == b
  {
  }

  /**
   * In the joined text, the first two of two or more separator-free segments
   * are whole segments at offset 0 and just after the first separator.
   */
  lemma JoinFirstSegments(segs: seq<string>, sep: char)
    requires |segs| >= 2
    requires forall i :: 0 <= i < |segs| ==> sep !in segs[i]
    ensures SegmentAt(Join(segs, sep), 0, segs[0], sep)
    ensures SegmentAt(Join(segs, sep), |segs[0]| + 1, segs[1], sep)
  {
    var s, k, v := Join(segs, sep), segs[0], segs[1];
    var more := segs[1..];
    JoinCons(segs, sep);
    var after: string := if |segs| == 2 then [] else [sep] + Join(more[1..], sep);
    if |segs| == 2 {
      assert more == [v];
    } else {
      JoinCons(more, sep);
    }
    assert s == k + ([sep] + (v + after));
    assert s[0..|k|] == k;
    assert s[|k|] == sep;
    assert s[|k| + 1..|k| + 1 + |v|] == v;
    assert |k| + 1 + |v| < |s| ==> s[|k| + 1 + |v|] == after[0];
  }
}
