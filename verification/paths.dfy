/**
 The path arithmetic behind active-link highlighting: splitting a path (or an
 `href`) at '/' and taking its last segment, as JavaScript's
 `s.split('/').pop()` does.
 */
module Paths {

  const Separator: char := '/'

  /** `suffix` is what is left of `s` after dropping its first |s| - |suffix| characters. */
  predicate IsSuffix(suffix: string, s: string) {
    |suffix| <= |s| && suffix == s[|s| - |suffix|..]
  }

  /** The segment after the last separator of `s`, or all of `s` when it has none.
      It is the longest separator-free suffix of `s`. */
  function LastSegment(s: string): (r: string)
    ensures Separator !in r
    ensures IsSuffix(r, s)
    ensures |r| < |s| ==> s[|s| - |r| - 1] == Separator
    decreases |s|
  {
    if |s| == 0 then ""
    else if s[|s| - 1] == Separator then ""
    else
      var init := s[..|s| - 1];
      var r := LastSegment(init) + [s[|s| - 1]];
      assert s == init + [s[|s| - 1]];
      r
  }

  /** The segments of `s` between separators, in order: `s.split('/')`.
      There is always at least one segment, and none contains a separator. */
  function Split(s: string): (parts: seq<string>)
    ensures |parts| >= 1
    ensures forall i :: 0 <= i < |parts| ==> Separator !in parts[i]
    ensures Join(parts) == s
    decreases |s|
  {
    if |s| == 0 then [""]
    else
      var rest := Split(s[1..]);
      if s[0] == Separator then
        assert Join([""] + rest) == [Separator] + Join(rest);
        [""] + rest
      else
        var parts := [[s[0]] + rest[0]] + rest[1..];
        assert parts[1..] == rest[1..];
        parts
  }

  /** The segments put back together with a separator between neighbours: `parts.join('/')`. */
  function Join(parts: seq<string>): string
    requires |parts| >= 1
  {
    if |parts| == 1 then parts[0] else parts[0] + [Separator] + Join(parts[1..])
  }

  /** The last element of a non-empty sequence, as `Array.prototype.pop` returns it. */
  function Last<T>(xs: seq<T>): T
    requires |xs| >= 1
  {
    xs[|xs| - 1]
  }

  /** A string without separators is a single segment. */
  lemma SplitSegment(a: string)
    requires Separator !in a
    ensures Split(a) == [a]
  {
  }

  /** Splitting a separator-free segment followed by a separator peels that segment off. */
  lemma {:induction false} SplitCons(a: string, t: string)
    requires Separator !in a
    ensures Split(a + [Separator] + t) == [a] + Split(t)
    decreases |a|
  {
    var s := a + [Separator] + t;
    if |a| == 0 {
      assert s[1..] == t;
    } else {
      assert s[1..] == a[1..] + [Separator] + t;
      SplitCons(a[1..], t);
      assert [a[0]] + a[1..] == a;
    }
  }

  /** Joining separator-free segments and splitting again gives the segments back. */
  lemma {:induction false} SplitJoin(parts: seq<string>)
    requires |parts| >= 1
    requires forall i :: 0 <= i < |parts| ==> Separator !in parts[i]
    ensures Split(Join(parts)) == parts
    decreases |parts|
  {
    if |parts| == 1 {
      SplitSegment(parts[0]);
    } else {
      SplitJoin(parts[1..]);
      SplitCons(parts[0], Join(parts[1..]));
      assert [parts[0]] + parts[1..] == parts;
    }
  }

  /** The last segment stands after the join of all the others and one separator. */
  lemma {:induction false} JoinSnoc(parts: seq<string>)
    requires |parts| >= 2
    ensures Join(parts) == Join(parts[..|parts| - 1]) + [Separator] + Last(parts)
    decreases |parts|
  {
    if |parts| > 2 {
      JoinSnoc(parts[1..]);
      assert parts[1..][..|parts| - 2] == parts[..|parts| - 1][1..];
    }
  }

  /** A separator-free suffix that is all of `s` or starts right after a
      separator is the last segment: the characterisation is unique. */
  lemma LastSegmentUnique(s: string, r: string)
    requires Separator !in r
    requires IsSuffix(r, s)
    requires |r| < |s| ==> s[|s| - |r| - 1] == Separator
    ensures r == LastSegment(s)
  {
  }

  /** `LastSegment` is `split('/').pop()`. */
  lemma LastSegmentIsLastPart(s: string)
    ensures LastSegment(s) == Last(Split(s))
  {
    var parts := Split(s);
    var r := Last(parts);
    assert Separator !in r;
    if |parts| >= 2 {
      JoinSnoc(parts);
      var front := Join(parts[..|parts| - 1]) + [Separator];
      assert s == front + r;
      assert s[|s| - |r| - 1] == Separator;
      assert IsSuffix(r, s);
    } else {
      assert s == r;
    }
    LastSegmentUnique(s, r);
  }

  /** A string with no separator is its own last segment. */
  lemma LastSegmentOfSegment(s: string)
    requires Separator !in s
    ensures LastSegment(s) == s
  {
  }
}
