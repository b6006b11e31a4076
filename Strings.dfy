/** Python's `s.split(c)` for a one-character separator, which the script
    calls, and reference definitions the contracts are stated with: the
    `sep.join(parts)` that the condition loop is meant to compute, a substring
    test, and the Option type that stands for Python's `None`. */
module Strings {

  datatype Option<T> = None | Some(value: T)

  /** `part` occurs somewhere in `text` (Python's `part in text`). */
  predicate Contains(text: string, part: string)
  {
    exists i :: 0 <= i <= |text| && part <= text[i..]
  }

  /** Total length of all the parts. */
  function SumLengths(parts: seq<string>): nat
  {
    if parts == [] then 0 else SumLengths(parts[..|parts| - 1]) + |parts[|parts| - 1]|
  }

  /** `sep.join(parts)`: the parts in order, `sep` between neighbours and
      nowhere else. */
  function Join(parts: seq<string>, sep: string): string
  {
    if |parts| == 0 then ""
    else if |parts| == 1 then parts[0]
    else Join(parts[..|parts| - 1], sep) + sep + parts[|parts| - 1]
  }

  /** The join ends with the last part: there is no trailing separator. */
  lemma JoinEndsWithLast(parts: seq<string>, sep: string)
    requires |parts| > 0
    ensures var r, last := Join(parts, sep), parts[|parts| - 1];
      |last| <= |r| && r[|r| - |last|..] == last
  {
  }

  /** Appending one more part appends the separator and that part. */
  lemma JoinSnoc(parts: seq<string>, sep: string, last: string)
    requires |parts| > 0
    ensures Join(parts + [last], sep) == Join(parts, sep) + sep + last
  {
    SnocParts(parts, last);
  }

  /** Length of a join: every character of every part, plus one separator
      between each pair of neighbours. */
  lemma {:induction false} JoinLength(parts: seq<string>, sep: string)
    requires |parts| > 0
    ensures |Join(parts, sep)| == SumLengths(parts) + (|parts| - 1) * |sep|
  {
    var n := |parts|;
    if n > 1 {
      JoinLength(parts[..n - 1], sep);
      MulStep(n - 2, |sep|);
    }
  }

  /** Extending the last part by `tail` extends the join by `tail`. */
  lemma JoinExtendLast(parts: seq<string>, sep: string, tail: string)
    requires |parts| > 0
    ensures var n := |parts|;
      Join(parts[..n - 1] + [parts[n - 1] + tail], sep) == Join(parts, sep) + tail
  {
    var n := |parts|;
    var front, last := parts[..n - 1], parts[n - 1];
    SnocParts(front, last + tail);
    if n > 1 {
      LastSplit(parts);
      JoinSnoc(front, sep, last + tail);
      JoinSnoc(front, sep, last);
    }
  }

  /** `s.split(c)`: the maximal runs of `s` that do not contain `c`, in order;
      there is always at least one part. */
  function Split(s: string, c: char): (parts: seq<string>)
    ensures |parts| >= 1
  {
    if s == [] then [""]
    else
      var init := Split(s[..|s| - 1], c);
      if s[|s| - 1] == c then init + [""]
      else init[..|init| - 1] + [init[|init| - 1] + [s[|s| - 1]]]
  }

  /** One more character either starts a new part (the separator) or extends
      the last one. */
  lemma SplitSnoc(s: string, x: char, c: char)
    ensures var init := Split(s, c);
      Split(s + [x], c) == if x == c then init + [""] else init[..|init| - 1] + [init[|init| - 1] + [x]]
  {
    assert (s + [x])[..|s|] == s;
  }

  /** No part of `s.split(c)` contains `c`. */
  lemma {:induction false} SplitPartsExcludeSeparator(s: string, c: char)
    ensures forall i :: 0 <= i < |Split(s, c)| ==> c !in Split(s, c)[i]
  {
    if s != [] {
      var t, x := s[..|s| - 1], s[|s| - 1];
      SplitPartsExcludeSeparator(t, c);
      LastSplit(s);
      SplitSnoc(t, x, c);
      var init := Split(t, c);
      if x == c {
        SnocParts(init, "");
      } else {
        SnocParts(init[..|init| - 1], init[|init| - 1] + [x]);
      }
    }
  }

  /** The last part of `s.split(c)` is the suffix of `s` after its last `c`:
      it is a suffix, and either it is all of `s` or a `c` stands just before
      it. */
  lemma {:induction false} SplitLast(s: string, c: char)
    ensures var last := Split(s, c)[|Split(s, c)| - 1];
      |last| <= |s| && s[|s| - |last|..] == last &&
      (|last| < |s| ==> s[|s| - |last| - 1] == c)
  {
    if s != [] {
      var t, x := s[..|s| - 1], s[|s| - 1];
      SplitLast(t, c);
      LastSplit(s);
      SplitSnoc(t, x, c);
      var init := Split(t, c);
      var prev := init[|init| - 1];
      if x == c {
        SnocParts(init, "");
      } else {
        SnocParts(init[..|init| - 1], prev + [x]);
        SuffixSnoc(t, x, |prev|);
      }
    }
  }

  /** Without any `c` the split is the whole text: `s.split(c) == [s]`. */
  lemma {:induction false} SplitWithoutSeparator(s: string, c: char)
    ensures c !in s ==> Split(s, c) == [s]
  {
    if s != [] && c !in s {
      var t, x := s[..|s| - 1], s[|s| - 1];
      LastSplit(s);
      SplitWithoutSeparator(t, c);
      SplitSnoc(t, x, c);
    }
  }

  /** Splitting and joining back with the same character gives the original
      text: `c.join(s.split(c)) == s`. */
  lemma {:induction false} JoinSplit(s: string, c: char)
    ensures Join(Split(s, c), [c]) == s
  {
    if s != [] {
      var t, x := s[..|s| - 1], s[|s| - 1];
      LastSplit(s);
      var init := Split(t, c);
      JoinSplit(t, c);
      SplitSnoc(t, x, c);
      if x == c {
        JoinSnoc(init, [c], "");
      } else {
        JoinExtendLast(init, [c], [x]);
      }
    }
  }

  /** Appending text without `c` to `s` only extends the last part of its split. */
  lemma {:induction false} SplitExtend(s: string, tail: string, c: char)
    requires c !in tail
    ensures var parts := Split(s, c);
      Split(s + tail, c) == parts[..|parts| - 1] + [parts[|parts| - 1] + tail]
  {
    var parts := Split(s, c);
    var n := |parts|;
    var front, last := parts[..n - 1], parts[n - 1];
    if tail == [] {
      assert s + tail == s;
      assert last + tail == last;
      LastSplit(parts);
    } else {
      var init, x := tail[..|tail| - 1], tail[|tail| - 1];
      SplitExtend(s, init, c);
      var mid := Split(s + init, c);
      assert mid == front + [last + init];
      SplitSnoc(s + init, x, c);
      LastSplit(tail);
      AppendAssoc(s, init, [x]);
      SnocParts(front, last + init);
      AppendAssoc(last, init, [x]);
    }
  }

  // Facts about sequences, stated for any element type: proved once here, they
  // spare the solver from rediscovering them on sequences of strings.

  /** Dropping the element just appended gives the sequence back. */
  lemma SnocParts<T>(s: seq<T>, x: T)
    ensures (s + [x])[..|s|] == s && (s + [x])[|s|] == x
    ensures |s + [x]| == |s| + 1
  {
  }

  /** A non-empty sequence is its front followed by its last element. */
  lemma LastSplit<T>(s: seq<T>)
    requires |s| > 0
    ensures s == s[..|s| - 1] + [s[|s| - 1]]
  {
  }

  /** One element longer prefix. */
  lemma PrefixSnoc<T>(s: seq<T>, i: nat)
    requires i < |s|
    ensures s[..i + 1] == s[..i] + [s[i]]
  {
  }

  /** A suffix of `t` followed by `x` is the same-length-plus-one suffix of `t + [x]`. */
  lemma SuffixSnoc<T>(t: seq<T>, x: T, k: nat)
    requires k <= |t|
    ensures (t + [x])[|t| - k..] == t[|t| - k..] + [x]
  {
  }

  lemma AppendAssoc<T>(x: seq<T>, y: seq<T>, z: seq<T>)
    ensures (x + y) + z == x + (y + z)
  {
  }

  lemma AppendEmpty<T>(s: seq<T>)
    ensures s + [] == s && [] + s == s && s[..|s|] == s
  {
  }

  /** The five pieces of a concatenation can be sliced back out of it. */
  lemma ConcatSlices<T>(a: seq<T>, b: seq<T>, c: seq<T>, d: seq<T>, e: seq<T>)
    ensures var p := a + b + c + d + e;
      |p| == |a| + |b| + |c| + |d| + |e| &&
      p[..|a|] == a &&
      p[|a|..|a| + |b|] == b &&
      p[|a| + |b|..|a| + |b| + |c|] == c &&
      p[|a| + |b| + |c|..|a| + |b| + |c| + |d|] == d &&
      p[|p| - |e|..] == e
  {
  }

  /** Both halves of a concatenation occur in it. */
  lemma ContainsHalves(a: string, b: string)
    ensures Contains(a + b, a) && Contains(a + b, b)
  {
    assert a <= (a + b)[0..];
    assert b <= (a + b)[|a|..];
  }

  /** An occurrence of an occurrence is an occurrence. */
  lemma ContainsTrans(text: string, mid: string, part: string)
    requires Contains(text, mid) && Contains(mid, part)
    ensures Contains(text, part)
  {
    var i :| 0 <= i <= |text| && mid <= text[i..];
    var j :| 0 <= j <= |mid| && part <= mid[j..];
    assert part <= text[i + j..];
  }

  /** One more copy of `k`. */
  lemma MulStep(m: nat, k: nat)
    ensures (m + 1) * k == m * k + k
  {
  }
}
