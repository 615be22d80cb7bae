/** When a layout stays valid without another `align` pass: a second pass changes nothing, and
    taking a skipped slide out of the list (the completion callback of a rotation step) leaves
    every other slide exactly where a fresh pass would put it. */
module Relayout {
  import opened Slides
  import opened Fit
  import opened Layout

  /** Two lists look the same to the fit pass: same length, same images, same skip_me marks. */
  predicate SameFit(a: seq<Slide>, b: seq<Slide>)
  {
    |a| == |b| && forall i :: 0 <= i < |a| ==> a[i].skip == b[i].skip && a[i].imgWidth == b[i].imgWidth
  }

  /** Lists that look the same to the fit pass have the same candidates. */
  lemma {:induction false} CandidatesSameFit(a: seq<Slide>, b: seq<Slide>, n: nat)
    requires SameFit(a, b) && n <= |a|
    ensures Candidates(a, n) == Candidates(b, n)
  {
    if n > 0 {
      CandidatesSameFit(a, b, n - 1);
    }
  }

  /** Lists that look the same to the fit pass have the same widths at the same positions. */
  lemma {:induction false} SumWidthsSameFit(a: seq<Slide>, b: seq<Slide>, idx: seq<nat>)
    requires SameFit(a, b) && InRange(a, idx)
    ensures SumWidths(a, idx) == SumWidths(b, idx)
  {
    if idx != [] {
      SumWidthsSameFit(a, b, idx[..|idx| - 1]);
    }
  }

  /** Lists that look the same to the fit pass have the same longest fitting prefix. */
  lemma {:induction false} LongestSameFit(a: seq<Slide>, b: seq<Slide>, c: seq<nat>, ulWidth: nat, k: nat)
    requires SameFit(a, b) && InRange(a, c) && k <= |c|
    ensures Longest(a, c, ulWidth, k) == Longest(b, c, ulWidth, k)
  {
    SumWidthsSameFit(a, b, c[..k]);
    if k > 0 {
      LongestSameFit(a, b, c, ulWidth, k - 1);
    }
  }

  /** The fit pass reads only the images and the skip_me marks. */
  lemma FittedSameFit(a: seq<Slide>, b: seq<Slide>, ulWidth: nat)
    requires SameFit(a, b)
    ensures Fitted(a, ulWidth) == Fitted(b, ulWidth)
    ensures FittedGap(a, ulWidth) == FittedGap(b, ulWidth)
  {
    CandidatesSameFit(a, b, |a|);
    LongestSameFit(a, b, Candidates(a, |a|), ulWidth, |Candidates(a, |a|)|);
    SumWidthsSameFit(a, b, Fitted(a, ulWidth));
  }

  /** Aligning twice is aligning once: a laid-out list is a fixed point of `align`. */
  lemma AlignIdempotent(s: seq<Slide>, ulWidth: nat)
    ensures Laid(Laid(s, ulWidth), ulWidth) == Laid(s, ulWidth)
  {
    FittedSameFit(Laid(s, ulWidth), s, ulWidth);
  }

  /** The list with the slide at position `r` taken out. */
  function Without(s: seq<Slide>, r: nat): (t: seq<Slide>)
    requires r < |s|
    ensures |t| == |s| - 1
    ensures forall i :: 0 <= i < |t| ==> t[i] == s[if i < r then i else i + 1]
  {
    s[..r] + s[r + 1..]
  }

  /** Positions `idx` renumbered after the slide at `r` is taken out. */
  function Shift(idx: seq<nat>, r: nat): seq<nat>
  {
    seq(|idx|, k requires 0 <= k < |idx| => if idx[k] > r then idx[k] - 1 else idx[k])
  }

  /** Renumbering distributes over appending a position. */
  lemma ShiftAppend(c: seq<nat>, r: nat, v: nat)
    ensures Shift(c + [v], r) == Shift(c, r) + [if v > r then v - 1 else v]
  {
  }

  /** Renumbering a prefix is the prefix of the renumbering. */
  lemma ShiftPrefix(c: seq<nat>, r: nat, n: nat)
    requires n <= |c|
    ensures Shift(c, r)[..n] == Shift(c[..n], r)
  {
  }

  /** One step of `CandidatesWithout` below the removed slide: slide `n - 1` is before `r`. */
  lemma CandidatesWithoutBefore(x: seq<Slide>, r: nat, n: nat)
    requires r < |x| && x[r].skip && 0 < n <= r
    requires Candidates(Without(x, r), n - 1) == Shift(Candidates(x, n - 1), r)
    ensures Candidates(Without(x, r), n) == Shift(Candidates(x, if n < r then n else n + 1), r)
  {
    var y := Without(x, r);
    var c := Candidates(x, n - 1);
    assert Candidates(y, n) == Candidates(y, n - 1) + (if y[n - 1].skip then [] else [n - 1]);
    assert y[n - 1] == x[n - 1];
    assert Candidates(x, n) == c + (if x[n - 1].skip then [] else [n - 1]);
    if !x[n - 1].skip {
      ShiftAppend(c, r, n - 1);
    }
    if n == r {
      assert Candidates(x, r + 1) == Candidates(x, r) + [];
    }
  }

  /** One step of `CandidatesWithout` above the removed slide: slide `n - 1` of the shorter list is
      slide `n` of the longer one. */
  lemma CandidatesWithoutAfter(x: seq<Slide>, r: nat, n: nat)
    requires r < |x| && x[r].skip && r < n <= |x| - 1
    requires Candidates(Without(x, r), n - 1) == Shift(Candidates(x, n), r)
    ensures Candidates(Without(x, r), n) == Shift(Candidates(x, n + 1), r)
  {
    var y := Without(x, r);
    var c := Candidates(x, n);
    assert Candidates(y, n) == Candidates(y, n - 1) + (if y[n - 1].skip then [] else [n - 1]);
    assert y[n - 1] == x[n];
    assert Candidates(x, n + 1) == c + (if x[n].skip then [] else [n]);
    if !x[n].skip {
      ShiftAppend(c, r, n);
    }
  }

  /** The non-skipped slides of the shorter list are those of the longer one, renumbered. */
  lemma {:induction false} CandidatesWithout(x: seq<Slide>, r: nat, n: nat)
    requires r < |x| && x[r].skip && n <= |x| - 1
    ensures Candidates(Without(x, r), n) == Shift(Candidates(x, if n < r then n else n + 1), r)
  {
    if n == 0 {
      if r == 0 {
        assert Candidates(x, 1) == Candidates(x, 0) + [];
      }
    } else {
      CandidatesWithout(x, r, n - 1);
      if n - 1 < r {
        CandidatesWithoutBefore(x, r, n);
      } else {
        CandidatesWithoutAfter(x, r, n);
      }
    }
  }

  /** Removing a slide not among `idx` keeps their width, once the positions are renumbered. */
  lemma {:induction false} SumWidthsWithout(x: seq<Slide>, r: nat, idx: seq<nat>)
    requires r < |x| && InRange(x, idx) && forall k :: 0 <= k < |idx| ==> idx[k] != r
    ensures InRange(Without(x, r), Shift(idx, r))
    ensures SumWidths(Without(x, r), Shift(idx, r)) == SumWidths(x, idx)
  {
    var y := Without(x, r);
    if idx != [] {
      var n := |idx| - 1;
      SumWidthsWithout(x, r, idx[..n]);
      assert Shift(idx, r)[..n] == Shift(idx[..n], r);
      assert y[Shift(idx, r)[n]] == x[idx[n]];
    }
  }

  /** Removing a slide not among `c` keeps the longest fitting prefix of `c`, renumbered. */
  lemma {:induction false} LongestWithout(x: seq<Slide>, r: nat, c: seq<nat>, ulWidth: nat, k: nat)
    requires r < |x| && InRange(x, c) && k <= |c| && forall j :: 0 <= j < |c| ==> c[j] != r
    ensures InRange(Without(x, r), Shift(c, r))
    ensures Longest(Without(x, r), Shift(c, r), ulWidth, k) == Longest(x, c, ulWidth, k)
  {
    SumWidthsWithout(x, r, c);
    SumWidthsWithout(x, r, c[..k]);
    assert Shift(c, r)[..k] == Shift(c[..k], r);
    if k > 0 {
      LongestWithout(x, r, c, ulWidth, k - 1);
    }
  }

  /** Taking out a skipped slide does not change which slides are fitted, only their positions. */
  lemma FittedWithout(x: seq<Slide>, r: nat, ulWidth: nat)
    requires r < |x| && x[r].skip
    ensures Fitted(Without(x, r), ulWidth) == Shift(Fitted(x, ulWidth), r)
    ensures FittedGap(Without(x, r), ulWidth) == FittedGap(x, ulWidth)
  {
    var y := Without(x, r);
    var c := Candidates(x, |x|);
    CandidatesWithout(x, r, |y|);
    LongestWithout(x, r, c, ulWidth, |c|);
    var n := Longest(x, c, ulWidth, |c|);
    assert Candidates(y, |y|) == Shift(c, r);
    ShiftPrefix(c, r, n);
    SumWidthsWithout(x, r, Fitted(x, ulWidth));
  }

  /** Renumbering is one-to-one away from `r`: position `i` of the shorter list is fitted exactly
      when the slide it came from was, and it is the last fitted exactly when that slide was. */
  lemma ShiftMember(f: seq<nat>, r: nat, i: nat)
    requires forall k :: 0 <= k < |f| ==> f[k] != r
    ensures var j := if i < r then i else i + 1;
      (i in Shift(f, r) <==> j in f) &&
      (|f| > 0 ==> (i == Shift(f, r)[|f| - 1] <==> j == f[|f| - 1]))
  {
    var j := if i < r then i else i + 1;
    if i in Shift(f, r) {
      var k :| 0 <= k < |f| && Shift(f, r)[k] == i;
      assert f[k] == j;
    }
    if j in f {
      var k :| 0 <= k < |f| && f[k] == j;
      assert Shift(f, r)[k] == i;
    }
  }

  /** The completion callback needs no new `align` pass: taking a skipped slide out of a laid-out
      list gives the layout a fresh pass over the shorter list would give. */
  lemma LaidWithout(x: seq<Slide>, r: nat, ulWidth: nat)
    requires r < |x| && x[r].skip
    ensures Laid(Without(x, r), ulWidth) == Without(Laid(x, ulWidth), r)
  {
    var y := Without(x, r);
    var f := Fitted(x, ulWidth);
    FittedWithout(x, r, ulWidth);
    forall i | 0 <= i < |y|
      ensures Laid(y, ulWidth)[i] == Without(Laid(x, ulWidth), r)[i]
    {
      ShiftMember(f, r, i);
    }
  }
}
