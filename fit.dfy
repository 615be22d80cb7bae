/** Which slides one fit pass lays out: the slides not marked skip_me, taken from the head of the list
    for as long as their image widths fit into the container and the capacity is not reached. */
module Fit {
  import opened Slides

  /** Positions below `n` of the slides that do not carry skip_me, in list order. */
  function Candidates(s: seq<Slide>, n: nat): (c: seq<nat>)
    requires n <= |s|
    ensures Increasing(c)
    ensures forall k :: 0 <= k < |c| ==> c[k] < n && !s[c[k]].skip
  {
    if n == 0 then [] else Candidates(s, n - 1) + (if s[n - 1].skip then [] else [n - 1])
  }

  /** Sum of the image widths of the slides at positions `idx`. */
  function SumWidths(s: seq<Slide>, idx: seq<nat>): nat
    requires InRange(s, idx)
  {
    if idx == [] then 0 else SumWidths(s, idx[..|idx| - 1]) + s[idx[|idx| - 1]].imgWidth
  }

  /** The slides at `idx` fit side by side into a container `ulWidth` wide, and there are not
      more of them than the slider capacity. */
  predicate Fits(s: seq<Slide>, idx: seq<nat>, ulWidth: nat)
    requires InRange(s, idx)
  {
    SumWidths(s, idx) <= ulWidth && |idx| <= MaxSlidesVisible
  }

  /** The length of the longest prefix of `c[..k]` that fits. */
  function Longest(s: seq<Slide>, c: seq<nat>, ulWidth: nat, k: nat): (n: nat)
    requires InRange(s, c) && k <= |c|
    ensures n <= k && Fits(s, c[..n], ulWidth)
    ensures forall m :: n < m <= k ==> !Fits(s, c[..m], ulWidth)
  {
    if Fits(s, c[..k], ulWidth) then k
    else
      assert c[..0] == [];
      Longest(s, c, ulWidth, k - 1)
  }

  /** The positions of the slides one fit pass lays out: the longest run of non-skipped slides,
      from the head of the list, that fits into the container and the capacity. */
  function Fitted(s: seq<Slide>, ulWidth: nat): (f: seq<nat>)
    ensures InRange(s, f) && Increasing(f)
    ensures forall k :: 0 <= k < |f| ==> !s[f[k]].skip
    ensures |f| <= MaxSlidesVisible && SumWidths(s, f) <= ulWidth
  {
    var c := Candidates(s, |s|);
    c[..Longest(s, c, ulWidth, |c|)]
  }

  /** Adding slides to the end of a selection never makes its width smaller. */
  lemma {:induction false} SumWidthsMonotone(s: seq<Slide>, idx: seq<nat>, k: nat, m: nat)
    requires InRange(s, idx) && k <= m <= |idx|
    ensures SumWidths(s, idx[..k]) <= SumWidths(s, idx[..m])
  {
    if k < m {
      SumWidthsMonotone(s, idx, k, m - 1);
      assert idx[..m][..m - 1] == idx[..m - 1];
    }
  }

  /** The non-skipped slides below `m` are the first ones of those below `n`. */
  lemma {:induction false} CandidatesPrefix(s: seq<Slide>, m: nat, n: nat)
    requires m <= n <= |s|
    ensures |Candidates(s, m)| <= |Candidates(s, n)|
    ensures Candidates(s, m) == Candidates(s, n)[..|Candidates(s, m)|]
  {
    if m < n {
      CandidatesPrefix(s, m, n - 1);
      var b := Candidates(s, n - 1);
      var cn := Candidates(s, n);
      assert cn == b + (if s[n - 1].skip then [] else [n - 1]);
      assert cn[..|b|] == b;
      assert cn[..|Candidates(s, m)|] == b[..|Candidates(s, m)|];
    }
  }

  /** Because widths are never negative, a selection that fits while one more slide does not is the
      longest fitting prefix: stopping at the first slide that overflows loses nothing. */
  lemma {:induction false} GreedyStopIsLongest(s: seq<Slide>, c: seq<nat>, ulWidth: nat, m: nat)
    requires InRange(s, c) && m <= |c|
    requires Fits(s, c[..m], ulWidth)
    requires m == |c| || !Fits(s, c[..m + 1], ulWidth)
    ensures Longest(s, c, ulWidth, |c|) == m
  {
    var n := Longest(s, c, ulWidth, |c|);
    if n > m {
      SumWidthsMonotone(s, c, m + 1, n);
    }
  }

  /** A non-skipped slide `i` comes, among all non-skipped slides, right after those before it. */
  lemma NextCandidate(s: seq<Slide>, i: nat)
    requires i < |s| && !s[i].skip
    ensures var e := Candidates(s, i); var c := Candidates(s, |s|);
      |e| < |c| && c[..|e|] == e && c[..|e| + 1] == e + [i]
  {
    assert Candidates(s, i + 1) == Candidates(s, i) + [i];
    CandidatesPrefix(s, i + 1, |s|);
    CandidatesPrefix(s, i, |s|);
  }

  /** Where the `_filter` loop breaks: the non-skipped slides before `i` fit, and with the
      non-skipped slide `i` added they do not; then those before `i` are exactly the fitted ones. */
  lemma FittedAtBreak(s: seq<Slide>, ulWidth: nat, i: nat)
    requires i < |s| && !s[i].skip
    requires Fits(s, Candidates(s, i), ulWidth) && !Fits(s, Candidates(s, i) + [i], ulWidth)
    ensures Candidates(s, i) == Fitted(s, ulWidth)
  {
    NextCandidate(s, i);
    GreedyStopIsLongest(s, Candidates(s, |s|), ulWidth, |Candidates(s, i)|);
  }

  /** Where the `_filter` loop runs to the end: all the non-skipped slides fit, so all are fitted. */
  lemma FittedWhenAllFit(s: seq<Slide>, ulWidth: nat)
    requires Fits(s, Candidates(s, |s|), ulWidth)
    ensures Candidates(s, |s|) == Fitted(s, ulWidth)
  {
    var c := Candidates(s, |s|);
    AllFitLongest(s, c, ulWidth);
  }

  /** When all of `c` fits, `Longest` keeps all of it. */
  lemma AllFitLongest(s: seq<Slide>, c: seq<nat>, ulWidth: nat)
    requires InRange(s, c) && Fits(s, c, ulWidth)
    ensures c[..Longest(s, c, ulWidth, |c|)] == c
  {
    assert c[..|c|] == c;
  }

  /** A fitting prefix of `c` that cannot be extended by one more element is what `Longest` cuts off. */
  lemma StopLongest(s: seq<Slide>, c: seq<nat>, ulWidth: nat, m: nat)
    requires InRange(s, c) && m <= |c| && Fits(s, c[..m], ulWidth)
    requires m == |c| || !Fits(s, c[..m + 1], ulWidth)
    ensures c[..Longest(s, c, ulWidth, |c|)] == c[..m]
  {
    GreedyStopIsLongest(s, c, ulWidth, m);
  }

  /** The fitted slides are the first `m` non-skipped slides when those fit and one more does not. */
  lemma FittedAtStop(s: seq<Slide>, ulWidth: nat, m: nat)
    requires var c := Candidates(s, |s|);
      m <= |c| && Fits(s, c[..m], ulWidth) && (m == |c| || !Fits(s, c[..m + 1], ulWidth))
    ensures Fitted(s, ulWidth) == Candidates(s, |s|)[..m]
  {
    StopLongest(s, Candidates(s, |s|), ulWidth, m);
  }

  /** In a list without repeats, the element at `p` is among the first `n` exactly when `p < n`. */
  lemma IncreasingPrefixMember(c: seq<nat>, n: nat, p: nat)
    requires Increasing(c) && n <= |c| && p < |c|
    ensures c[p] in c[..n] <==> p < n
  {
    if c[p] in c[..n] {
      var k :| 0 <= k < n && c[..n][k] == c[p];
      assert c[k] == c[p];
    }
  }

  /** The greedy rule, slide by slide: a slide without skip_me is laid out exactly when it and all
      the non-skipped slides before it fit together into the container and the capacity. */
  lemma {:induction false} FittedIsGreedy(s: seq<Slide>, ulWidth: nat, j: nat)
    requires j < |s| && !s[j].skip
    ensures j in Fitted(s, ulWidth) <==> Fits(s, Candidates(s, j + 1), ulWidth)
  {
    var c := Candidates(s, |s|);
    var n := Longest(s, c, ulWidth, |c|);
    var p := |Candidates(s, j)|;
    assert Candidates(s, j + 1) == Candidates(s, j) + [j];
    CandidatesPrefix(s, j + 1, |s|);
    assert c[..p + 1] == Candidates(s, j + 1);
    assert c[p] == j;
    IncreasingPrefixMember(c, n, p);
    if p < n {
      SumWidthsMonotone(s, c, p + 1, n);
    }
  }

  /** The pass stops exactly where the `_filter` loop breaks: what is laid out is the run of non-skipped
      slides from the head, and when that run stops short, the next non-skipped slide would have
      overflowed the container or found the capacity reached. */
  lemma FittedStopsAtFirstOverflow(s: seq<Slide>, ulWidth: nat)
    ensures var c := Candidates(s, |s|); var f := Fitted(s, ulWidth);
      |f| <= |c| && f == c[..|f|] &&
      (|f| < |c| ==> SumWidths(s, f) + s[c[|f|]].imgWidth > ulWidth || |f| == MaxSlidesVisible)
  {
    var c := Candidates(s, |s|);
    var f := Fitted(s, ulWidth);
    if |f| < |c| {
      assert c[..|f| + 1][..|f|] == f;
    }
  }
}
