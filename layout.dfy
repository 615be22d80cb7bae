/** What one `align` pass gives every slide: the fitted slides are spread evenly over the container,
    the last of them marked as the boundary slide, and every other slide collapsed to nothing. */
module Layout {
  import opened Slides
  import opened Fit

  /** The right margin that spreads the container's spare width evenly over the `count - 1` spaces
      between `count` fitted slides whose images are `width` wide together. */
  function Gap(ulWidth: nat, width: nat, count: nat): (g: real)
    requires count >= 2
    ensures (count - 1) as real * g == ulWidth as real - width as real
    ensures width <= ulWidth ==> g >= 0.0
  {
    (ulWidth as real - width as real) / (count - 1) as real
  }

  /** The display state `align` gives to the slide `sl` at position `i`, when `f` are the fitted
      positions and `gap` the margin between fitted slides. */
  function Place(sl: Slide, i: nat, f: seq<nat>, gap: real): Slide
  {
    if i !in f then sl.(width := 0, margin := 0.0, filtered := false, lastOne := false)
    else if i == f[|f| - 1] then sl.(width := sl.imgWidth, margin := 0.0, filtered := true, lastOne := true)
    else sl.(width := sl.imgWidth, margin := gap, filtered := true, lastOne := false)
  }

  /** The margin between fitted slides. With fewer than two fitted slides no slide receives it. */
  function FittedGap(s: seq<Slide>, ulWidth: nat): real
  {
    var f := Fitted(s, ulWidth);
    if |f| >= 2 then Gap(ulWidth, SumWidths(s, f), |f|) else 0.0
  }

  /** The list after one `align` pass over `s` in a container `ulWidth` wide. */
  function Laid(s: seq<Slide>, ulWidth: nat): (r: seq<Slide>)
    ensures |r| == |s|
    ensures forall i :: 0 <= i < |s| ==>
      r[i].key == s[i].key && r[i].id == s[i].id && r[i].imgWidth == s[i].imgWidth && r[i].skip == s[i].skip
  {
    var f := Fitted(s, ulWidth);
    var gap := FittedGap(s, ulWidth);
    seq(|s|, i requires 0 <= i < |s| => Place(s[i], i, f, gap))
  }

  /** The laid-out list grows slide by slide, each slide placed on its own. */
  lemma LaidPrefix(s: seq<Slide>, ulWidth: nat, i: nat)
    requires i < |s|
    ensures Laid(s, ulWidth)[..i + 1] == Laid(s, ulWidth)[..i] + [Laid(s, ulWidth)[i]]
    ensures Laid(s, ulWidth)[i] == Place(s[i], i, Fitted(s, ulWidth), FittedGap(s, ulWidth))
  {
    var r := Laid(s, ulWidth);
    assert r[..i + 1] == r[..i] + [r[i]];
  }

  /** The three cases of `align`: fitted slides other than the last get their image width and the
      even gap, which is never negative; the last fitted slide gets its image width, no margin and
      the boundary mark; every other slide, skipped ones included, is collapsed and unmarked. */
  lemma LaidDisplayState(s: seq<Slide>, ulWidth: nat)
    ensures var f := Fitted(s, ulWidth); var r := Laid(s, ulWidth);
      (forall k :: 0 <= k < |f| - 1 ==>
        r[f[k]] == s[f[k]].(width := s[f[k]].imgWidth, margin := Gap(ulWidth, SumWidths(s, f), |f|),
                            filtered := true, lastOne := false)
        && Gap(ulWidth, SumWidths(s, f), |f|) >= 0.0) &&
      (|f| > 0 ==>
        r[f[|f| - 1]] == s[f[|f| - 1]].(width := s[f[|f| - 1]].imgWidth, margin := 0.0,
                                        filtered := true, lastOne := true)) &&
      (forall i :: 0 <= i < |s| && i !in f ==>
        r[i] == s[i].(width := 0, margin := 0.0, filtered := false, lastOne := false))
  {
    var f := Fitted(s, ulWidth);
    forall k | 0 <= k < |f| - 1
      ensures f[k] != f[|f| - 1]
    {
    }
  }

  /** Exactly the fitted slides carry the class filtered, and the boundary mark last_one is on the
      last fitted slide and on no other; with nothing fitted, no slide carries it. */
  lemma LaidMarksBoundary(s: seq<Slide>, ulWidth: nat)
    ensures var f := Fitted(s, ulWidth); var r := Laid(s, ulWidth);
      (forall i :: 0 <= i < |s| ==> (r[i].filtered <==> i in f)) &&
      (forall i :: 0 <= i < |s| ==> (r[i].lastOne <==> |f| > 0 && i == f[|f| - 1])) &&
      (forall i :: 0 <= i < |s| && r[i].skip ==> !r[i].filtered && r[i].width == 0)
  {
    var f := Fitted(s, ulWidth);
    var r := Laid(s, ulWidth);
    forall i | 0 <= i < |s| && |f| > 0 && i == f[|f| - 1]
      ensures i in f
    {
      assert f[|f| - 1] in f;
    }
  }

  /** Horizontal space a slide takes up: its display width and its right margin. */
  function Extent(sl: Slide): real
  {
    sl.width as real + sl.margin
  }

  /** Horizontal space the whole row of slides takes up. */
  function RowExtent(r: seq<Slide>): real
  {
    if r == [] then 0.0 else RowExtent(r[..|r| - 1]) + Extent(r[|r| - 1])
  }

  /** Horizontal space taken up by the slides at positions `idx`. */
  function ExtentAt(r: seq<Slide>, idx: seq<nat>): real
    requires InRange(r, idx)
  {
    if idx == [] then 0.0 else ExtentAt(r, idx[..|idx| - 1]) + Extent(r[idx[|idx| - 1]])
  }

  /** When only the slides at `idx` take up space, the row takes up what they take up. */
  lemma {:induction false} SparseRowExtent(r: seq<Slide>, idx: seq<nat>, n: nat)
    requires n <= |r| && InRange(r, idx) && Increasing(idx)
    requires forall k :: 0 <= k < |idx| ==> idx[k] < n
    requires forall i :: 0 <= i < n && i !in idx ==> Extent(r[i]) == 0.0
    ensures RowExtent(r[..n]) == ExtentAt(r, idx)
  {
    if n > 0 {
      assert r[..n][..n - 1] == r[..n - 1];
      if |idx| > 0 && idx[|idx| - 1] == n - 1 {
        var init := idx[..|idx| - 1];
        assert idx == init + [n - 1];
        SparseRowExtent(r, init, n - 1);
      } else {
        forall k | 0 <= k < |idx|
          ensures idx[k] < n - 1
        {
          assert idx[k] <= idx[|idx| - 1];
        }
        SparseRowExtent(r, idx, n - 1);
      }
    }
  }

  /** Slides that each take up their image width and a gap `g` take up their widths and one gap apiece. */
  lemma {:induction false} ExtentWithGaps(s: seq<Slide>, r: seq<Slide>, f: seq<nat>, g: real, m: nat)
    requires |r| == |s| && InRange(s, f) && m <= |f|
    requires forall k :: 0 <= k < m ==> Extent(r[f[k]]) == s[f[k]].imgWidth as real + g
    ensures ExtentAt(r, f[..m]) == SumWidths(s, f[..m]) as real + m as real * g
  {
    if m > 0 {
      ExtentWithGaps(s, r, f, g, m - 1);
      assert f[..m][..m - 1] == f[..m - 1];
    }
  }

  /** Slides that each take up their image width and a gap `g`, but for the last one which takes up
      only its image width, take up their widths and one gap fewer than there are slides. */
  lemma ExtentWithGapsButLast(s: seq<Slide>, r: seq<Slide>, f: seq<nat>, g: real, n: nat)
    requires |r| == |s| && InRange(s, f) && |f| == n + 1
    requires forall k :: 0 <= k < n ==> Extent(r[f[k]]) == s[f[k]].imgWidth as real + g
    requires Extent(r[f[n]]) == s[f[n]].imgWidth as real
    ensures ExtentAt(r, f) == SumWidths(s, f) as real + n as real * g
  {
    ExtentWithGaps(s, r, f, g, n);
    assert f[..|f| - 1] == f[..n];
  }

  /** How much room each slide takes after `align`: nothing unless fitted, its image width and
      the gap when fitted and not last, and its image width alone when last. */
  lemma LaidExtent(s: seq<Slide>, ulWidth: nat, i: nat)
    requires i < |s|
    ensures var f := Fitted(s, ulWidth);
      Extent(Laid(s, ulWidth)[i]) ==
        if i !in f then 0.0
        else if i == f[|f| - 1] then s[i].imgWidth as real
        else s[i].imgWidth as real + FittedGap(s, ulWidth)
  {
  }

  /** Every fitted slide but the last takes up its image width and the gap. */
  lemma FittedButLastExtent(s: seq<Slide>, ulWidth: nat)
    ensures var f := Fitted(s, ulWidth);
      forall k :: 0 <= k < |f| - 1 ==>
        Extent(Laid(s, ulWidth)[f[k]]) == s[f[k]].imgWidth as real + FittedGap(s, ulWidth)
  {
    var f := Fitted(s, ulWidth);
    forall k | 0 <= k < |f| - 1
      ensures Extent(Laid(s, ulWidth)[f[k]]) == s[f[k]].imgWidth as real + FittedGap(s, ulWidth)
    {
      assert f[k] < f[|f| - 1];
      LaidExtent(s, ulWidth, f[k]);
    }
  }

  /** The fitted slides take up their image widths and one gap for every slide but the last. */
  lemma FittedExtent(s: seq<Slide>, ulWidth: nat)
    ensures var f := Fitted(s, ulWidth);
      ExtentAt(Laid(s, ulWidth), f) ==
        SumWidths(s, f) as real + (if |f| >= 2 then (|f| - 1) as real * FittedGap(s, ulWidth) else 0.0)
  {
    var f := Fitted(s, ulWidth);
    if |f| > 0 {
      var n := |f| - 1;
      FittedButLastExtent(s, ulWidth);
      LaidExtent(s, ulWidth, f[n]);
      ExtentWithGapsButLast(s, Laid(s, ulWidth), f, FittedGap(s, ulWidth), n);
    }
  }

  /** Only the fitted slides take up room after `align`. */
  lemma CollapsedOutsideFitted(s: seq<Slide>, ulWidth: nat)
    ensures forall i :: 0 <= i < |s| && i !in Fitted(s, ulWidth) ==> Extent(Laid(s, ulWidth)[i]) == 0.0
  {
    forall i | 0 <= i < |s| && i !in Fitted(s, ulWidth)
      ensures Extent(Laid(s, ulWidth)[i]) == 0.0
    {
      LaidExtent(s, ulWidth, i);
    }
  }

  /** A row in which only the slides at `idx` take up room is as wide as those slides. */
  lemma RowFromSparse(r: seq<Slide>, idx: seq<nat>)
    requires InRange(r, idx) && Increasing(idx)
    requires forall i :: 0 <= i < |r| && i !in idx ==> Extent(r[i]) == 0.0
    ensures RowExtent(r) == ExtentAt(r, idx)
  {
    assert r[..|r|] == r;
    SparseRowExtent(r, idx, |r|);
  }

  /** After `align` the row is as wide as its fitted slides. */
  lemma RowIsFitted(s: seq<Slide>, ulWidth: nat)
    ensures RowExtent(Laid(s, ulWidth)) == ExtentAt(Laid(s, ulWidth), Fitted(s, ulWidth))
  {
    CollapsedOutsideFitted(s, ulWidth);
    RowFromSparse(Laid(s, ulWidth), Fitted(s, ulWidth));
  }

  /** The row a fit pass lays out never overflows its container: when at least two slides are
      fitted, their widths and gaps fill the container exactly; otherwise the row is as wide as
      the fitted images. */
  lemma LaidFillsRow(s: seq<Slide>, ulWidth: nat)
    ensures var f := Fitted(s, ulWidth);
      RowExtent(Laid(s, ulWidth)) == (if |f| >= 2 then ulWidth as real else SumWidths(s, f) as real)
    ensures RowExtent(Laid(s, ulWidth)) <= ulWidth as real
  {
    RowIsFitted(s, ulWidth);
    FittedExtent(s, ulWidth);
    FittedGapShares(s, ulWidth);
  }

  /** The gaps between the fitted slides take up the container's spare width. */
  lemma FittedGapShares(s: seq<Slide>, ulWidth: nat)
    ensures var f := Fitted(s, ulWidth);
      |f| >= 2 ==> (|f| - 1) as real * FittedGap(s, ulWidth) == ulWidth as real - SumWidths(s, f) as real
  {
    var f := Fitted(s, ulWidth);
    if |f| >= 2 {
      assert FittedGap(s, ulWidth) == Gap(ulWidth, SumWidths(s, f), |f|);
    }
  }
}
