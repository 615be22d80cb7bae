/** The worked examples of the header comment of `jquery.rhythm.js`, replayed on the model. */
module WorkedExamples {
  import opened Slides
  import opened Fit
  import opened Layout
  import opened Relayout
  import opened Rotation

  /** `n` pictures numbered 1 to `n`, each `w` wide, none of them marked. */
  function Pictures(n: nat, w: nat): seq<Slide>
  {
    seq(n, i requires 0 <= i < n => Slide(i, i + 1, w, false, 0, 0.0, false, false))
  }

  /** Slides that are all `w` wide are `w` wide apiece. */
  lemma {:induction false} SumUniform(s: seq<Slide>, idx: seq<nat>, w: nat)
    requires InRange(s, idx) && forall k :: 0 <= k < |idx| ==> s[idx[k]].imgWidth == w
    ensures SumWidths(s, idx) == |idx| * w
  {
    if idx != [] {
      SumUniform(s, idx[..|idx| - 1], w);
    }
  }

  /** The pictures of a list of slides, in list order. */
  function Ids(s: seq<Slide>): seq<nat>
  {
    seq(|s|, i requires 0 <= i < |s| => s[i].id)
  }

  /** The pictures of the fitted slides, in list order. */
  function VisibleIds(s: seq<Slide>, ulWidth: nat): seq<nat>
  {
    var f := Fitted(s, ulWidth);
    seq(|f|, k requires 0 <= k < |f| => s[f[k]].id)
  }

  /** Six unmarked slides 100 wide in a container 400 wide: the first four fit. */
  lemma SixUniformFitted(s: seq<Slide>)
    requires |s| == 6 && forall i :: 0 <= i < 6 ==> !s[i].skip && s[i].imgWidth == 100
    ensures Fitted(s, 400) == [0, 1, 2, 3]
  {
    assert Candidates(s, 1) == [0];
    assert Candidates(s, 2) == [0, 1];
    assert Candidates(s, 3) == [0, 1, 2];
    assert Candidates(s, 4) == [0, 1, 2, 3];
    assert Candidates(s, 5) == [0, 1, 2, 3, 4];
    assert Candidates(s, 6) == [0, 1, 2, 3, 4, 5];
    UniformStop(s, 400, 100, 4);
  }

  /** Six pictures 100 wide in a container 400 wide: the capacity is 4 and
      state 1 is [1 2 3 4] 5 6. */
  lemma SixSlidesStateOne()
    ensures Fitted(Pictures(6, 100), 400) == [0, 1, 2, 3]
    ensures VisibleIds(Pictures(6, 100), 400) == [1, 2, 3, 4]
    ensures FittedGap(Pictures(6, 100), 400) == 0.0
  {
    var s := Pictures(6, 100);
    SixUniformFitted(s);
    assert SumWidths(s, [0, 1, 2, 3]) == 400 by {
      SumUniform(s, [0, 1, 2, 3], 100);
    }
    assert FittedGap(s, 400) == Gap(400, 400, 4);
  }

  /** The same slider after one completed `prev` step: state 2 is [2 3 4 5] 6 1. */
  lemma SixSlidesStateTwo()
    ensures VisibleIds(PrevSettled(Pictures(6, 100), 6, 400), 400) == [2, 3, 4, 5]
  {
    var s := Pictures(6, 100);
    var t := PrevSettled(s, 6, 400);
    assert Content(t) == Content(s)[1..] + [Content(s)[0]] by {
      PrevSettledRotates(s, 6, 400);
    }
    SixRotatedByOne(s, t);
    SixRotatedVisible(t);
  }

  /** Six unmarked pictures 100 wide showing [2 3 4 5 6 1] in a container 400 wide show [2 3 4 5]. */
  lemma SixRotatedVisible(t: seq<Slide>)
    requires |t| == 6
    requires forall i :: 0 <= i < 6 ==> !t[i].skip && t[i].imgWidth == 100 && t[i].id == (if i < 5 then i + 2 else 1)
    ensures VisibleIds(t, 400) == [2, 3, 4, 5]
  {
    SixUniformFitted(t);
  }

  /** A list whose content is that of six pictures 100 wide, rotated by one: [2 3 4 5 6 1]. */
  lemma SixRotatedByOne(s: seq<Slide>, t: seq<Slide>)
    requires s == Pictures(6, 100) && Content(t) == Content(s)[1..] + [Content(s)[0]]
    ensures |t| == 6
    ensures forall i :: 0 <= i < 6 ==> !t[i].skip && t[i].imgWidth == 100 && t[i].id == (if i < 5 then i + 2 else 1)
  {
    var x := Content(s);
    assert |Content(t)| == 6;
    forall i | 0 <= i < 6
      ensures !t[i].skip && t[i].imgWidth == 100 && t[i].id == (if i < 5 then i + 2 else 1)
    {
      assert Content(t)[i] == (t[i].id, t[i].imgWidth, t[i].skip);
      assert Content(t)[i] == x[if i < 5 then i + 1 else 0];
    }
  }

  /** Picture `id`, 100 wide, as element `key`, not yet laid out. */
  function Pic(key: nat, id: nat, skip: bool): Slide
  {
    Slide(key, id, 100, skip, 0, 0.0, false, false)
  }

  /** [1 2 3] right after a `prev` step: the head collapsing, its clone at the tail. */
  function StagedThreeList(): seq<Slide>
  {
    [Pic(0, 1, true), Pic(1, 2, false), Pic(2, 3, false), Pic(3, 1, false)]
  }

  /** [1 2 3] 4 right after a `prev` step. */
  function StagedFourList(): seq<Slide>
  {
    [Pic(0, 1, true), Pic(1, 2, false), Pic(2, 3, false), Pic(3, 4, false), Pic(4, 1, false)]
  }

  /** `prev` on [1 2 3] stages [1 2 3 1], the head marked skip_me. */
  lemma StagedThree()
    ensures PrevStaged(Pictures(3, 100), 3) == StagedThreeList()
  {
    assert Pictures(3, 100) == [Pic(0, 1, false), Pic(1, 2, false), Pic(2, 3, false)];
  }

  /** `prev` on [1 2 3 4] stages [1 2 3 4 1], the head marked skip_me. */
  lemma StagedFour()
    ensures PrevStaged(Pictures(4, 100), 4) == StagedFourList()
  {
    assert Pictures(4, 100) == [Pic(0, 1, false), Pic(1, 2, false), Pic(2, 3, false), Pic(3, 4, false)];
  }

  /** All three remaining pictures fit next to each other; the collapsing head does not count. */
  lemma FittedStagedThree()
    ensures Fitted(StagedThreeList(), 300) == [1, 2, 3]
  {
    var q := StagedThreeList();
    assert Candidates(q, 1) == [];
    assert Candidates(q, 2) == [1];
    assert Candidates(q, 3) == [1, 2];
    assert Candidates(q, 4) == [1, 2, 3];
    UniformStop(q, 300, 100, 3);
  }

  /** Only three of the four remaining pictures fit; the clone, last in the list, does not. */
  lemma FittedStagedFour()
    ensures Fitted(StagedFourList(), 300) == [1, 2, 3]
  {
    var q := StagedFourList();
    assert Candidates(q, 1) == [];
    assert Candidates(q, 2) == [1];
    assert Candidates(q, 3) == [1, 2];
    assert Candidates(q, 4) == [1, 2, 3];
    assert Candidates(q, 5) == [1, 2, 3, 4];
    UniformStop(q, 300, 100, 3);
  }

  /** When every non-skipped slide is `w` wide, the fit pass takes the first `m` of them as soon as
      `m` fit and either no more are left, one more would overflow or the capacity is reached. */
  lemma UniformStop(s: seq<Slide>, ulWidth: nat, w: nat, m: nat)
    requires var c := Candidates(s, |s|);
      (forall k :: 0 <= k < |c| ==> s[c[k]].imgWidth == w) && m <= |c| && m <= MaxSlidesVisible &&
      m * w <= ulWidth && (m == |c| || m * w + w > ulWidth || m == MaxSlidesVisible)
    ensures Fitted(s, ulWidth) == Candidates(s, |s|)[..m]
  {
    var c := Candidates(s, |s|);
    assert Fits(s, c[..m], ulWidth) by {
      SumUniform(s, c[..m], w);
    }
    if m < |c| && m < MaxSlidesVisible {
      assert !Fits(s, c[..m + 1], ulWidth) by {
        SumUniform(s, c[..m + 1], w);
        assert (m + 1) * w == m * w + w;
      }
    }
    FittedAtStop(s, ulWidth, m);
  }

  /** When the capacity equals the number of slides, a `prev` step duplicates the head for the
      time of the animation: [1 2 3] becomes [1 2 3 1], the left 1 collapsing and the right 1
      already shown, so the visible pictures are [2 3 1]. */
  lemma ThreeSlidesDuplicated()
    ensures var p := Laid(PrevStaged(Pictures(3, 100), 3), 300);
      Ids(p) == [1, 2, 3, 1] && VisibleIds(p, 300) == [2, 3, 1]
  {
    StagedThree();
    var q := StagedThreeList();
    LaidShowsSame(q, 300);
    FittedStagedThree();
    assert Ids(q) == [1, 2, 3, 1];
    assert VisibleIds(q, 300) == [2, 3, 1];
  }

  /** With one slide more than fits, the duplicate stays hidden: [1 2 3] 4 becomes
      [1 2 3] 4 (1) while 1 collapses, showing [2 3 4] with the clone of 1 not fitted. */
  lemma FourSlidesCloneHidden()
    ensures var p := Laid(PrevStaged(Pictures(4, 100), 4), 300);
      Ids(p) == [1, 2, 3, 4, 1] && VisibleIds(p, 300) == [2, 3, 4] && !p[4].filtered
  {
    StagedFour();
    var q := StagedFourList();
    LaidShowsSame(q, 300);
    FittedStagedFour();
    assert Ids(q) == [1, 2, 3, 4, 1];
    assert VisibleIds(q, 300) == [2, 3, 4];
    assert 4 !in Fitted(q, 300);
  }

  /** `align` changes neither the pictures in the list nor which of them are shown. */
  lemma LaidShowsSame(q: seq<Slide>, ulWidth: nat)
    ensures Ids(Laid(q, ulWidth)) == Ids(q)
    ensures VisibleIds(Laid(q, ulWidth), ulWidth) == VisibleIds(q, ulWidth)
  {
    FittedSameFit(Laid(q, ulWidth), q, ulWidth);
  }

  /** Three pictures 90 wide in a container 300 wide: all fit, and the 30 units left over are
      shared by the two gaps, 15 each. */
  lemma ThreeSlidesEvenGap()
    ensures Fitted(Pictures(3, 90), 300) == [0, 1, 2]
    ensures FittedGap(Pictures(3, 90), 300) == 15.0
  {
    var s := Pictures(3, 90);
    assert Candidates(s, 1) == [0];
    assert Candidates(s, 2) == [0, 1];
    assert Candidates(s, 3) == [0, 1, 2];
    UniformStop(s, 300, 90, 3);
    SumUniform(s, [0, 1, 2], 90);
  }
}
