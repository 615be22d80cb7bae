/** The slider object: one per container, owning the container's list of slides. */
module RhythmSlider {
  import opened Slides
  import opened Fit
  import opened Layout
  import opened Relayout
  import opened Rotation

  /** The list a slider starts from: one element per picture, in page order, none of them marked. */
  function Initial(images: seq<nat>): seq<Slide>
  {
    seq(|images|, i requires 0 <= i < |images| => Slide(i, i, images[i], false, 0, 0.0, false, false))
  }

  /** The elements of `s` are distinct and older than `nextKey`, and every element awaiting removal
      (in `pending`) carries skip_me. */
  predicate Bookkept(s: seq<Slide>, nextKey: nat, pending: multiset<nat>)
  {
    DistinctKeys(s) && KeysBelow(s, nextKey) &&
    (forall k :: k in pending ==> k < nextKey) &&
    (forall i :: 0 <= i < |s| && s[i].key in pending ==> s[i].skip)
  }

  /** An `align` pass touches neither the elements nor their marks. */
  lemma LaidKeepsBookkeeping(s: seq<Slide>, ulWidth: nat, nextKey: nat, pending: multiset<nat>)
    requires Bookkept(s, nextKey, pending)
    ensures Bookkept(Laid(s, ulWidth), nextKey, pending)
  {
  }

  /** Staging a `prev` step creates the element `nextKey` and schedules the head, which it has
      just marked skip_me, for removal. */
  lemma PrevStagedBookkept(s: seq<Slide>, nextKey: nat, pending: multiset<nat>)
    requires |s| > 0 && Bookkept(s, nextKey, pending)
    ensures Bookkept(PrevStaged(s, nextKey), nextKey + 1, pending + multiset{s[0].key})
  {
  }

  /** A `next` step creates the element `nextKey` and removes the tail it has just marked
      skip_me, so nothing new awaits removal. */
  lemma NextRemovedBookkept(s: seq<Slide>, nextKey: nat, pending: multiset<nat>)
    requires |s| > 0 && Bookkept(s, nextKey, pending)
    ensures Bookkept(RemoveKey(NextStaged(s, nextKey), s[|s| - 1].key), nextKey + 1, pending)
  {
    var p := NextStaged(s, nextKey);
    assert Bookkept(p, nextKey + 1, pending + multiset{s[|s| - 1].key});
    NextRemovesTail(s, nextKey);
    WithoutDistinct(p, |s|);
  }

  /** One turn of the fit loop at a slide without skip_me: taking it adds its image width, and
      when it overflows the container or the capacity is reached, the slides taken so far are
      exactly the fitted ones. */
  lemma FilterStep(s: seq<Slide>, ulWidth: nat, i: nat)
    requires i < |s| && !s[i].skip && Fits(s, Candidates(s, i), ulWidth)
    ensures Candidates(s, i + 1) == Candidates(s, i) + [i]
    ensures SumWidths(s, Candidates(s, i) + [i]) == SumWidths(s, Candidates(s, i)) + s[i].imgWidth
    ensures SumWidths(s, Candidates(s, i)) + s[i].imgWidth > ulWidth
              || |Candidates(s, i)| == MaxSlidesVisible
            ==> Candidates(s, i) == Fitted(s, ulWidth)
  {
    var e := Candidates(s, i);
    assert (e + [i])[..|e|] == e;
    if SumWidths(s, e) + s[i].imgWidth > ulWidth || |e| == MaxSlidesVisible {
      FittedAtBreak(s, ulWidth, i);
    }
  }

  class Rhythm {
    /** Width of the container's `<ul>`. */
    const ulWidth: nat
    /** The `<li>` children of the `<ul>`, in document order. */
    var slides: seq<Slide>
    /** Identity the next cloned element receives. */
    var nextKey: nat
    /** Elements whose removal has been scheduled by a `prev` step and has not happened yet, one
        entry per scheduled completion callback. */
    var pending: multiset<nat>

    /** The elements are distinct and older than `nextKey`, and every element awaiting removal
        carries skip_me. */
    ghost predicate Consistent()
      reads this
    {
      Bookkept(slides, nextKey, pending)
    }

    /** Between steps the list is also laid out: every slide shows what an `align` pass gives it. */
    ghost predicate Valid()
      reads this
    {
      Consistent() && Laid(slides, ulWidth) == slides
    }

    /** A slider over the pictures `images` (their image widths, in page order), laid out once. */
    constructor (ulWidth: nat, images: seq<nat>)
      ensures Valid() && this.ulWidth == ulWidth
      ensures slides == Laid(Initial(images), ulWidth) && Content(slides) == Content(Initial(images))
      ensures nextKey == |images| && pending == multiset{}
    {
      this.ulWidth := ulWidth;
      slides := Initial(images);
      nextKey := |images|;
      pending := multiset{};
      new;
      Align();
    }

    /** One fit pass: walks the list, passes over skip_me slides, and collects slides while their
        image widths fit into the container and the capacity is not reached, stopping at the first
        slide that does not fit. Returns the collected positions, their width and their number. */
    method Filter() returns (elements: seq<nat>, width: nat, count: nat)
      ensures elements == Fitted(slides, ulWidth)
      ensures width == SumWidths(slides, elements) && count == |elements|
    {
      var s, ul := slides, ulWidth;
      elements, width, count := [], 0, 0;
      var i := 0;
      while i < |s|
        invariant i <= |s|
        invariant elements == Candidates(s, i)
        invariant Fits(s, elements, ul)
        invariant width == SumWidths(s, elements) && count == |elements|
      {
        var li := s[i];
        if li.skip {
          i := i + 1;
          continue;
        }
        FilterStep(s, ul, i);
        if width + li.imgWidth > ul || count == MaxSlidesVisible {
          break;
        }
        width := width + li.imgWidth;
        count := count + 1;
        elements := elements + [i];
        i := i + 1;
      }
      if i == |s| {
        FittedWhenAllFit(s, ul);
      }
    }

    /** One `align` pass: the fitted slides, but for the last, get their image width and the even
        gap as right margin; the last fitted slide gets its image width, no margin and last_one;
        every other slide is collapsed to width 0 and margin 0 and loses filtered and last_one. */
    method Align()
      requires Consistent()
      modifies this
      ensures Valid()
      ensures slides == Laid(old(slides), ulWidth)
      ensures nextKey == old(nextKey) && pending == old(pending)
    {
      var elements, width, count := Filter();
      var marginRight := 0.0;
      if count >= 2 {
        marginRight := Gap(ulWidth, width, count);
      }
      var s := slides;
      ghost var target := Laid(s, ulWidth);
      assert marginRight == FittedGap(s, ulWidth);
      var laid: seq<Slide> := [];
      var i := 0;
      while i < |s|
        invariant i <= |s|
        invariant laid == target[..i]
        modifies {}
      {
        LaidPrefix(s, ulWidth, i);
        var li := s[i];
        if i !in elements {
          li := li.(width := 0, margin := 0.0, filtered := false, lastOne := false);
        } else if i == elements[count - 1] {
          li := li.(width := li.imgWidth, margin := 0.0, filtered := true, lastOne := true);
        } else {
          li := li.(width := li.imgWidth, margin := marginRight, filtered := true, lastOne := false);
        }
        laid := laid + [li];
        i := i + 1;
      }
      assert laid == target;
      AlignIdempotent(s, ulWidth);
      LaidKeepsBookkeeping(s, ulWidth, nextKey, pending);
      slides := laid;
    }

    /** The step behind the "previous" button: the head slide is cloned, the clone is appended with
        display width 0, the head is marked skip_me and scheduled for removal, and the slider is
        aligned again. Returns the element whose removal was scheduled; on an empty list there is
        none and only the alignment happens. */
    method Prev() returns (removal: Option<nat>)
      requires Valid()
      modifies this
      ensures Valid()
      ensures old(slides) == [] ==>
        removal == None && slides == [] && nextKey == old(nextKey) && pending == old(pending)
      ensures old(slides) != [] ==>
        removal == Some(old(slides)[0].key) &&
        slides == Laid(PrevStaged(old(slides), old(nextKey)), ulWidth) &&
        nextKey == old(nextKey) + 1 && pending == old(pending) + multiset{old(slides)[0].key}
    {
      removal := None;
      var s, key := slides, nextKey;
      if |s| > 0 {
        var li := s[0];
        var copy := li.(key := key);
        var staged := s[0 := li.(skip := true)];
        staged := staged + [copy.(width := 0)];
        assert staged == PrevStaged(s, key);
        PrevStagedBookkept(s, key, pending);
        slides, nextKey, pending := staged, key + 1, pending + multiset{li.key};
        removal := Some(li.key);
      }
      Align();
    }

    /** The step behind the "next" button: the last slide is cloned, the clone is prepended with
        display width 0, and the last slide is marked skip_me. Its animation has no properties, so
        its completion callback runs at once and removes it before the slider is aligned again;
        nothing is left awaiting removal. On an empty list only the alignment happens. */
    method Next()
      requires Valid()
      modifies this
      ensures Valid()
      ensures old(slides) == [] ==> slides == [] && nextKey == old(nextKey)
      ensures old(slides) != [] ==>
        slides == NextSettled(old(slides), old(nextKey), ulWidth) && nextKey == old(nextKey) + 1
      ensures pending == old(pending)
    {
      var s, key := slides, nextKey;
      if |s| > 0 {
        var n := |s| - 1;
        var li := s[n];
        var copy := li.(key := key);
        var staged := s[n := li.(skip := true)];
        staged := [copy.(width := 0)] + staged;
        assert staged == NextStaged(s, key);
        staged := RemoveKey(staged, li.key);
        NextRemovedBookkept(s, key, pending);
        slides, nextKey := staged, key + 1;
      }
      Align();
    }

    /** The completion callback of the collapse animation of a `prev` step: the element `key`
        leaves the list. No new alignment is needed, and none happens. */
    method FinishRemoval(key: nat)
      requires Valid() && key in pending
      modifies this
      ensures Valid()
      ensures slides == RemoveKey(old(slides), key)
      ensures pending == old(pending) - multiset{key} && nextKey == old(nextKey)
    {
      var t := RemoveKey(slides, key);
      RemovalKeepsLayout(slides, key, ulWidth);
      forall k | k in pending - multiset{key}
        ensures k in pending
      {
      }
      forall i | 0 <= i < |t|
        ensures t[i].key < nextKey && (t[i].key in pending - multiset{key} ==> t[i].skip)
      {
        assert t[i] in slides;
      }
      slides := t;
      pending := pending - multiset{key};
    }
  }
}
