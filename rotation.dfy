/** The rotation step of the slider. `prev` moves the head slide to the tail and `next` moves the
    tail slide to the head. Each clones the slide that moves, puts the clone at the other end with
    display width 0, and marks the original skip_me. The original leaves the list through the
    completion callback of its animation: for `prev` once the collapse completes, for `next`,
    whose animation has no properties, at once and before the list is aligned again. */
module Rotation {
  import opened Slides
  import opened Fit
  import opened Layout
  import opened Relayout

  /** The list right after `prev` changes it: the head, now marked skip_me, stays in place to
      collapse, and a clone of it with the new element identity `newKey` and display width 0 is
      appended. The clone is taken before the mark is set, so it keeps the head's own mark. */
  function PrevStaged(s: seq<Slide>, newKey: nat): seq<Slide>
    requires |s| > 0
  {
    s[0 := s[0].(skip := true)] + [s[0].(key := newKey, width := 0)]
  }

  /** The list right after `next` changes it: a clone of the last slide, with the new element
      identity `newKey` and display width 0, is prepended, and the original last slide is marked
      skip_me. */
  function NextStaged(s: seq<Slide>, newKey: nat): seq<Slide>
    requires |s| > 0
  {
    [s[|s| - 1].(key := newKey, width := 0)] + s[|s| - 1 := s[|s| - 1].(skip := true)]
  }

  /** The list once the element `key` has been removed from it. */
  function RemoveKey(s: seq<Slide>, key: nat): seq<Slide>
  {
    if s == [] then [] else (if s[0].key == key then [] else [s[0]]) + RemoveKey(s[1..], key)
  }

  /** Removing an element that is not in the list changes nothing. */
  lemma {:induction false} RemoveKeyAbsent(s: seq<Slide>, key: nat)
    requires forall i :: 0 <= i < |s| ==> s[i].key != key
    ensures RemoveKey(s, key) == s
  {
    if s != [] {
      RemoveKeyAbsent(s[1..], key);
    }
  }

  /** In a list of distinct elements, removing the element at position `r` takes out that position
      and nothing else. */
  lemma {:induction false} RemoveKeyAt(s: seq<Slide>, r: nat)
    requires DistinctKeys(s) && r < |s|
    ensures RemoveKey(s, s[r].key) == Without(s, r)
  {
    if r == 0 {
      RemoveKeyAbsent(s[1..], s[0].key);
    } else {
      RemoveKeyAt(s[1..], r - 1);
      assert s[1..][r - 1] == s[r];
      assert Without(s, r) == [s[0]] + Without(s[1..], r - 1);
    }
  }

  /** The list once a `prev` step has completed: staged, laid out, and the original head, still at
      the head, removed. */
  function PrevSettled(s: seq<Slide>, newKey: nat, ulWidth: nat): seq<Slide>
    requires |s| > 0
  {
    Without(Laid(PrevStaged(s, newKey), ulWidth), 0)
  }

  /** The list once a `next` step has completed, in the order the step runs: staged, the original
      tail removed by its identity, and laid out. `NextRemovesBeforeAlign` shows that laying out
      first and removing the tail second gives the same list. */
  function NextSettled(s: seq<Slide>, newKey: nat, ulWidth: nat): seq<Slide>
    requires |s| > 0
  {
    Laid(RemoveKey(NextStaged(s, newKey), s[|s| - 1].key), ulWidth)
  }

  /** The completion callback of a step: removing a skipped element from a laid-out list of
      distinct elements takes out exactly that element and leaves a list that is still laid out. */
  lemma RemoveSkippedFromLaid(p: seq<Slide>, r: nat, ulWidth: nat)
    requires DistinctKeys(p) && r < |p| && p[r].skip
    ensures var t := RemoveKey(Laid(p, ulWidth), p[r].key);
      t == Without(Laid(p, ulWidth), r) && Laid(t, ulWidth) == t && DistinctKeys(t) &&
      forall i :: 0 <= i < |t| ==>
        var j := if i < r then i else i + 1;
        t[i].key == p[j].key && t[i].id == p[j].id && t[i].imgWidth == p[j].imgWidth && t[i].skip == p[j].skip
  {
    var x := Laid(p, ulWidth);
    LaidDistinct(p, ulWidth);
    RemoveKeyAt(x, r);
    WithoutDistinct(x, r);
    LaidWithout(p, r, ulWidth);
    AlignIdempotent(Without(p, r), ulWidth);
  }

  /** An `align` pass keeps the elements apart. */
  lemma LaidDistinct(p: seq<Slide>, ulWidth: nat)
    requires DistinctKeys(p)
    ensures DistinctKeys(Laid(p, ulWidth))
  {
  }

  /** Taking one element out keeps the others apart. */
  lemma WithoutDistinct(x: seq<Slide>, r: nat)
    requires DistinctKeys(x) && r < |x|
    ensures DistinctKeys(Without(x, r))
  {
  }

  /** The tail's completion callback right after a `next` step is staged: the element it finds
      by its identity is the original tail, the last element of the staged list. */
  lemma NextRemovesTail(s: seq<Slide>, newKey: nat)
    requires |s| > 0 && DistinctKeys(s) && KeysBelow(s, newKey)
    ensures RemoveKey(NextStaged(s, newKey), s[|s| - 1].key) == Without(NextStaged(s, newKey), |s|)
  {
    var p := NextStaged(s, newKey);
    assert DistinctKeys(p);
    assert p[|s|].key == s[|s| - 1].key;
    RemoveKeyAt(p, |s|);
  }

  /** The tail's completion callback may run before or after the `align` pass of a `next` step:
      removing the tail and then laying out gives the list that laying out and then taking out
      the tail gives. */
  lemma NextRemovesBeforeAlign(s: seq<Slide>, newKey: nat, ulWidth: nat)
    requires |s| > 0 && DistinctKeys(s) && KeysBelow(s, newKey)
    ensures NextSettled(s, newKey, ulWidth) == Without(Laid(NextStaged(s, newKey), ulWidth), |s|)
  {
    NextRemovesTail(s, newKey);
    LaidWithout(NextStaged(s, newKey), |s|, ulWidth);
  }

  /** The completion callback on a laid-out list of distinct elements, whatever element it
      removes, as long as that element carries skip_me: what is left is still distinct and laid
      out, and every element left was there before. */
  lemma RemovalKeepsLayout(s: seq<Slide>, key: nat, ulWidth: nat)
    requires DistinctKeys(s) && Laid(s, ulWidth) == s
    requires forall i :: 0 <= i < |s| && s[i].key == key ==> s[i].skip
    ensures var t := RemoveKey(s, key);
      Laid(t, ulWidth) == t && DistinctKeys(t) && forall i :: 0 <= i < |t| ==> t[i] in s
  {
    if r :| 0 <= r < |s| && s[r].key == key {
      RemovalAt(s, r, ulWidth);
    } else {
      RemoveKeyAbsent(s, key);
    }
  }

  /** Removing the skipped element at `r` from a laid-out list of distinct elements. */
  lemma RemovalAt(s: seq<Slide>, r: nat, ulWidth: nat)
    requires DistinctKeys(s) && Laid(s, ulWidth) == s && r < |s| && s[r].skip
    ensures var t := RemoveKey(s, s[r].key);
      Laid(t, ulWidth) == t && DistinctKeys(t) && forall i :: 0 <= i < |t| ==> t[i] in s
  {
    RemoveKeyAt(s, r);
    WithoutDistinct(s, r);
    LaidWithout(s, r, ulWidth);
    var t := Without(s, r);
    forall i | 0 <= i < |t|
      ensures t[i] in s
    {
      assert t[i] == s[if i < r then i else i + 1];
    }
  }

  /** Two elements show the same picture and look the same to the fit pass. */
  predicate SamePicture(a: Slide, b: Slide)
  {
    a.id == b.id && a.imgWidth == b.imgWidth && a.skip == b.skip
  }

  /** Element by element, the list after a completed `prev` step: it is what the removal callback
      leaves, every element moves one place towards the head, the clone shows the old head's
      picture at the tail, the elements stay distinct, and the list is laid out as a new `align`
      pass would lay it out. */
  lemma PrevSettledElements(s: seq<Slide>, newKey: nat, ulWidth: nat)
    requires |s| > 0 && DistinctKeys(s) && KeysBelow(s, newKey)
    ensures var t := PrevSettled(s, newKey, ulWidth);
      t == RemoveKey(Laid(PrevStaged(s, newKey), ulWidth), s[0].key) &&
      |t| == |s| && DistinctKeys(t) && Laid(t, ulWidth) == t &&
      (forall i :: 0 <= i < |s| - 1 ==> t[i].key == s[i + 1].key && SamePicture(t[i], s[i + 1])) &&
      t[|s| - 1].key == newKey && SamePicture(t[|s| - 1], s[0])
  {
    var p := PrevStaged(s, newKey);
    assert DistinctKeys(p);
    RemoveSkippedFromLaid(p, 0, ulWidth);
  }

  /** Element by element, the list after a completed `next` step: the mirror of
      `PrevSettledElements`. */
  lemma NextSettledElements(s: seq<Slide>, newKey: nat, ulWidth: nat)
    requires |s| > 0 && DistinctKeys(s) && KeysBelow(s, newKey)
    ensures var t := NextSettled(s, newKey, ulWidth);
      t == RemoveKey(Laid(NextStaged(s, newKey), ulWidth), s[|s| - 1].key) &&
      |t| == |s| && DistinctKeys(t) && Laid(t, ulWidth) == t &&
      (forall i :: 1 <= i < |s| ==> t[i].key == s[i - 1].key && SamePicture(t[i], s[i - 1])) &&
      t[0].key == newKey && SamePicture(t[0], s[|s| - 1])
  {
    NextRemovesBeforeAlign(s, newKey, ulWidth);
    TailTakenFromLaid(s, newKey, ulWidth);
  }

  /** `NextSettledElements` for the list laid out first and then without its tail. */
  lemma TailTakenFromLaid(s: seq<Slide>, newKey: nat, ulWidth: nat)
    requires |s| > 0 && DistinctKeys(s) && KeysBelow(s, newKey)
    ensures var t := Without(Laid(NextStaged(s, newKey), ulWidth), |s|);
      t == RemoveKey(Laid(NextStaged(s, newKey), ulWidth), s[|s| - 1].key) &&
      |t| == |s| && DistinctKeys(t) && Laid(t, ulWidth) == t &&
      (forall i :: 1 <= i < |s| ==> t[i].key == s[i - 1].key && SamePicture(t[i], s[i - 1])) &&
      t[0].key == newKey && SamePicture(t[0], s[|s| - 1])
  {
    var p := NextStaged(s, newKey);
    assert DistinctKeys(p);
    RemoveSkippedFromLaid(p, |s|, ulWidth);
    var t := Without(Laid(p, ulWidth), |s|);
    forall i | 1 <= i < |s|
      ensures t[i].key == s[i - 1].key && SamePicture(t[i], s[i - 1])
    {
      assert p[i] == s[i - 1];
    }
  }

  /** A list whose elements are those of `s` moved one place towards the head, with the head's
      picture shown by the new element `newKey` at the tail, is `s` rotated by one. */
  lemma RotatedLeft(s: seq<Slide>, t: seq<Slide>, newKey: nat)
    requires |t| == |s| > 0 && KeysBelow(s, newKey)
    requires forall i :: 0 <= i < |s| - 1 ==> t[i].key == s[i + 1].key && SamePicture(t[i], s[i + 1])
    requires t[|s| - 1].key == newKey && SamePicture(t[|s| - 1], s[0])
    ensures Content(t) == Content(s)[1..] + [Content(s)[0]] && Keys(t) == Keys(s)[1..] + [newKey]
    ensures KeysBelow(t, newKey + 1)
  {
    assert Content(t) == Content(s)[1..] + [Content(s)[0]];
    assert Keys(t) == Keys(s)[1..] + [newKey];
  }

  /** The mirror of `RotatedLeft`: `s` rotated by one towards the tail. */
  lemma RotatedRight(s: seq<Slide>, t: seq<Slide>, newKey: nat)
    requires |t| == |s| > 0 && KeysBelow(s, newKey)
    requires forall i :: 1 <= i < |s| ==> t[i].key == s[i - 1].key && SamePicture(t[i], s[i - 1])
    requires t[0].key == newKey && SamePicture(t[0], s[|s| - 1])
    ensures var n := |s| - 1;
      Content(t) == [Content(s)[n]] + Content(s)[..n] && Keys(t) == [newKey] + Keys(s)[..n]
    ensures KeysBelow(t, newKey + 1)
  {
    var n := |s| - 1;
    assert Content(t) == [Content(s)[n]] + Content(s)[..n];
    assert Keys(t) == [newKey] + Keys(s)[..n];
  }

  /** A completed `prev` step moves the head picture to the tail: the pictures, with their image
      widths and marks, are rotated by one, the length is unchanged, the clone has taken the head's
      place at the tail, and the elements stay distinct. */
  lemma PrevSettledRotates(s: seq<Slide>, newKey: nat, ulWidth: nat)
    requires |s| > 0 && DistinctKeys(s) && KeysBelow(s, newKey)
    ensures var t := PrevSettled(s, newKey, ulWidth);
      |t| == |s| && Content(t) == Content(s)[1..] + [Content(s)[0]] && Keys(t) == Keys(s)[1..] + [newKey] &&
      DistinctKeys(t) && KeysBelow(t, newKey + 1)
  {
    PrevSettledElements(s, newKey, ulWidth);
    RotatedLeft(s, PrevSettled(s, newKey, ulWidth), newKey);
  }

  /** A completed `next` step moves the tail picture to the head, with the same guarantees. */
  lemma NextSettledRotates(s: seq<Slide>, newKey: nat, ulWidth: nat)
    requires |s| > 0 && DistinctKeys(s) && KeysBelow(s, newKey)
    ensures var t := NextSettled(s, newKey, ulWidth); var n := |s| - 1;
      |t| == |s| && Content(t) == [Content(s)[n]] + Content(s)[..n] && Keys(t) == [newKey] + Keys(s)[..n] &&
      DistinctKeys(t) && KeysBelow(t, newKey + 1)
  {
    NextSettledElements(s, newKey, ulWidth);
    RotatedRight(s, NextSettled(s, newKey, ulWidth), newKey);
  }

  /** Moving the head to the tail and then the tail to the head gives back the list. */
  lemma ToTailThenToHead<T>(x: seq<T>, y: seq<T>)
    requires |x| > 0 && y == x[1..] + [x[0]]
    ensures [y[|y| - 1]] + y[..|y| - 1] == x
  {
    assert y[..|y| - 1] == x[1..];
  }

  /** Moving the tail to the head and then the head to the tail gives back the list. */
  lemma ToHeadThenToTail<T>(x: seq<T>, y: seq<T>)
    requires |x| > 0 && y == [x[|x| - 1]] + x[..|x| - 1]
    ensures y[1..] + [y[0]] == x
  {
    assert y[1..] == x[..|x| - 1];
  }

  /** Rotating by one and then by `k - 1` is rotating by `k`. */
  lemma RotateOneMore<T>(x: seq<T>, y: seq<T>, k: nat)
    requires 0 < k <= |x| && y == x[1..] + [x[0]]
    ensures y[k - 1..] + y[..k - 1] == x[k..] + x[..k]
  {
    assert y[k - 1..] == x[k..] + [x[0]];
    assert y[..k - 1] == x[1..k];
    assert x[..k] == [x[0]] + x[1..k];
  }

  /** A completed `prev` followed by a completed `next` restores the order of the pictures. */
  lemma PrevThenNextRestoresOrder(s: seq<Slide>, newKey: nat, ulWidth: nat)
    requires |s| > 0 && DistinctKeys(s) && KeysBelow(s, newKey)
    ensures var t := PrevSettled(s, newKey, ulWidth);
      |t| > 0 && Content(NextSettled(t, newKey + 1, ulWidth)) == Content(s)
  {
    var x := Content(s);
    PrevSettledRotates(s, newKey, ulWidth);
    var t := PrevSettled(s, newKey, ulWidth);
    NextSettledRotates(t, newKey + 1, ulWidth);
    ToTailThenToHead(x, Content(t));
  }

  /** A completed `next` followed by a completed `prev` restores the order of the pictures. */
  lemma NextThenPrevRestoresOrder(s: seq<Slide>, newKey: nat, ulWidth: nat)
    requires |s| > 0 && DistinctKeys(s) && KeysBelow(s, newKey)
    ensures var t := NextSettled(s, newKey, ulWidth);
      |t| > 0 && Content(PrevSettled(t, newKey + 1, ulWidth)) == Content(s)
  {
    var x := Content(s);
    NextSettledRotates(s, newKey, ulWidth);
    var t := NextSettled(s, newKey, ulWidth);
    PrevSettledRotates(t, newKey + 1, ulWidth);
    ToHeadThenToTail(x, Content(t));
  }

  /** `k` rounds of `step`, round `i` (counting from 0) creating the element `newKey + i`. */
  function Rounds(step: (seq<Slide>, nat) -> seq<Slide>, s: seq<Slide>, newKey: nat, k: nat): seq<Slide>
    decreases k
  {
    if k == 0 then s else Rounds(step, step(s, newKey), newKey + 1, k - 1)
  }

  /** `step` moves the head of a non-empty list of distinct elements to the tail, keeping the
      length, the distinct elements, and the new element below `key + 1`. */
  ghost predicate RotatesByOne(step: (seq<Slide>, nat) -> seq<Slide>)
  {
    forall x: seq<Slide>, key: nat :: |x| > 0 && DistinctKeys(x) && KeysBelow(x, key) ==>
      |step(x, key)| == |x| && DistinctKeys(step(x, key)) && KeysBelow(step(x, key), key + 1) &&
      Content(step(x, key)) == Content(x)[1..] + [Content(x)[0]]
  }

  /** Rounds of a step that rotates by one rotate by their number. */
  lemma {:induction false} RoundsRotate(step: (seq<Slide>, nat) -> seq<Slide>, s: seq<Slide>, newKey: nat, k: nat)
    requires RotatesByOne(step)
    requires |s| > 0 && DistinctKeys(s) && KeysBelow(s, newKey) && k <= |s|
    ensures Content(Rounds(step, s, newKey, k)) == Content(s)[k..] + Content(s)[..k]
    decreases k
  {
    var x := Content(s);
    if k == 0 {
      assert x[k..] + x[..k] == x;
    } else {
      var t := step(s, newKey);
      RoundsRotate(step, t, newKey + 1, k - 1);
      RotateOneMore(x, Content(t), k);
    }
  }

  /** One completed `prev` step, as a step function; on an empty list it changes nothing. */
  function PrevStep(ulWidth: nat): (seq<Slide>, nat) -> seq<Slide>
  {
    (x: seq<Slide>, key: nat) => if |x| > 0 then PrevSettled(x, key, ulWidth) else x
  }

  /** `PrevStep` at one list: a completed `prev` step on a non-empty list. */
  lemma PrevStepAt(ulWidth: nat, x: seq<Slide>, key: nat)
    requires |x| > 0 && DistinctKeys(x) && KeysBelow(x, key)
    ensures var y := PrevStep(ulWidth)(x, key);
      |y| == |x| && DistinctKeys(y) && KeysBelow(y, key + 1) && Content(y) == Content(x)[1..] + [Content(x)[0]]
  {
    assert PrevStep(ulWidth)(x, key) == PrevSettled(x, key, ulWidth);
    PrevSettledRotates(x, key, ulWidth);
  }

  /** A completed `prev` step rotates by one. */
  lemma PrevStepRotates(ulWidth: nat)
    ensures RotatesByOne(PrevStep(ulWidth))
  {
    forall x: seq<Slide>, key: nat | |x| > 0 && DistinctKeys(x) && KeysBelow(x, key)
      ensures |PrevStep(ulWidth)(x, key)| == |x| && DistinctKeys(PrevStep(ulWidth)(x, key)) &&
        KeysBelow(PrevStep(ulWidth)(x, key), key + 1) &&
        Content(PrevStep(ulWidth)(x, key)) == Content(x)[1..] + [Content(x)[0]]
    {
      PrevStepAt(ulWidth, x, key);
    }
  }

  /** The list after `k` completed `prev` steps, the first one creating element `newKey`, the
      next one `newKey + 1`, and so on. */
  function PrevRounds(s: seq<Slide>, newKey: nat, ulWidth: nat, k: nat): seq<Slide>
  {
    Rounds(PrevStep(ulWidth), s, newKey, k)
  }

  /** After `k` completed `prev` steps the pictures, with their widths and marks, are rotated by `k`. */
  lemma PrevRoundsRotate(s: seq<Slide>, newKey: nat, ulWidth: nat, k: nat)
    requires |s| > 0 && DistinctKeys(s) && KeysBelow(s, newKey) && k <= |s|
    ensures Content(PrevRounds(s, newKey, ulWidth, k)) == Content(s)[k..] + Content(s)[..k]
  {
    PrevStepRotates(ulWidth);
    RoundsRotate(PrevStep(ulWidth), s, newKey, k);
  }

  /** As many completed `prev` steps as there are slides bring every picture back to its place
      ("state 7 == state 1"). */
  lemma FullCycleRestoresOrder(s: seq<Slide>, newKey: nat, ulWidth: nat)
    requires |s| > 0 && DistinctKeys(s) && KeysBelow(s, newKey)
    ensures Content(PrevRounds(s, newKey, ulWidth, |s|)) == Content(s)
  {
    PrevRoundsRotate(s, newKey, ulWidth, |s|);
    assert Content(s)[|s|..] + Content(s)[..|s|] == Content(s);
  }

  /** A second `prev` step before the first one's removal callback picks the head that is still
      collapsing: its clone inherits skip_me, so right after the head is removed the list is one
      element longer than before and ends with a skip_me copy of the old head that is not fitted. */
  lemma DoublePrevLeavesHiddenClone(s: seq<Slide>, newKey: nat, ulWidth: nat)
    requires |s| > 0 && DistinctKeys(s) && KeysBelow(s, newKey)
    ensures var p := Laid(PrevStaged(s, newKey), ulWidth);
      var t := RemoveKey(Laid(PrevStaged(p, newKey + 1), ulWidth), s[0].key);
      |t| == |s| + 1 && t[|s|].key == newKey + 1 && t[|s|].id == s[0].id && t[|s|].skip &&
      !t[|s|].filtered && t[|s|].width == 0 && Laid(t, ulWidth) == t
  {
    var p := Laid(PrevStaged(s, newKey), ulWidth);
    assert DistinctKeys(PrevStaged(s, newKey));
    var q := PrevStaged(p, newKey + 1);
    assert DistinctKeys(q);
    RemoveSkippedFromLaid(q, 0, ulWidth);
    var t := RemoveKey(Laid(q, ulWidth), s[0].key);
    LaidMarksBoundary(t, ulWidth);
  }
}
