/** The entities of the rhythm slider: one slide per list item of the slider's `<ul>`. */
module Slides {

  datatype Option<T> = None | Some(value: T)

  /** One `<li>` of the slider.
      `key` tells list elements apart (a clone is a new element with a new key);
      `id` names the picture the element shows, and a clone keeps it;
      `imgWidth` is the rendered width of the element's image;
      `skip` is the class skip_me, `filtered` the class filtered, `lastOne` the class last_one;
      `width` and `margin` are the element's display width and margin-right. */
  datatype Slide = Slide(
    key: nat,
    id: nat,
    imgWidth: nat,
    skip: bool,
    width: nat,
    margin: real,
    filtered: bool,
    lastOne: bool)

  /** The slider capacity: at most this many slides are laid out at once. */
  const MaxSlidesVisible: nat := 6

  /** What each element of a list shows and what the fit pass reads of it: its picture, its image
      width and its skip_me mark, in list order. */
  function Content(s: seq<Slide>): seq<(nat, nat, bool)>
  {
    seq(|s|, i requires 0 <= i < |s| => (s[i].id, s[i].imgWidth, s[i].skip))
  }

  /** The element identities of a list of slides, in list order. */
  function Keys(s: seq<Slide>): seq<nat>
  {
    seq(|s|, i requires 0 <= i < |s| => s[i].key)
  }

  /** No two list elements are the same element. */
  predicate DistinctKeys(s: seq<Slide>)
  {
    forall i, j :: 0 <= i < j < |s| ==> s[i].key != s[j].key
  }

  /** Every element identity is below `bound`, so `bound` names a new element. */
  predicate KeysBelow(s: seq<Slide>, bound: nat)
  {
    forall i :: 0 <= i < |s| ==> s[i].key < bound
  }

  /** `idx` lists positions of `s`. */
  predicate InRange(s: seq<Slide>, idx: seq<nat>)
  {
    forall k :: 0 <= k < |idx| ==> idx[k] < |s|
  }

  /** `idx` is in strictly increasing order, that is, in list order without repeats. */
  predicate Increasing(idx: seq<nat>)
  {
    forall k, l :: 0 <= k < l < |idx| ==> idx[k] < idx[l]
  }
}
