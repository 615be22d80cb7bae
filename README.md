# Rhythm slider, modelled in Dafny

The rhythm slider is a jQuery plugin. It shows a row of pictures inside a container `<ul>` and
turns the row like a circular buffer: there is no scrolling. A step clones the slide at one end,
puts the clone at the other end, and removes the original: `prev` once the original has
collapsed, `next` at once.

The model has two parts.

- **The fit pass** (`_filter` and `align`). It walks the list in order and passes over slides
  marked `skip_me`. It takes slides while their image widths still fit into the container and
  fewer than `MAX_SLIDES_VISIBLE` (6) have been taken, and stops at the first one that does not.
  When at least two slides are taken, they are spread evenly over the container; a single taken
  slide keeps its image width and no margin. The last of them carries the boundary
  mark `last_one`, and every other slide collapses to width 0.
- **The rotation step** (`prev` and `next`).
  - `prev` clones the head slide, appends the clone with display width 0, marks the head
    `skip_me`, and aligns again.
  - `next` is the mirror: it clones the tail and prepends the clone.
  - `prev` removes the original head later, when its collapse animation completes.
  - The animation in `next` has no properties, so jQuery runs its completion callback at once:
    the original tail is removed before the new `align` pass.

Modules:

- `Slides` (`slides.dfy`): the slide record, the capacity constant, and basic predicates.
  - A slide has an element identity `key`, a picture `id` (which a clone shares), the image
    width, the three classes, and the display width and margin.
- `Fit` (`fit.dfy`): the fit pass as a specification function.
  - `Fitted` is the longest run of non-skipped slides from the head that fits. It is defined
    independently of the loop.
  - The lemmas show that stopping at the first overflow, as the loop does, yields exactly that run.
- `Layout` (`layout.dfy`): `Laid`, the display state one `align` pass gives every slide.
  - The lemmas cover its three cases and the boundary mark. When at least two slides are fitted,
    the row fills the container exactly; otherwise it is as wide as the fitted images.
- `Relayout` (`relayout.dfy`): two ways a layout stays valid without another `align` pass.
  - Aligning twice is aligning once.
  - Removing a skipped slide from a laid-out list leaves what a new pass would produce.
- `Rotation` (`rotation.dfy`): the list after a step and after its removal callback.
  - For `prev`, the settled list is defined by taking the original out of the laid-out staged
    list. It is proved equal to what the removal callback leaves, which removes the element by
    identity.
  - For `next`, the settled list is defined in the order the step runs: the tail is removed by
    identity and the rest is laid out. It is proved equal to laying out first and removing second.
  - After a step and its removal, the pictures are rotated by one.
  - `prev` then `next` (and `next` then `prev`) restores the order.
  - As many `prev` steps as there are slides bring the row back to its start.
- `RhythmSlider` (`rhythm.dfy`): the slider object as a class with its slide list as a field.
  - `Filter` and `Align` are loops proved against `Fitted` and `Laid`.
  - `Prev` and `Next` are the steps. `FinishRemoval` is the removal callback of `prev`; `Next`
    performs its own removal.
  - Each keeps the invariant `Valid()`: the keys are distinct, every element waiting for
    removal carries `skip_me`, and the list is laid out as a new `align` pass would lay it out.
- `WorkedExamples` (`examples.dfy`): the worked examples of the header comment of `jquery.rhythm.js`, computed on the model.

The page is not modelled directly. The container width and the image widths are parameters: the
constructor receives them as `ulWidth` and `images`. The animation completion callback is the
separate method `FinishRemoval`, and `Prev` returns the key it must later be called with.

`align` computes `margin_right = (ul_width - width) / (count - 1)` even when
`count` is 0 or 1 (line 171), where it is infinite, not a number, or negative. Such a value is
never applied to a slide, because only fitted slides other than the last receive the margin, and
they exist only when `count >= 2`. So `Layout.Gap` requires `count >= 2`, while
`RhythmSlider.Rhythm.Align` has no precondition on the count and computes the gap only when
`count >= 2`.

When a `prev` comes before the removal callback of an earlier `prev`, it clones the slide that is
still collapsing. That clone keeps `skip_me`. `Rotation.DoublePrevLeavesHiddenClone` shows that,
right after the old head's removal, the list is one element longer than before and ends with an
extra copy of the old head that carries `skip_me`, has width 0 and is not fitted.

## Model

| member | source | states |
|---|---|---|
| Fit.Candidates | jquery.rhythm.js:146-150 | the positions the fit pass considers are in list order, below the bound, and never carry skip_me |
| Fit.Longest | jquery.rhythm.js:146-158 | the length returned is the longest prefix of the candidates that fits: that prefix fits, and no longer prefix up to the bound fits |
| Fit.Fitted | jquery.rhythm.js:139-164 | the fitted slides are positions of the list, in list order, never skip_me, at most 6 of them, and their image widths sum to at most the container width |
| Fit.SumWidthsMonotone | jquery.rhythm.js:151-155 | taking more slides never makes the taken width smaller |
| Fit.GreedyStopIsLongest | jquery.rhythm.js:152-153 | a fitting prefix that cannot be extended by one more candidate is the longest fitting prefix, because widths are never negative |
| Fit.FittedAtBreak | jquery.rhythm.js:152-153 | where the loop returns false at slide i, the non-skipped slides before i are exactly the fitted slides |
| Fit.FittedWhenAllFit | jquery.rhythm.js:146-158 | when the loop runs to the end, every non-skipped slide is fitted |
| Fit.FittedAtStop | jquery.rhythm.js:152-157 | the first m non-skipped slides are the fitted ones when they fit and one more would not |
| Fit.FittedIsGreedy | jquery.rhythm.js:146-158 | a slide without skip_me is fitted if and only if it and all non-skipped slides before it fit together in width and capacity |
| Fit.FittedStopsAtFirstOverflow | jquery.rhythm.js:146-158 | the fitted slides are a prefix of the non-skipped slides, and when the prefix stops short, the next non-skipped slide would overflow the width or find the capacity of 6 reached |
| Layout.Gap | jquery.rhythm.js:171 | the gap times count - 1 is the container's spare width, and it is never negative when the images fit |
| Layout.Laid | jquery.rhythm.js:167-178 | align keeps the list's length and every slide's element, picture, image width and skip_me mark |
| Layout.LaidDisplayState | jquery.rhythm.js:169-178 | fitted slides but the last get their image width and the non-negative gap as margin; the last gets its image width and margin 0; every other slide gets width 0 and margin 0 with both classes cleared |
| Layout.LaidMarksBoundary | jquery.rhythm.js:169-178 | a slide carries filtered if and only if it is fitted, last_one if and only if it is the last fitted slide, and a skipped slide is never filtered and has width 0 |
| Layout.LaidExtent | jquery.rhythm.js:172-178 | each slide's width plus margin after align is 0, its image width alone, or its image width and the gap |
| Layout.CollapsedOutsideFitted | jquery.rhythm.js:170-172 | after align no slide outside the fitted ones takes up any room |
| Layout.FittedExtent | jquery.rhythm.js:171-178 | the fitted slides take up their image widths plus one gap for every fitted slide but the last |
| Layout.RowIsFitted | jquery.rhythm.js:170-178 | after align the row is exactly as wide as its fitted slides |
| Layout.FittedGapShares | jquery.rhythm.js:171 | with two or more fitted slides, the gaps between them take up exactly the container's spare width |
| Layout.LaidFillsRow | jquery.rhythm.js:171-178 | with two or more fitted slides the row fills the container exactly, otherwise it is as wide as the fitted images, and it never overflows |
| Relayout.FittedSameFit | jquery.rhythm.js:146-157 | the fit pass depends only on the skip_me marks and the image widths |
| Relayout.AlignIdempotent | jquery.rhythm.js:167-178 | aligning a laid-out list again changes nothing |
| Relayout.Without | jquery.rhythm.js:188 | removing position r shortens the list by one and shifts the later slides down by one |
| Relayout.CandidatesWithout | jquery.rhythm.js:148-150 | removing a skipped slide leaves the same non-skipped slides, renumbered |
| Relayout.FittedWithout | jquery.rhythm.js:146-158 | removing a skipped slide leaves the same fitted slides, renumbered, and the same gap |
| Relayout.LaidWithout | jquery.rhythm.js:187-189 | removing a skipped slide and then aligning gives the laid-out list with that slide removed |
| Rotation.RemoveKeyAbsent | jquery.rhythm.js:188 | removing an element that is not in the list changes nothing |
| Rotation.RemoveKeyAt | jquery.rhythm.js:188 | in a list of distinct elements, removing an element takes out its position and nothing else |
| Rotation.RemoveSkippedFromLaid | jquery.rhythm.js:187-189 | the removal callback on a laid-out list takes out exactly that element, and the rest stays distinct, laid out and in order |
| Rotation.RemovalKeepsLayout | jquery.rhythm.js:187-189 | whatever skipped element the callback removes from a laid-out list, the rest stays distinct and laid out, and nothing new appears |
| Rotation.PrevSettledElements | jquery.rhythm.js:181-191 | after prev and its removal callback, every element has moved one place towards the head, the clone shows the old head's picture at the tail, and the list has the same length, distinct elements and is laid out |
| Rotation.NextRemovesTail | jquery.rhythm.js:197-201 | the element the callback of next removes by identity is the original tail, the last element of the staged list |
| Rotation.NextRemovesBeforeAlign | jquery.rhythm.js:197-202 | removing the tail before the align pass, as next does, gives the same list as aligning first and removing the tail second |
| Rotation.NextSettledElements | jquery.rhythm.js:193-203 | after next, every element has moved one place towards the tail, the clone shows the old tail's picture at the head, and the list has the same length, distinct elements and is laid out |
| Rotation.RotatedLeft | jquery.rhythm.js:58-59 | elements moved one place towards the head, with the head's picture at the tail, are the list rotated by one |
| Rotation.RotatedRight | jquery.rhythm.js:58-59 | elements moved one place towards the tail, with the tail's picture at the head, are the list rotated by one the other way |
| Rotation.PrevSettledRotates | jquery.rhythm.js:181-191 | after prev and its removal, the pictures, image widths and marks are rotated head to tail, the new element takes the tail, the length is unchanged, and the elements stay distinct |
| Rotation.NextSettledRotates | jquery.rhythm.js:193-203 | after next, the pictures, image widths and marks are rotated tail to head, with the same guarantees |
| Rotation.PrevThenNextRestoresOrder | jquery.rhythm.js:75-94 | a completed prev followed by a completed next restores the pictures, widths and marks |
| Rotation.NextThenPrevRestoresOrder | jquery.rhythm.js:85-94 | a completed next followed by a completed prev restores the pictures, widths and marks |
| Rotation.RoundsRotate | jquery.rhythm.js:64-70 | k rounds of any step that rotates by one rotate by k |
| Rotation.PrevStepRotates | jquery.rhythm.js:181-191 | a completed prev step, as a step on lists, rotates by one and keeps the elements distinct |
| Rotation.PrevRoundsRotate | jquery.rhythm.js:64-70 | after k completed prev steps the pictures are rotated by k |
| Rotation.FullCycleRestoresOrder | jquery.rhythm.js:64-71 | as many completed prev steps as there are slides restore the starting order (state 7 == state 1) |
| Rotation.DoublePrevLeavesHiddenClone | jquery.rhythm.js:183-186 | a second prev before the first removal adds a skip_me clone of the old head that remains right after the removal, with width 0 and not fitted |
| RhythmSlider.LaidKeepsBookkeeping | jquery.rhythm.js:167-178 | align touches neither the elements nor the skip_me marks that the pending removals rely on |
| RhythmSlider.PrevStagedBookkept | jquery.rhythm.js:183-189 | prev creates a new element and schedules the head, now skip_me, for removal, keeping the elements distinct |
| RhythmSlider.NextRemovedBookkept | jquery.rhythm.js:195-201 | next creates a new element and removes the tail at once, keeping the elements distinct and scheduling nothing |
| RhythmSlider.FilterStep | jquery.rhythm.js:151-157 | one turn of the fit loop adds the slide's image width, and where the loop breaks the slides taken so far are the fitted ones |
| RhythmSlider.Rhythm.constructor | jquery.rhythm.js:123-127 | a new slider holds the pictures in page order, laid out once, with nothing pending |
| RhythmSlider.Rhythm.Filter | jquery.rhythm.js:139-165 | the loop returns exactly the fitted slides, their total image width and their number |
| RhythmSlider.Rhythm.Align | jquery.rhythm.js:167-179 | the new list is the laid-out old list, the slider invariant holds, and nothing else changes |
| RhythmSlider.Rhythm.Prev | jquery.rhythm.js:181-191 | the head is marked skip_me, a width-0 clone with a new key is appended, the head is scheduled for removal, and the list is aligned; on an empty list only the alignment runs |
| RhythmSlider.Rhythm.Next | jquery.rhythm.js:193-203 | the tail is marked skip_me and a width-0 clone with a new key is prepended; the animation has no properties, so its callback removes the tail at once, and then the list is aligned: the result is the settled list, and nothing is left pending; on an empty list only the alignment runs |
| RhythmSlider.Rhythm.FinishRemoval | jquery.rhythm.js:187-189 | the scheduled element leaves the list, one scheduled callback is consumed, and the list stays laid out without a new align |
| WorkedExamples.UniformStop | jquery.rhythm.js:146-157 | with equal image widths the fit pass takes as many slides as fit side by side, up to the capacity |
| WorkedExamples.SixUniformFitted | jquery.rhythm.js:64-65 | six unmarked slides 100 wide in a 400-wide container fit four at a time |
| WorkedExamples.SixSlidesStateOne | jquery.rhythm.js:64-65 | six pictures with capacity 4 show [1 2 3 4] with no gap |
| WorkedExamples.SixSlidesStateTwo | jquery.rhythm.js:66 | after one completed prev the same slider shows [2 3 4 5] |
| WorkedExamples.LaidShowsSame | jquery.rhythm.js:167-178 | align changes neither the pictures in the list nor which of them are shown |
| WorkedExamples.ThreeSlidesDuplicated | jquery.rhythm.js:96-104 | with capacity equal to the number of slides, prev duplicates picture 1 during the animation and shows [2 3 1] |
| WorkedExamples.FourSlidesCloneHidden | jquery.rhythm.js:106-107 | with one slide more than fits, prev shows [2 3 4] and the clone of 1 stays hidden |
| WorkedExamples.ThreeSlidesEvenGap | jquery.rhythm.js:171-176 | three pictures 90 wide in a 300-wide container all fit, with a gap of 15 between them |

## Left out

- DOM queries and measurement (`find`, `children('li')`, `img.width()`, `$ul.width()`): the image widths and the container width are parameters.
- RhythmSlider.Rhythm: the container width is measured once, at construction. The source measures it again at every fit pass, which matters only if the page is resized.
- Animation timing and `ANIMATION_SPEED`: every animated property takes its target value at once. The animation in `prev` (line 187) is subsumed by the following `align`, which gives the skipped head the same width 0 and margin 0.
- The `this.ANIMATION_SPEED` misuse inside the `each` callback (line 176): it only changes the animation's duration.
- Asynchronous completion callbacks: the callback of `prev` becomes an explicit call of `FinishRemoval`. Overlapping animations appear only as interleavings of `Prev`, `Next` and `FinishRemoval`. The callback of `next` belongs to an animation with no properties, which jQuery completes at once, so `Next` performs it itself.
- Floating-point arithmetic: margins are real numbers, and image and container widths are natural numbers.
- The constructor's `ANIMATION_SPEED` constant (line 125) and the click-handler wiring of the buttons (lines 129-134): `Prev` and `Next` are called directly.
- The `_cl` console wrapper (lines 114-118) and the `$.fn.rhythm` plugin registration (lines 206-213): both are host glue.
- Lists with several `<ul>` elements or nested `<li>` elements: the model assumes one `<ul>` whose children are all the slides.
