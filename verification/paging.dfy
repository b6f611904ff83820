/** Page navigation shared by the sheet viewer and the gallery slider: a
    current index into a list of images, moved by the previous and next
    buttons or set by a thumbnail, and the enabled state of the two buttons. */
module Paging {
  import opened Wrappers

  /** The index points at an image, or is 0 when there is none. */
  predicate InRange(index: nat, count: nat) {
    index < count || (count == 0 && index == 0)
  }

  /** `previousImage`: one page back, unless already at the first. */
  function Previous(index: nat): (r: nat)
    ensures r <= index && index - r <= 1
    ensures r == index <==> index == 0
  {
    if index > 0 then index - 1 else index
  }

  /** `nextImage`: one page on, unless already at the last. The guard is
      `index < count - 1` evaluated on JavaScript numbers, so it is false for
      every index when there are no images. */
  function Next(index: nat, count: nat): (r: nat)
    ensures r >= index && r - index <= 1
    ensures r == index <==> index as int >= count as int - 1
    ensures InRange(index, count) ==> InRange(r, count)
  {
    if (index as int) < (count as int) - 1 then index + 1 else index
  }

  /** `goToImage`: the index becomes the one given, without any check. */
  function GoTo(index: nat, target: nat): (r: nat)
    ensures r == target
  {
    target
  }

  /** The `disabled` flags of the previous and next buttons. */
  datatype Controls = Controls(prevDisabled: bool, nextDisabled: bool)

  /** `displayCurrentImage`: nothing is updated when there are no images;
      otherwise a button is disabled on the first or the last page. */
  function ControlsFor(index: nat, count: nat): (r: Option<Controls>)
    ensures r.None? <==> count == 0
    ensures r.Some? ==> (r.value.prevDisabled <==> index == 0)
    ensures r.Some? ==> (r.value.nextDisabled <==> index + 1 == count)
  {
    if count == 0 then None
    else Some(Controls(index == 0, index == count - 1))
  }

  /** A button is disabled exactly when pressing it would change nothing. */
  lemma DisabledIffNoop(index: nat, count: nat)
    requires count > 0 && InRange(index, count)
    ensures ControlsFor(index, count).value.prevDisabled <==> Previous(index) == index
    ensures ControlsFor(index, count).value.nextDisabled <==> Next(index, count) == index
  {
  }

  /** Previous never leaves the range. */
  lemma PreviousInRange(index: nat, count: nat)
    requires InRange(index, count)
    ensures InRange(Previous(index), count)
  {
  }

  /** Next undoes previous, and previous undoes next, whenever the button
      pressed first was enabled. */
  lemma NextUndoesPrevious(index: nat, count: nat)
    requires 0 < index < count
    ensures Next(Previous(index), count) == index
  {
  }

  lemma PreviousUndoesNext(index: nat, count: nat)
    requires index + 1 < count
    ensures Previous(Next(index, count)) == index
  {
  }

  /** `n` presses of the next button. */
  function NextTimes(index: nat, count: nat, n: nat): nat
    decreases n
  {
    if n == 0 then index else Next(NextTimes(index, count, n - 1), count)
  }

  /** Pressing next goes one page at a time and stops at the last page:
      after `n` presses from `index`, the viewer shows page `index + n`, or the
      last page if that comes first. */
  lemma {:induction false} NextTimesStopsAtLast(index: nat, count: nat, n: nat)
    requires index < count
    ensures NextTimes(index, count, n) == if index + n < count then index + n else count - 1
    decreases n
  {
    if n > 0 {
      NextTimesStopsAtLast(index, count, n - 1);
    }
  }

  /** `n` presses of the previous button. */
  function PreviousTimes(index: nat, n: nat): nat
    decreases n
  {
    if n == 0 then index else Previous(PreviousTimes(index, n - 1))
  }

  /** Pressing previous goes one page at a time and stops at the first. */
  lemma {:induction false} PreviousTimesStopsAtFirst(index: nat, n: nat)
    ensures PreviousTimes(index, n) == if n <= index then index - n else 0
    decreases n
  {
    if n > 0 {
      PreviousTimesStopsAtFirst(index, n - 1);
    }
  }

  /** A thumbnail is a shortcut for paging: jumping to an existing image
      lands where pressing next, or previous, the right number of times
      would. */
  lemma GoToBySteps(index: nat, count: nat, target: nat)
    requires index < count && target < count
    ensures index <= target ==> GoTo(index, target) == NextTimes(index, count, target - index)
    ensures target <= index ==> GoTo(index, target) == PreviousTimes(index, index - target)
  {
    if index <= target {
      NextTimesStopsAtLast(index, count, target - index);
    }
    if target <= index {
      PreviousTimesStopsAtFirst(index, index - target);
    }
  }
}
