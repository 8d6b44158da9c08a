/** A list iterator that never runs out: `next` past the end starts again
    at the front, and `previous` before the front starts again at the back.
    It wraps a standard list iterator, modelled here by the list and the
    position of its gap (the index of the element `next` would return). */
module CyclicListIterator {
  import opened Results
  import ModArith

  datatype IteratorError =
    | IndexOutOfBounds(index: int)
    | NoSuchElement

  /** A standard list iterator: the list and its gap position. */
  datatype ListIter<E> = ListIter(list: seq<E>, cursor: nat)

  /** An element handed out by `next` or `previous`, with the iterator after
      the call. */
  datatype Step<E> = Step(element: E, iter: ListIter<E>)

  /** The gap lies between two elements, or at either end. */
  ghost predicate Valid<E>(it: ListIter<E>) {
    it.cursor <= |it.list|
  }

  /** The constructor with a starting index: the underlying iterator is
      created at that gap, which must lie within the list. */
  function New<E>(list: seq<E>, startingIndex: int): (r: Result<ListIter<E>, IteratorError>)
    ensures r.Success? <==> 0 <= startingIndex <= |list|
    ensures r.Success? ==> Valid(r.value) && r.value.list == list && NextIndex(r.value) == startingIndex
    ensures r.Failure? ==> r.error == IndexOutOfBounds(startingIndex)
  {
    if 0 <= startingIndex <= |list| then Success(ListIter(list, startingIndex))
    else Failure(IndexOutOfBounds(startingIndex))
  }

  /** The one-argument constructor starts before the first element. */
  function NewAtStart<E>(list: seq<E>): (r: ListIter<E>)
    ensures Valid(r) && r.list == list
    ensures !HasPrevious(r) && NextIndex(r) == 0
    ensures New(list, 0) == Success(r)
  {
    New(list, 0).value
  }

  /** `hasNext` asks the underlying iterator, so it does not wrap. */
  predicate HasNext<E>(it: ListIter<E>) {
    it.cursor < |it.list|
  }

  /** `hasPrevious` asks the underlying iterator, so it does not wrap. */
  predicate HasPrevious<E>(it: ListIter<E>) {
    it.cursor > 0
  }

  function NextIndex<E>(it: ListIter<E>): (r: int)
    requires Valid(it)
    ensures 0 <= r <= |it.list|
    ensures r < |it.list| <==> HasNext(it)
  {
    it.cursor
  }

  function PreviousIndex<E>(it: ListIter<E>): (r: int)
    requires Valid(it)
    ensures -1 <= r < |it.list|
    ensures 0 <= r <==> HasPrevious(it)
    ensures r == NextIndex(it) - 1
  {
    it.cursor - 1
  }

  /** `next`: at the end a fresh iterator at the front replaces the
      underlying one, which then hands out its next element, or fails if
      even that one is exhausted (the list is empty). The element comes from
      the gap taken round the list, and the gap moves past it. */
  function Next<E>(it: ListIter<E>): (r: Result<Step<E>, IteratorError>)
    requires Valid(it)
    ensures r.Failure? <==> |it.list| == 0
    ensures r.Failure? ==> r.error == NoSuchElement
    ensures r.Success? ==>
      && r.value.iter.list == it.list
      && Valid(r.value.iter)
      && r.value.element == it.list[it.cursor % |it.list|]
      && NextIndex(r.value.iter) == it.cursor % |it.list| + 1
  {
    var base := if HasNext(it) then it else NewAtStart(it.list);
    if HasNext(base) then
      ModArith.ModUnique(it.cursor, |it.list|, if it.cursor < |it.list| then 0 else 1, base.cursor);
      Success(Step(base.list[base.cursor], ListIter(base.list, base.cursor + 1)))
    else
      Failure(NoSuchElement)
  }

  /** `previous`: at the front a fresh iterator at the back replaces the
      underlying one, which then hands out its previous element, or fails
      if the list is empty. The element is the one before the gap taken
      round the list, and the gap moves before it. */
  function Previous<E>(it: ListIter<E>): (r: Result<Step<E>, IteratorError>)
    requires Valid(it)
    ensures r.Failure? <==> |it.list| == 0
    ensures r.Failure? ==> r.error == NoSuchElement
    ensures r.Success? ==>
      && r.value.iter.list == it.list
      && Valid(r.value.iter)
      && r.value.element == it.list[(it.cursor - 1) % |it.list|]
      && NextIndex(r.value.iter) == (it.cursor - 1) % |it.list|
  {
    var base := if HasPrevious(it) then it else ListIter(it.list, |it.list|);
    if HasPrevious(base) then
      ModArith.ModUnique(it.cursor - 1, |it.list|, if it.cursor > 0 then 0 else -1, base.cursor - 1);
      Success(Step(base.list[base.cursor - 1], ListIter(base.list, base.cursor - 1)))
    else
      Failure(NoSuchElement)
  }

  /** `next` takes the wrapping branch exactly when `hasNext` is false:
      otherwise the gap simply moves one place on. */
  lemma NextWrapsOnlyAtEnd<E>(it: ListIter<E>)
    requires Valid(it) && |it.list| > 0
    ensures HasNext(it) <==> NextIndex(Next(it).value.iter) == NextIndex(it) + 1
    ensures !HasNext(it) ==> Next(it).value.element == it.list[0] && NextIndex(Next(it).value.iter) == 1
  {
    if !HasNext(it) {
      ModArith.ModUnique(it.cursor, |it.list|, 1, 0);
    }
  }

  /** `previous` takes the wrapping branch exactly when `hasPrevious` is
      false, and then returns the last element. */
  lemma PreviousWrapsOnlyAtStart<E>(it: ListIter<E>)
    requires Valid(it) && |it.list| > 0
    ensures HasPrevious(it) <==> NextIndex(Previous(it).value.iter) == NextIndex(it) - 1
    ensures !HasPrevious(it) ==>
      && Previous(it).value.element == it.list[|it.list| - 1]
      && NextIndex(Previous(it).value.iter) == |it.list| - 1
  {
    if !HasPrevious(it) {
      ModArith.ModUnique(-1, |it.list|, -1, |it.list| - 1);
    }
  }

  /** The element handed out by `next` sits at `previousIndex` afterwards,
      and the one handed out by `previous` at `nextIndex`, as for any list
      iterator. */
  lemma ReturnedElementIsAdjacent<E>(it: ListIter<E>)
    requires Valid(it) && |it.list| > 0
    ensures var s := Next(it).value;
      0 <= PreviousIndex(s.iter) && s.iter.list[PreviousIndex(s.iter)] == s.element
    ensures var s := Previous(it).value;
      NextIndex(s.iter) < |s.iter.list| && s.iter.list[NextIndex(s.iter)] == s.element
  {
  }

  /** `previous` right after `next` returns the same element and puts the
      gap back where it was, the end and the front counting as the same
      place of the cycle. */
  lemma NextThenPrevious<E>(it: ListIter<E>)
    requires Valid(it) && |it.list| > 0
    ensures var s := Next(it).value;
      && Previous(s.iter).Success?
      && Previous(s.iter).value.element == s.element
      && NextIndex(Previous(s.iter).value.iter) == it.cursor % |it.list|
  {
    var s := Next(it).value;
    var p := it.cursor % |it.list|;
    ModArith.ModUnique(s.iter.cursor - 1, |it.list|, 0, p);
  }

  /** `next` right after `previous` returns the same element and puts the
      gap back where it was, the front counting as the end. */
  lemma PreviousThenNext<E>(it: ListIter<E>)
    requires Valid(it) && |it.list| > 0
    ensures var s := Previous(it).value;
      && Next(s.iter).Success?
      && Next(s.iter).value.element == s.element
      && NextIndex(Next(s.iter).value.iter) == if it.cursor == 0 then |it.list| else it.cursor
  {
    var s := Previous(it).value;
    var p := (it.cursor - 1) % |it.list|;
    ModArith.ModUnique(p, |it.list|, 0, p);
    if it.cursor == 0 {
      ModArith.ModUnique(-1, |it.list|, -1, |it.list| - 1);
    } else {
      ModArith.ModUnique(it.cursor - 1, |it.list|, 0, it.cursor - 1);
    }
  }

  /** `k` successive calls of `next` on a non-empty list. */
  function Advance<E>(it: ListIter<E>, k: nat): (r: ListIter<E>)
    requires Valid(it) && |it.list| > 0
    ensures Valid(r) && r.list == it.list
  {
    if k == 0 then it else Next(Advance(it, k - 1)).value.iter
  }

  /** After `k` calls of `next`, the next element to come is `k` places
      further round the list. */
  lemma {:induction false} AdvanceGoesRound<E>(it: ListIter<E>, k: nat)
    requires Valid(it) && |it.list| > 0
    ensures Advance(it, k).cursor % |it.list| == (it.cursor + k) % |it.list|
  {
    var n := |it.list|;
    if k > 0 {
      AdvanceGoesRound(it, k - 1);
      var before := Advance(it, k - 1);
      var p := before.cursor % n;
      ModArith.ModSuccessor(it.cursor + k - 1, n);
      ModArith.ModUnique(p, n, 0, p);
      ModArith.ModSuccessor(p, n);
    }
  }

  /** From the gap `s`, the `k`-th call of `next` (`k >= 1`) returns the
      element `s + k - 1` places round the list; from a fresh iterator,
      `list[(k - 1) mod |list|]`. */
  lemma KthNext<E>(list: seq<E>, startingIndex: int, k: nat)
    requires 0 <= startingIndex <= |list| && |list| > 0 && k >= 1
    ensures New(list, startingIndex).Success?
    ensures Next(Advance(New(list, startingIndex).value, k - 1)).value.element
            == list[(startingIndex + k - 1) % |list|]
  {
    AdvanceGoesRound(New(list, startingIndex).value, k - 1);
  }

  /** The first `next` after the constructor with a starting index inside
      the list returns the element at that index. */
  lemma FirstNextFromStart<E>(list: seq<E>, startingIndex: int)
    requires 0 <= startingIndex < |list|
    ensures Next(New(list, startingIndex).value).value.element == list[startingIndex]
  {
    ModArith.ModUnique(startingIndex, |list|, 0, startingIndex);
  }
}
