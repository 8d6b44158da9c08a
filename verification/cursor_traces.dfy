/** What a freshly constructed cursor reads after one move, for every
    list and starting point: the behaviour its tests pin down on the
    five-element list "0" ... "4". */
module CursorTraces {
  import opened Results
  import opened JavaInt
  import opened CyclicCursor
  import opened CursorChain
  import ModArith

  /** Constructed at element `s`, the cursor reads `values[s]`; one step
      forward reads the next element, wrapping from the last to the first,
      and one step back reads the previous one, wrapping from the first to
      the last. */
  lemma ConstructedMovesFromElement<T>(c: Cursor<T>, values: seq<T>, s: int)
    requires BuiltFrom(c, values, s)
    requires |values| <= MaxInt && 0 <= s < |values|
    ensures GetCurrentValue(c) == Success(values[s])
    ensures MoveNext(c).Success?
    ensures GetCurrentValue(MoveNext(c).value) == Success(values[if s == |values| - 1 then 0 else s + 1])
    ensures MovePrevious(c).Success?
    ensures GetCurrentValue(MovePrevious(c).value) == Success(values[if s == 0 then |values| - 1 else s - 1])
  {
    var order := Slots(|values|);
    ConstructedStart(c, values, s);
    ConstructedChain(c, values, s);
    MoveNextKeepsConsistency(c, order);
    ConsistentReads(MoveNext(c).value, order);
    MovePreviousKeepsConsistency(c, order);
    ConsistentReads(MovePrevious(c).value, order);
  }

  /** Constructed at the reset point, the cursor has no value to read; the
      first step forward reads the first element and the first step back
      the last one. */
  lemma ConstructedMovesFromReset<T>(c: Cursor<T>, values: seq<T>)
    requires BuiltFrom(c, values, ResetIndex)
    requires 0 < |values| <= MaxInt
    ensures GetCurrentValue(c) == Failure(NoSuchElement(true))
    ensures MoveNext(c).Success?
    ensures GetCurrentValue(MoveNext(c).value) == Success(values[0])
    ensures MovePrevious(c).Success?
    ensures GetCurrentValue(MovePrevious(c).value) == Success(values[|values| - 1])
  {
    var order := Slots(|values|);
    ConstructedStart(c, values, ResetIndex);
    ConstructedChain(c, values, ResetIndex);
    MoveNextFromReset(c, order);
    ConsistentReads(MoveNext(c).value, order);
  }

  /** A starting index far past the end: with five values and start 100,
      the first `moveNext` lands on the first cell with index
      `floorMod(101, 5) == 1`, not 0, so index and cell disagree. */
  lemma FarStartMovesModSize<T>(c: Cursor<T>, values: seq<T>)
    requires BuiltFrom(c, values, 100) && |values| == 5
    ensures MoveNext(c).Success?
    ensures MoveNext(c).value.current == Some(0)
    ensures MoveNext(c).value.index == 1
  {
    OutOfRangeStart(c, values, 100);
    ModArith.ModUnique(101, 5, 20, 1);
  }
}
