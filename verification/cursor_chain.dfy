/** The chain a cursor walks, read from its links, and the consistency of
    the index with the current cell's place in that chain. */
module CursorChain {
  import opened Results
  import opened JavaInt
  import opened CyclicCursor
  import Nodes

  /** The slot after position `k` of `order`, if any. */
  ghost function After(order: seq<nat>, k: int): (r: Option<nat>)
    requires 0 <= k < |order|
  {
    if k + 1 < |order| then Some(order[k + 1]) else None
  }

  /** The slot before position `k` of `order`, if any. */
  ghost function Before(order: seq<nat>, k: int): (r: Option<nat>)
    requires 0 <= k < |order|
  {
    if 0 < k then Some(order[k - 1]) else None
  }

  /** `order` lists the arena slots of the chain from `first` to `last`:
      distinct slots, each cell linked to its neighbours in `order` and to
      nothing beyond the ends. */
  ghost predicate ChainIs<T>(c: Cursor<T>, order: seq<nat>) {
    && (forall k :: 0 <= k < |order| ==> order[k] < |c.arena|)
    && (forall j, k :: 0 <= j < k < |order| ==> order[j] != order[k])
    && c.first == (if |order| > 0 then Some(order[0]) else None)
    && c.last == (if |order| > 0 then Some(order[|order| - 1]) else None)
    && (forall k {:trigger c.arena[order[k]]} :: 0 <= k < |order| ==>
          c.arena[order[k]].next == After(order, k))
    && (forall k {:trigger c.arena[order[k]]} :: 0 <= k < |order| ==>
          c.arena[order[k]].previous == Before(order, k))
  }

  /** The index names the current cell's position in a chain as long as
      the stored size. */
  ghost predicate Consistent<T>(c: Cursor<T>, order: seq<nat>) {
    && ChainIs(c, order)
    && |order| == c.size
    && 0 <= c.index < c.size
    && c.current == Some(order[c.index])
  }

  /** The values met walking the chain from `first` to `last`. */
  ghost function ValuesAlong<T>(arena: seq<Nodes.Node<T>>, order: seq<nat>): (vs: seq<T>)
    requires forall k :: 0 <= k < |order| ==> order[k] < |arena|
    ensures |vs| == |order|
  {
    seq(|order|, k requires 0 <= k < |order| => arena[order[k]].value)
  }

  /** The slots 0, 1, ..., n - 1 in order. */
  ghost function Slots(n: nat): (s: seq<nat>)
    ensures |s| == n
    ensures forall k :: 0 <= k < n ==> s[k] == k
  {
    seq(n, k requires 0 <= k < n => k)
  }

  /** A constructed cursor is well formed. */
  lemma ConstructedIsValid<T>(c: Cursor<T>, values: seq<T>, startingIndex: int)
    requires BuiltFrom(c, values, startingIndex)
    requires |values| <= MaxInt && IsInt(startingIndex)
    ensures Valid(c)
  {
  }

  /** A constructed cursor's chain visits the input in order. */
  lemma ConstructedChain<T>(c: Cursor<T>, values: seq<T>, startingIndex: int)
    requires BuiltFrom(c, values, startingIndex)
    ensures ChainIs(c, Slots(|values|))
    ensures ValuesAlong(c.arena, Slots(|values|)) == values
  {
    var n := |values|;
    var order := Slots(n);
    forall k | 0 <= k < n
      ensures c.arena[order[k]].next == After(order, k)
      ensures c.arena[order[k]].previous == Before(order, k)
    {
      assert order[k] == k;
    }
  }

  /** A starting index inside the input positions a constructed cursor on
      that element with no move; the default starting index is the reset
      point. */
  lemma ConstructedStart<T>(c: Cursor<T>, values: seq<T>, startingIndex: int)
    requires BuiltFrom(c, values, startingIndex)
    requires |values| <= MaxInt && IsInt(startingIndex)
    ensures c.size == |values|
    ensures 0 <= startingIndex < |values| ==>
      Consistent(c, Slots(|values|)) && GetCurrentValue(c) == Success(values[startingIndex])
    ensures startingIndex == ResetIndex ==>
      IsReset(c) && GetCurrentValue(c) == Failure(NoSuchElement(true))
  {
    ConstructedIsValid(c, values, startingIndex);
    ConstructedChain(c, values, startingIndex);
  }

  /** The chain depends on the cells and the ends only, not on where the
      cursor stands. */
  lemma ChainIgnoresPosition<T>(c: Cursor<T>, d: Cursor<T>, order: seq<nat>)
    requires ChainIs(c, order)
    requires d.arena == c.arena && d.first == c.first && d.last == c.last
    ensures ChainIs(d, order)
  {
  }

  /** A consistent cursor reads the value at its index's position of the
      chain. */
  lemma ConsistentReads<T>(c: Cursor<T>, order: seq<nat>)
    requires Valid(c) && Consistent(c, order)
    ensures GetCurrentValue(c) == Success(ValuesAlong(c.arena, order)[c.index])
  {
  }

  /** A cursor that kept the chain of `c` and stands on position `j` of it
      with index `j` is consistent. */
  lemma StandsAt<T>(c: Cursor<T>, d: Cursor<T>, order: seq<nat>, j: int)
    requires ChainIs(c, order)
    requires d.arena == c.arena && d.first == c.first && d.last == c.last
    requires |order| == d.size && 0 <= j < d.size
    requires d.current == Some(order[j]) && d.index == j
    ensures Consistent(d, order)
  {
    ChainIgnoresPosition(c, d, order);
  }

  /** From the reset point of a chain as long as the stored size, one step
      forward lands consistently on the first cell. */
  lemma MoveNextFromReset<T>(c: Cursor<T>, order: seq<nat>)
    requires Valid(c) && ChainIs(c, order)
    requires |order| == c.size > 0
    requires IsReset(c)
    ensures MoveNext(c).Success?
    ensures Consistent(MoveNext(c).value, order)
    ensures MoveNext(c).value.index == 0
  {
  }

  /** A consistent cursor stays consistent moving forward: it steps to the
      next position, wrapping from the last to the first. */
  lemma MoveNextKeepsConsistency<T>(c: Cursor<T>, order: seq<nat>)
    requires Valid(c) && Consistent(c, order)
    ensures MoveNext(c).Success?
    ensures Consistent(MoveNext(c).value, order)
    ensures MoveNext(c).value.index == if c.index == c.size - 1 then 0 else c.index + 1
  {
    var d := MoveNext(c).value;
    if c.index == c.size - 1 {
      StandsAt(c, d, order, 0);
    } else {
      var k := c.index;
      assert c.arena[order[k]].next == After(order, k);
      StandsAt(c, d, order, k + 1);
    }
  }

  /** A consistent cursor stays consistent moving backward: it steps to the
      previous position, wrapping from the first to the last. */
  lemma MovePreviousKeepsConsistency<T>(c: Cursor<T>, order: seq<nat>)
    requires Valid(c) && Consistent(c, order)
    ensures MovePrevious(c).Success?
    ensures Consistent(MovePrevious(c).value, order)
    ensures MovePrevious(c).value.index == if c.index == 0 then c.size - 1 else c.index - 1
  {
    var d := MovePrevious(c).value;
    if c.index == 0 {
      StandsAt(c, d, order, c.size - 1);
    } else {
      var k := c.index;
      assert c.arena[order[k]].previous == Before(order, k);
      StandsAt(c, d, order, k - 1);
    }
  }

  /** From a consistent state a step forward and a step back give back the
      very same cursor, across the wrap point too. */
  lemma NextThenPreviousRestores<T>(c: Cursor<T>, order: seq<nat>)
    requires Valid(c) && Consistent(c, order)
    ensures MoveNext(c).Success?
    ensures MovePrevious(MoveNext(c).value) == Success(c)
  {
    MoveNextKeepsConsistency(c, order);
  }

  /** And a step back then a step forward do too. */
  lemma PreviousThenNextRestores<T>(c: Cursor<T>, order: seq<nat>)
    requires Valid(c) && Consistent(c, order)
    ensures MovePrevious(c).Success?
    ensures MoveNext(MovePrevious(c).value) == Success(c)
  {
    MovePreviousKeepsConsistency(c, order);
  }

  /** The one-pass queries do not wrap: on a consistent cursor `hasNext`
      is false exactly on the last position and `hasPrevious` exactly on
      the first; at the reset point both hold exactly for a non-empty
      chain. */
  lemma HasNextOnChain<T>(c: Cursor<T>, order: seq<nat>)
    requires Valid(c) && ChainIs(c, order) && |order| == c.size
    ensures Consistent(c, order) ==> (HasNext(c) <==> c.index < c.size - 1)
    ensures Consistent(c, order) ==> (HasPrevious(c) <==> c.index > 0)
    ensures IsReset(c) ==> (HasNext(c) <==> c.size > 0) && (HasPrevious(c) <==> c.size > 0)
  {
    if Consistent(c, order) {
      assert c.arena[order[c.index]].next == After(order, c.index);
      assert c.arena[order[c.index]].previous == Before(order, c.index);
    }
  }

  /** Stepping back from the reset point reaches the last cell but stores
      index `size - 2` for two or more cells: the cursor is off by one from
      then on. */
  lemma MovePreviousFromResetDrifts<T>(c: Cursor<T>, order: seq<nat>)
    requires Valid(c) && ChainIs(c, order)
    requires |order| == c.size >= 2
    requires IsReset(c)
    ensures MovePrevious(c).Success?
    ensures MovePrevious(c).value.current == Some(order[c.size - 1])
    ensures MovePrevious(c).value.index == c.size - 2
    ensures !Consistent(MovePrevious(c).value, order)
  {
  }

  /** The drift's visible effect: after stepping back from the reset point,
      a step forward follows the last cell's missing `next` link (the index
      is not `size - 1`, so no wrap), and there is no current value. */
  lemma PreviousThenNextFromResetLosesCell<T>(c: Cursor<T>, order: seq<nat>)
    requires Valid(c) && ChainIs(c, order)
    requires |order| == c.size >= 2
    requires IsReset(c)
    ensures MovePrevious(c).Success?
    ensures MoveNext(MovePrevious(c).value).Success?
    ensures MoveNext(MovePrevious(c).value).value.current.None?
    ensures MoveNext(MovePrevious(c).value).value.index == c.size - 1
    ensures GetCurrentValue(MoveNext(MovePrevious(c).value).value) == Failure(NoSuchElement(false))
  {
    MovePreviousFromResetDrifts(c, order);
  }

  /** A single element is the exception: `floorMod(-2, 1)` is 0, which is
      also `size - 1`, so stepping back from the reset point is consistent. */
  lemma MovePreviousFromResetSingleton<T>(c: Cursor<T>, order: seq<nat>)
    requires Valid(c) && ChainIs(c, order)
    requires |order| == c.size == 1
    requires IsReset(c)
    ensures MovePrevious(c).Success?
    ensures Consistent(MovePrevious(c).value, order)
  {
  }

  /** A starting index outside [-1, n) leaves no current cell while keeping
      the index as given: there is no current value, and the first step
      forward lands on the first cell with index `floorMod(startingIndex + 1, n)`
      in `int` arithmetic. */
  lemma OutOfRangeStart<T>(c: Cursor<T>, values: seq<T>, startingIndex: int)
    requires BuiltFrom(c, values, startingIndex)
    requires |values| <= MaxInt && IsInt(startingIndex)
    requires startingIndex < ResetIndex || |values| <= startingIndex
    ensures c.current.None? && c.index == startingIndex
    ensures GetCurrentValue(c) == Failure(NoSuchElement(false))
    ensures !HasNext(c) && !HasPrevious(c)
    ensures |values| > 0 ==>
      && MoveNext(c).Success?
      && MoveNext(c).value.current == Some(0)
      && MoveNext(c).value.index == FloorMod(Add(startingIndex, 1), |values|)
      && (startingIndex < MaxInt ==> MoveNext(c).value.index == (startingIndex + 1) % |values|)
  {
    if |values| > 0 && startingIndex < MaxInt {
      assert Add(startingIndex, 1) == startingIndex + 1;
    }
  }

  /** `Reset` forgets the position but not the chain: from any state of a
      chain as long as the stored size, reset and one step forward is the
      first cell at index 0, and reset and one step back is the last cell. */
  lemma ResetRestartsFromEnds<T>(c: Cursor<T>, order: seq<nat>)
    requires Valid(c) && ChainIs(c, order)
    requires |order| == c.size > 0
    ensures GetCurrentValue(Reset(c)) == Failure(NoSuchElement(true))
    ensures MoveNext(Reset(c)).Success?
    ensures Consistent(MoveNext(Reset(c)).value, order)
    ensures MoveNext(Reset(c)).value.index == 0
    ensures MovePrevious(Reset(c)).Success?
    ensures MovePrevious(Reset(c)).value.current == Some(order[c.size - 1])
  {
    MoveNextFromReset(Reset(c), order);
  }

  /** `Set` then `GetCurrentValue` returns the value set, and the chain and
      its consistency are untouched. */
  lemma SetThenGet<T>(c: Cursor<T>, value: T)
    requires Valid(c)
    requires !IsReset(c) && c.current.Some?
    ensures GetCurrentValue(Set(c, value)) == Success(value)
  {
  }

  lemma SetKeepsChain<T>(c: Cursor<T>, order: seq<nat>, value: T)
    requires Valid(c) && ChainIs(c, order)
    ensures ChainIs(Set(c, value), order)
    ensures Consistent(c, order) ==> Consistent(Set(c, value), order)
  {
  }

  /** The chain with position `i` left out. */
  ghost function Without(order: seq<nat>, i: nat): (o: seq<nat>)
    requires i < |order|
    ensures |o| == |order| - 1
    ensures forall k :: 0 <= k < i ==> o[k] == order[k]
    ensures forall k :: i <= k < |o| ==> o[k] == order[k + 1]
  {
    order[..i] + order[i + 1..]
  }

  /** `Remove` on a consistent cursor leaves every cell other than the
      current one's two neighbours as it was. */
  lemma RemoveKeepsOtherCells<T>(c: Cursor<T>, order: seq<nat>, m: nat)
    requires Valid(c) && Consistent(c, order)
    requires m < |order| && m + 1 != c.index && m != c.index + 1
    ensures Remove(c).arena[order[m]] == c.arena[order[m]]
  {
    var i := c.index;
    var cell := c.arena[order[i]];
    assert cell.next == After(order, i);
    assert cell.previous == Before(order, i);
    assert Some(order[m]) != cell.next && Some(order[m]) != cell.previous;
  }

  /** What splicing position `i` out of `order` does to the arena of `c`,
      giving the arena of `r`: the cell before it now links forward to the
      cell after it and vice versa, and nothing else changed. */
  ghost predicate SplicedAt<T>(c: Cursor<T>, r: Cursor<T>, order: seq<nat>, i: nat)
    requires ChainIs(c, order)
    requires i < |order|
  {
    && |r.arena| == |c.arena|
    && (forall m :: 0 <= m < |order| && m + 1 != i && m != i + 1 ==>
          r.arena[order[m]] == c.arena[order[m]])
    && (0 < i ==> r.arena[order[i - 1]] == c.arena[order[i - 1]].(next := After(order, i)))
    && (i + 1 < |order| ==>
          r.arena[order[i + 1]] == c.arena[order[i + 1]].(previous := Before(order, i)))
  }

  /** After the splice, the cell at position `k` of the shortened chain is
      linked to its new neighbours. */
  lemma SplicedLinks<T>(c: Cursor<T>, r: Cursor<T>, order: seq<nat>, i: nat, k: nat)
    requires ChainIs(c, order)
    requires i < |order| && SplicedAt(c, r, order, i)
    requires k < |order| - 1
    ensures Without(order, i)[k] < |r.arena|
    ensures r.arena[Without(order, i)[k]].next == After(Without(order, i), k)
    ensures r.arena[Without(order, i)[k]].previous == Before(Without(order, i), k)
  {
    var o := Without(order, i);
    if k < i - 1 {
      assert r.arena[order[k]] == c.arena[order[k]];
      assert c.arena[order[k]].next == After(order, k);
      assert c.arena[order[k]].previous == Before(order, k);
    } else if k == i - 1 {
      assert c.arena[order[k]].previous == Before(order, k);
    } else if k == i {
      assert c.arena[order[k + 1]].next == After(order, k + 1);
    } else {
      assert r.arena[order[k + 1]] == c.arena[order[k + 1]];
      assert c.arena[order[k + 1]].next == After(order, k + 1);
      assert c.arena[order[k + 1]].previous == Before(order, k + 1);
    }
  }

  /** Leaving a position out of a list of distinct slots keeps them
      distinct. */
  lemma WithoutKeepsDistinct(order: seq<nat>, i: nat)
    requires i < |order|
    requires forall j, k :: 0 <= j < k < |order| ==> order[j] != order[k]
    ensures forall j, k :: 0 <= j < k < |Without(order, i)| ==> Without(order, i)[j] != Without(order, i)[k]
  {
    var o := Without(order, i);
    forall j, k | 0 <= j < k < |o|
      ensures o[j] != o[k]
    {
      if j < i && i <= k {
        assert order[j] != order[k + 1];
      }
    }
  }

  /** Splicing position `i` out of a chain, with the ends updated where they
      were the spliced cell, leaves the chain `order` without position `i`. */
  lemma SplicedChain<T>(c: Cursor<T>, r: Cursor<T>, order: seq<nat>, i: nat)
    requires ChainIs(c, order)
    requires i < |order| && SplicedAt(c, r, order, i)
    requires r.first == (if i == 0 then After(order, 0) else c.first)
    requires r.last == (if i == |order| - 1 then Before(order, i) else c.last)
    ensures ChainIs(r, Without(order, i))
  {
    var o := Without(order, i);
    forall k | 0 <= k < |o|
      ensures o[k] < |r.arena|
      ensures r.arena[o[k]].next == After(o, k)
      ensures r.arena[o[k]].previous == Before(o, k)
    {
      SplicedLinks(c, r, order, i, k);
    }
    WithoutKeepsDistinct(order, i);
  }

  /** On a consistent cursor `Remove` splices exactly the current cell out
      of the chain, but keeps the size, the index and the current cell:
      the cursor still reads the removed value and is no longer consistent
      with any chain, as the chain is now one shorter than the size. */
  lemma RemoveSplicesCurrent<T>(c: Cursor<T>, order: seq<nat>)
    requires Valid(c) && Consistent(c, order)
    ensures ChainIs(Remove(c), Without(order, c.index))
    ensures |Without(order, c.index)| == Remove(c).size - 1
    ensures Remove(c).current == c.current && Remove(c).index == c.index
    ensures GetCurrentValue(Remove(c)) == GetCurrentValue(c)
  {
    var r := Remove(c);
    var i: nat := c.index;
    var cell := c.arena[order[i]];
    assert cell.next == After(order, i);
    assert cell.previous == Before(order, i);
    forall m | 0 <= m < |order| && m + 1 != i && m != i + 1
      ensures r.arena[order[m]] == c.arena[order[m]]
    {
      RemoveKeepsOtherCells(c, order, m);
    }
    SplicedChain(c, r, order, i);
  }
}
