/** The cursor's two traversal modes: the bounded one-pass loop gated by
    `HasNext`, and unbounded repeated stepping with `MoveNext`. */
module CursorIteration {
  import opened Results
  import opened JavaInt
  import opened CyclicCursor
  import opened CursorChain
  import ModArith

  /** After the loop has wrapped once, the index never exceeds the current
      cell's arena slot. At the last index that slot is the last of the
      arena, which has no `next` link, so `HasNext` rules out a second wrap;
      every other step follows a `next` link to a later slot. */
  lemma StepAfterWrap<T>(c: Cursor<T>)
    requires Valid(c) && HasNext(c)
    requires c.current.Some? && 0 <= c.index <= c.current.value
    ensures !IsLast(c)
    ensures MoveNext(c).Success?
    ensures MoveNext(c).value.current.Some?
    ensures c.current.value < MoveNext(c).value.current.value
    ensures MoveNext(c).value.index <= MoveNext(c).value.current.value
  {
  }

  /** The values read so far are the chain's prefix up to the current
      position (none at the reset point), on a chain as long as the stored
      size. */
  ghost predicate ReadInOrder<T>(order: seq<nat>, c: Cursor<T>, values: seq<T>) {
    && ChainIs(c, order) && |order| == c.size
    && (IsReset(c) ==> values == [])
    && (!IsReset(c) ==>
          && Consistent(c, order)
          && values == ValuesAlong(c.arena, order)[..c.index + 1])
  }

  /** Whether the step from `c` is the wrap from the last index to the first. */
  predicate Wraps<T>(c: Cursor<T>) {
    !IsReset(c) && IsLast(c)
  }

  /** One turn of the loop over a full-length chain read in order: it does
      not wrap, and reads the value at the next position. */
  lemma StepInOrder<T>(order: seq<nat>, c: Cursor<T>, values: seq<T>)
    requires Valid(c) && HasNext(c) && ReadInOrder(order, c, values)
    ensures !Wraps(c)
    ensures MoveNext(c).Success?
    ensures GetCurrentValue(MoveNext(c).value).Success?
    ensures ReadInOrder(order, MoveNext(c).value, values + [GetCurrentValue(MoveNext(c).value).value])
  {
    if IsReset(c) {
      MoveNextFromReset(c, order);
      ReadExtends(MoveNext(c).value, order, values);
    } else {
      StepOnInOrder(c, order);
      ReadExtends(MoveNext(c).value, order, values);
    }
  }

  /** A consistent cursor with a next cell is not on the last position, and
      steps to the following one. */
  lemma StepOnInOrder<T>(c: Cursor<T>, order: seq<nat>)
    requires Valid(c) && HasNext(c) && Consistent(c, order)
    ensures !IsLast(c)
    ensures MoveNext(c).Success?
    ensures Consistent(MoveNext(c).value, order)
    ensures MoveNext(c).value.index == c.index + 1
  {
    assert c.arena[order[c.index]].next == After(order, c.index);
    MoveNextKeepsConsistency(c, order);
  }

  /** Reading at a consistent position extends the prefix read before it. */
  lemma ReadExtends<T>(d: Cursor<T>, order: seq<nat>, values: seq<T>)
    requires Valid(d) && Consistent(d, order) && |order| == d.size
    requires values == ValuesAlong(d.arena, order)[..d.index]
    ensures GetCurrentValue(d).Success?
    ensures ReadInOrder(order, d, values + [GetCurrentValue(d).value])
  {
    ConsistentReads(d, order);
    PrefixExtends(ValuesAlong(d.arena, order), d.index);
  }

  /** The loop's cursor still walks the same list as the starting cursor. */
  ghost predicate SameList<T>(start: Cursor<T>, c: Cursor<T>) {
    c.arena == start.arena && c.first == start.first && c.last == start.last && c.size == start.size
  }

  /** Once wrapped, the index is off the reset point and stays at or below
      the current slot. The wrap may land on no cell at all: a removal at a
      drifted index can clear `first` while other cells remain. */
  ghost predicate BehindSlot<T>(c: Cursor<T>) {
    0 <= c.index && (c.current.Some? ==> c.index <= c.current.value)
  }

  /** The loop's termination measure within a phase: before the wrap, the
      distance of the index from the end; after it, that of the slot. */
  ghost function Remaining<T>(wrapped: bool, c: Cursor<T>): int {
    if wrapped && c.current.Some? then c.size - c.current.value else c.size - c.index
  }

  /** One turn of the one-pass loop: the move succeeds, the loop's
      invariants carry over, and the measure decreases. */
  lemma CollectStep<T>(start: Cursor<T>, order: seq<nat>, aligned: bool, wrapped: bool, c: Cursor<T>, values: seq<T>)
    requires Valid(c) && HasNext(c) && SameList(start, c)
    requires wrapped ==> BehindSlot(c)
    requires aligned ==> ReadInOrder(order, c, values) && !wrapped
    ensures MoveNext(c).Success?
    ensures Valid(MoveNext(c).value) && SameList(start, MoveNext(c).value)
    ensures wrapped || Wraps(c) ==> BehindSlot(MoveNext(c).value)
    ensures aligned ==>
      && !Wraps(c)
      && GetCurrentValue(MoveNext(c).value).Success?
      && ReadInOrder(order, MoveNext(c).value, values + [GetCurrentValue(MoveNext(c).value).value])
    ensures (wrapped || Wraps(c)) == wrapped ==>
      0 <= Remaining(wrapped, c) && Remaining(wrapped, MoveNext(c).value) < Remaining(wrapped, c)
  {
    if wrapped {
      StepAfterWrap(c);
    }
    if aligned {
      StepInOrder(order, c, values);
    }
  }

  /** The one-pass loop `while hasNext { moveNext; getCurrentValue }` that
      the cursor's iterator and stream run, collecting the values read.

      It stops on every cursor, whatever removals and moves came before:
      `next` links always lead to later arena slots, and once the loop has
      wrapped to the first cell the index can no longer overtake the slot,
      so a second wrap is impossible. A failing read ends the loop with its
      error, as the exception would. From the reset point of a chain as long
      as the stored size, it reads every value of the chain exactly once, in
      chain order, and stops on the last cell. */
  method Collect<T>(start: Cursor<T>, ghost order: seq<nat>) returns (out: Result<seq<T>, CursorError>, c: Cursor<T>)
    requires Valid(start)
    ensures Valid(c)
    ensures c.arena == start.arena && c.first == start.first && c.last == start.last
    ensures c.size == start.size
    ensures out.Success? ==> !HasNext(c)
    ensures ChainIs(start, order) && |order| == start.size && IsReset(start) ==>
      && out == Success(ValuesAlong(start.arena, order))
      && (|order| > 0 ==> Consistent(c, order) && c.index == c.size - 1)
  {
    ghost var aligned := ChainIs(start, order) && |order| == start.size && IsReset(start);
    ghost var wrapped := false;
    var values: seq<T> := [];
    c := start;
    while HasNext(c)
      invariant Valid(c) && SameList(start, c)
      invariant wrapped ==> BehindSlot(c)
      invariant aligned ==> ReadInOrder(order, c, values) && !wrapped
      decreases (if wrapped then 0 else 1), Remaining(wrapped, c)
    {
      CollectStep(start, order, aligned, wrapped, c, values);
      wrapped := wrapped || Wraps(c);
      c := MoveNext(c).value;
      var v := GetCurrentValue(c);
      if v.Failure? {
        out := Failure(v.error);
        return;
      }
      values := values + [v.value];
    }
    if aligned && |order| > 0 {
      CollectEnds(start, order, c, values);
    }
    out := Success(values);
  }

  /** Where the aligned loop stops: on the last position, with every value. */
  lemma CollectEnds<T>(start: Cursor<T>, order: seq<nat>, c: Cursor<T>, values: seq<T>)
    requires Valid(c) && SameList(start, c) && !HasNext(c)
    requires ReadInOrder(order, c, values) && |order| > 0
    ensures Consistent(c, order) && c.index == c.size - 1
    ensures values == ValuesAlong(start.arena, order)
  {
    StopsOnLast(order, c, values);
    assert ValuesAlong(start.arena, order)[..c.size] == ValuesAlong(start.arena, order);
  }

  lemma StopsOnLast<T>(order: seq<nat>, c: Cursor<T>, values: seq<T>)
    requires Valid(c) && !HasNext(c)
    requires ReadInOrder(order, c, values) && |order| > 0
    ensures Consistent(c, order) && c.index == c.size - 1
  {
    assert c.first.Some?;
    assert c.arena[order[c.index]].next == After(order, c.index);
  }

  lemma PrefixExtends<T>(s: seq<T>, i: nat)
    requires i < |s|
    ensures s[..i + 1] == s[..i] + [s[i]]
  {
  }

  /** The test's loop on a freshly built cursor: the values come out as
      given, each exactly once. */
  method CollectConstructed<T>(values: seq<T>) returns (out: Result<seq<T>, CursorError>)
    requires |values| <= MaxInt
    ensures out == Success(values)
  {
    var c := Construct(values, ResetIndex);
    ConstructedChain(c, values, ResetIndex);
    var last;
    out, last := Collect(c, Slots(|values|));
  }

  /** `k` successive `MoveNext` steps; none fails on a non-empty cursor. */
  function Advance<T>(c: Cursor<T>, k: nat): (r: Cursor<T>)
    requires Valid(c) && c.size > 0
    ensures Valid(r)
    ensures r.arena == c.arena && r.first == c.first && r.last == c.last && r.size == c.size
    ensures k > 0 ==> 0 <= r.index < c.size
  {
    if k == 0 then c else MoveNext(Advance(c, k - 1)).value
  }

  /** Counting `j` steps round a cycle of `n` positions from 0. */
  function CountRound(j: nat, n: nat): (r: nat)
    requires n > 0
    ensures r < n
  {
    if j == 0 then 0
    else if CountRound(j - 1, n) == n - 1 then 0
    else CountRound(j - 1, n) + 1
  }

  lemma {:induction false} CountRoundIsMod(j: nat, n: nat)
    requires n > 0
    ensures CountRound(j, n) == j % n
  {
    if j == 0 {
      ModArith.ModUnique(0, n, 0, 0);
    } else {
      CountRoundIsMod(j - 1, n);
      ModArith.ModSuccessor(j - 1, n);
    }
  }

  /** The first step from the reset point lands on position 0. */
  lemma AdvanceOnce<T>(c: Cursor<T>, order: seq<nat>)
    requires Valid(c) && ChainIs(c, order)
    requires |order| == c.size > 0
    requires IsReset(c)
    ensures Consistent(Advance(c, 1), order)
    ensures Advance(c, 1).index == 0
  {
    assert Advance(c, 1) == MoveNext(c).value;
    MoveNextFromReset(c, order);
  }

  /** The cursor `j + 1` steps from the reset point is consistent at the
      position `j` counted round the chain. */
  ghost predicate RoundAt<T>(c: Cursor<T>, order: seq<nat>, j: nat)
    requires Valid(c) && c.size > 0
  {
    Consistent(Advance(c, j + 1), order) && Advance(c, j + 1).index == CountRound(j, c.size)
  }

  /** One more step from a consistent state counts one further round. */
  lemma AdvanceStep<T>(c: Cursor<T>, order: seq<nat>, j: nat)
    requires Valid(c) && c.size > 0
    requires RoundAt(c, order, j)
    ensures RoundAt(c, order, j + 1)
  {
    MoveNextKeepsConsistency(Advance(c, j + 1), order);
  }

  /** From the reset point, the `j + 1`-th step forward leaves the cursor
      consistent at the position `j` counted round the chain. */
  lemma {:induction false} AdvanceGoesRound<T>(c: Cursor<T>, order: seq<nat>, j: nat)
    requires Valid(c) && ChainIs(c, order)
    requires |order| == c.size > 0
    requires IsReset(c)
    ensures RoundAt(c, order, j)
  {
    if j == 0 {
      AdvanceOnce(c, order);
    } else {
      AdvanceGoesRound(c, order, j - 1);
      AdvanceStep(c, order, j - 1);
    }
  }

  /** After `j + 1` steps the index has counted `j` places round. */
  ghost predicate IndexAt<T>(c: Cursor<T>, j: nat)
    requires Valid(c) && c.size > 0
  {
    Advance(c, j + 1).index == CountRound(j, c.size)
  }

  /** One more step forward counts the index one further round. */
  lemma IndexStep<T>(c: Cursor<T>, j: nat)
    requires Valid(c) && c.size > 0
    requires IndexAt(c, j)
    ensures IndexAt(c, j + 1)
  {
    assert Advance(c, j + 2) == MoveNext(Advance(c, j + 1)).value;
  }

  lemma {:induction false} ResetIndexCounts<T>(c: Cursor<T>, j: nat)
    requires Valid(c) && c.size > 0 && IsReset(c)
    ensures IndexAt(c, j)
  {
    if j == 0 {
      assert Advance(c, 1) == MoveNext(c).value;
    } else {
      ResetIndexCounts(c, j - 1);
      IndexStep(c, j - 1);
    }
  }

  /** The index law needs no chain: from the reset point of any non-empty
      cursor, stale size after `remove` included, the `k`-th step forward
      (`k >= 1`) stores the index `(k - 1) mod size`. */
  lemma ResetIndexCycles<T>(c: Cursor<T>, k: nat)
    requires Valid(c) && c.size > 0 && IsReset(c)
    requires k >= 1
    ensures Advance(c, k).index == (k - 1) % c.size
  {
    ResetIndexCounts(c, k - 1);
    CountRoundIsMod(k - 1, c.size);
  }

  /** Unbounded wrapping: from the reset point, after `k >= 1` steps the
      cursor is consistent at index `(k - 1) mod n`, however many times it
      has gone round. */
  lemma AdvanceFromReset<T>(c: Cursor<T>, order: seq<nat>, k: nat)
    requires Valid(c) && ChainIs(c, order)
    requires |order| == c.size > 0
    requires IsReset(c)
    requires k >= 1
    ensures Consistent(Advance(c, k), order)
    ensures Advance(c, k).index == (k - 1) % c.size
  {
    AdvanceGoesRound(c, order, k - 1);
    ResetIndexCycles(c, k);
  }

  /** ... and reads the value at position `(k - 1) mod n` of the chain. */
  lemma AdvanceFromResetReads<T>(c: Cursor<T>, order: seq<nat>, k: nat)
    requires Valid(c) && ChainIs(c, order)
    requires |order| == c.size > 0
    requires IsReset(c)
    requires k >= 1
    ensures GetCurrentValue(Advance(c, k)) == Success(ValuesAlong(c.arena, order)[(k - 1) % c.size])
  {
    AdvanceFromReset(c, order, k);
    ConsistentReads(Advance(c, k), order);
  }
}
