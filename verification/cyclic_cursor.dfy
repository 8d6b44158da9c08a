/** The cyclic cursor: a wrapping position over a doubly linked chain of
    cells that is built once from a sequence of values.

    The chain's cells live in an arena (`arena`); `first`, `last`, `current`
    and every cell link name arena slots. A cell spliced out by `Remove`
    stays in the arena with its own links intact, as the unlinked Java object
    does, and later moves from it follow those links. */
module CyclicCursor {
  import opened Results
  import opened JavaInt
  import Nodes

  /** The index value that marks the reset point. */
  const ResetIndex: int := -1

  datatype CursorError =
    /** `NoSuchElementException` from `GetCurrentValue`, raised at the reset
        point (`atResetPoint`) or at a missing cell. */
    | NoSuchElement(atResetPoint: bool)
    /** `ArithmeticException` from `Math.floorMod` by a size of zero. */
    | ArithmeticFault

  datatype Cursor<T> = Cursor(
    arena: seq<Nodes.Node<T>>,
    first: Option<nat>,
    last: Option<nat>,
    current: Option<nat>,
    index: int,
    size: nat)

  ghost predicate LinkIn(link: Option<nat>, bound: nat) {
    link.None? || link.value < bound
  }

  /** Every `next` link points to a later arena slot and every `previous`
      link to an earlier one. Construction creates links of this shape and
      `Remove` only ever copies a cell's links to its neighbours, so the
      chain can never close into a loop. */
  ghost predicate LinksOrdered<T>(arena: seq<Nodes.Node<T>>) {
    forall i :: 0 <= i < |arena| ==>
      && (arena[i].next.Some? ==> i < arena[i].next.value < |arena|)
      && (arena[i].previous.Some? ==> arena[i].previous.value < i)
  }

  /** The representation invariant: what Java object references guarantee
      for free, plus the facts every reachable cursor keeps. The arena holds
      one cell per constructed element (removal never shrinks it), and an
      index outside [-1, size) only occurs with no current cell. */
  ghost predicate Valid<T>(c: Cursor<T>) {
    && |c.arena| == c.size
    && c.size <= MaxInt
    && IsInt(c.index)
    && LinkIn(c.first, c.size)
    && LinkIn(c.last, c.size)
    && LinkIn(c.current, c.size)
    && LinksOrdered(c.arena)
    && (c.index == ResetIndex || 0 <= c.index < c.size || c.current.None?)
  }

  predicate IsReset<T>(c: Cursor<T>) {
    c.index == ResetIndex
  }

  /** "First" and "last" are judged by the index, never by the cell. */
  predicate IsFirst<T>(c: Cursor<T>) {
    c.index == 0
  }

  predicate IsLast<T>(c: Cursor<T>) {
    c.index == c.size - 1
  }

  /** `c` is what the constructor makes of `values` and `startingIndex`:
      one cell per element in input order, each linked to its neighbours,
      the current cell set only when `startingIndex` names an element, and
      the index stored exactly as given. */
  ghost predicate BuiltFrom<T>(c: Cursor<T>, values: seq<T>, startingIndex: int) {
    var n := |values|;
    && |c.arena| == n
    && (forall i :: 0 <= i < n ==>
          c.arena[i] == Nodes.Node(values[i],
                                   if i + 1 < n then Some(i + 1) else None,
                                   if 0 < i then Some(i - 1) else None))
    && c.first == (if n > 0 then Some(0) else None)
    && c.last == (if n > 0 then Some(n - 1) else None)
    && c.current == (if 0 <= startingIndex < n then Some(startingIndex) else None)
    && c.index == startingIndex
    && c.size == n
  }

  /** The constructor: one pass over `values` that appends a cell and links
      it behind the previous one. The one-argument constructor is
      `Construct(values, ResetIndex)`. */
  method Construct<T>(values: seq<T>, startingIndex: int) returns (c: Cursor<T>)
    requires |values| <= MaxInt
    requires IsInt(startingIndex)
    ensures BuiltFrom(c, values, startingIndex)
    ensures Valid(c)
  {
    var arena: seq<Nodes.Node<T>> := [];
    var first: Option<nat> := None;
    var tail: Option<nat> := None;
    var current: Option<nat> := None;
    var count := 0;
    while count < |values|
      invariant count == |arena| <= |values|
      invariant forall i :: 0 <= i < count ==>
                  arena[i] == Nodes.Node(values[i],
                                         if i + 1 < count then Some(i + 1) else None,
                                         if 0 < i then Some(i - 1) else None)
      invariant first == (if count > 0 then Some(0) else None)
      invariant tail == (if count > 0 then Some(count - 1) else None)
      invariant current == (if 0 <= startingIndex < count then Some(startingIndex) else None)
    {
      var node := Nodes.NewNode(values[count]);
      if first.None? {
        first := Some(count);
      } else {
        arena := arena[tail.value := Nodes.SetNext(arena[tail.value], Some(count))];
        node := Nodes.SetPrevious(node, tail);
      }
      arena := arena + [node];
      tail := Some(count);
      if count == startingIndex {
        current := Some(count);
      }
      count := count + 1;
    }
    c := Cursor(arena, first, tail, current, startingIndex, count);
  }

  /** Bounded one-pass mode: true at the reset point of a non-empty chain,
      or when the current cell has a `next` link. It is false at the last
      cell even though `MoveNext` would wrap from there. */
  predicate HasNext<T>(c: Cursor<T>)
    requires Valid(c)
  {
    || (IsReset(c) && c.first.Some?)
    || (c.current.Some? && Nodes.HasNext(c.arena[c.current.value]))
  }

  predicate HasPrevious<T>(c: Cursor<T>)
    requires Valid(c)
  {
    || (IsReset(c) && c.last.Some?)
    || (c.current.Some? && Nodes.HasPrevious(c.arena[c.current.value]))
  }

  /** Wrapping step forward. Only the current cell and the index change; the
      new index is `floorMod(index + 1, size)` in `int` arithmetic, so a size
      of zero fails. */
  function MoveNext<T>(c: Cursor<T>): (r: Result<Cursor<T>, CursorError>)
    requires Valid(c)
    ensures r.Failure? <==> c.size == 0
    ensures r.Failure? ==> r.error == ArithmeticFault
    ensures r.Success? ==>
      var d := r.value;
      && Valid(d)
      && d == c.(current := d.current, index := d.index)
      && 0 <= d.index < c.size
      && d.index == Add(c.index, 1) % c.size
      && (IsReset(c) ==> d.current == c.first && d.index == 0)
      && (!IsReset(c) && c.current.Some? && !IsLast(c) ==>
            d.current == c.arena[c.current.value].next)
      && (!IsReset(c) && (c.current.None? || IsLast(c)) ==> d.current == c.first)
      && (0 <= c.index < c.size - 1 ==> d.index == c.index + 1)
      && (IsLast(c) ==> d.index == 0)
  {
    if c.size == 0 then
      Failure(ArithmeticFault)
    else
      var node :=
        if IsReset(c) then c.first
        else if c.current.Some? && !IsLast(c) then c.arena[c.current.value].next
        else c.first;
      Success(c.(current := node, index := FloorMod(Add(c.index, 1), c.size)))
  }

  /** Wrapping step backward: the mirror image of `MoveNext`, with the index
      becoming `floorMod(index - 1, size)`. From the reset point that is
      `floorMod(-2, size)`, not `size - 1`, although the cell moved to is
      the last one. */
  function MovePrevious<T>(c: Cursor<T>): (r: Result<Cursor<T>, CursorError>)
    requires Valid(c)
    ensures r.Failure? <==> c.size == 0
    ensures r.Failure? ==> r.error == ArithmeticFault
    ensures r.Success? ==>
      var d := r.value;
      && Valid(d)
      && d == c.(current := d.current, index := d.index)
      && 0 <= d.index < c.size
      && d.index == Add(c.index, -1) % c.size
      && (IsReset(c) ==> d.current == c.last && d.index == FloorMod(-2, c.size))
      && (IsReset(c) && c.size >= 2 ==> d.index == c.size - 2)
      && (!IsReset(c) && c.current.Some? && !IsFirst(c) ==>
            d.current == c.arena[c.current.value].previous)
      && (!IsReset(c) && (c.current.None? || IsFirst(c)) ==> d.current == c.last)
      && (0 < c.index < c.size ==> d.index == c.index - 1)
      && (IsFirst(c) ==> d.index == c.size - 1)
  {
    if c.size == 0 then
      Failure(ArithmeticFault)
    else
      var node :=
        if IsReset(c) then c.last
        else if c.current.Some? && !IsFirst(c) then c.arena[c.current.value].previous
        else c.last;
      Success(c.(current := node, index := FloorMod(Add(c.index, -1), c.size)))
  }

  /** The current cell's value; fails at the reset point even when a current
      cell is still remembered, and fails when there is no current cell. */
  function GetCurrentValue<T>(c: Cursor<T>): (r: Result<T, CursorError>)
    requires Valid(c)
    ensures r.Failure? <==> IsReset(c) || c.current.None?
    ensures r.Failure? ==> r.error == NoSuchElement(IsReset(c))
    ensures r.Success? ==> r.value == c.arena[c.current.value].value
  {
    if IsReset(c) then
      Failure(NoSuchElement(true))
    else if c.current.None? then
      Failure(NoSuchElement(false))
    else
      Success(c.arena[c.current.value].value)
  }

  /** Back to the reset point. The current cell is kept; only the index
      changes. */
  function Reset<T>(c: Cursor<T>): (r: Cursor<T>)
    requires Valid(c)
    ensures Valid(r)
    ensures IsReset(r)
    ensures r.arena == c.arena && r.current == c.current
    ensures r.first == c.first && r.last == c.last && r.size == c.size
  {
    c.(index := ResetIndex)
  }

  /** Overwrites the value of the current cell, even at the reset point;
      without a current cell nothing happens. */
  function Set<T>(c: Cursor<T>, value: T): (r: Cursor<T>)
    requires Valid(c)
    ensures Valid(r)
    ensures c.current.None? ==> r == c
    ensures r == c.(arena := r.arena)
    ensures |r.arena| == |c.arena|
    ensures c.current.Some? ==>
      && r.arena[c.current.value].value == value
      && r.arena[c.current.value].next == c.arena[c.current.value].next
      && r.arena[c.current.value].previous == c.arena[c.current.value].previous
    ensures forall i :: 0 <= i < |c.arena| && c.current != Some(i) ==> r.arena[i] == c.arena[i]
  {
    match c.current
    case None => c
    case Some(p) => c.(arena := c.arena[p := Nodes.SetValue(c.arena[p], value)])
  }

  /** `arena` with the `previous` link of the cell in `slot` (if any) set. */
  function WithPrevious<T>(arena: seq<Nodes.Node<T>>, slot: Option<nat>, link: Option<nat>): (r: seq<Nodes.Node<T>>)
    requires LinkIn(slot, |arena|)
    ensures |r| == |arena|
    ensures forall i :: 0 <= i < |arena| ==>
      r[i] == if slot == Some(i) then Nodes.SetPrevious(arena[i], link) else arena[i]
  {
    if slot.Some? then arena[slot.value := Nodes.SetPrevious(arena[slot.value], link)] else arena
  }

  /** `arena` with the `next` link of the cell in `slot` (if any) set. */
  function WithNext<T>(arena: seq<Nodes.Node<T>>, slot: Option<nat>, link: Option<nat>): (r: seq<Nodes.Node<T>>)
    requires LinkIn(slot, |arena|)
    ensures |r| == |arena|
    ensures forall i :: 0 <= i < |arena| ==>
      r[i] == if slot == Some(i) then Nodes.SetNext(arena[i], link) else arena[i]
  {
    if slot.Some? then arena[slot.value := Nodes.SetNext(arena[slot.value], link)] else arena
  }

  /** Linking the cell in slot `p`'s neighbours to each other keeps every
      link pointing the right way, because `previous < p < next`. */
  lemma SpliceKeepsLinksOrdered<T>(arena: seq<Nodes.Node<T>>, p: nat)
    requires LinksOrdered(arena)
    requires p < |arena|
    ensures LinksOrdered(WithNext(WithPrevious(arena, arena[p].next, arena[p].previous),
                                  arena[p].previous, arena[p].next))
  {
  }

  /** Splices the current cell out of the chain by linking its neighbours
      to each other. `first` moves only when the index is 0 and `last` only
      when it is `size - 1`. The current cell, its own links, the index and
      the size are all left as they were. */
  function Remove<T>(c: Cursor<T>): (r: Cursor<T>)
    requires Valid(c)
    ensures Valid(r)
    ensures c.current.None? ==> r == c
    ensures r.current == c.current && r.index == c.index && r.size == c.size
    ensures |r.arena| == |c.arena|
    ensures c.current.Some? ==>
      var p := c.current.value;
      var cell := c.arena[p];
      && r.arena[p] == cell
      && (cell.next.Some? ==>
            r.arena[cell.next.value] == Nodes.Node(c.arena[cell.next.value].value,
                                                   c.arena[cell.next.value].next,
                                                   cell.previous))
      && (cell.previous.Some? ==>
            r.arena[cell.previous.value] == Nodes.Node(c.arena[cell.previous.value].value,
                                                       cell.next,
                                                       c.arena[cell.previous.value].previous))
      && (forall i :: 0 <= i < |c.arena| && Some(i) != cell.next && Some(i) != cell.previous ==>
            r.arena[i] == c.arena[i])
      && r.first == (if IsFirst(c) then cell.next else c.first)
      && r.last == (if IsLast(c) then cell.previous else c.last)
  {
    match c.current
    case None => c
    case Some(p) =>
      var next := c.arena[p].next;
      var previous := c.arena[p].previous;
      SpliceKeepsLinksOrdered(c.arena, p);
      var spliced := WithNext(WithPrevious(c.arena, next, previous), previous, next);
      c.(arena := spliced,
         first := if IsFirst(c) then next else c.first,
         last := if IsLast(c) then previous else c.last)
  }
}
