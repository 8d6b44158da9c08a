# Cyclic cursor, cyclic list iterator, image filter and sort order of `ive`

`ive` is a small image viewer. This project models its core in Dafny and
proves properties of the model.

- **CyclicCursor.** A doubly linked "tape" of values with a current node
  and an index. `moveNext` and `movePrevious` wrap around forever. `hasNext`
  and `hasPrevious` follow the links, so they support a bounded one-pass
  traversal. `reset` goes back to a sentinel index -1. `set` and `remove`
  act on the current node.
- **CyclicListIterator.** A `ListIterator` over a list that restarts at the
  front after the end, and at the back before the front.
- **ImageFilter.** Keeps regular files whose name ends with `.png`, `.jpg` or
  `.jpeg`.
- **SortOrder.** The six orders the image list can be sorted in: by name,
  modification time or length, each ascending or reversed.

## How the model is built

- **Arena.** Nodes live in a sequence (`Cursor.arena`). The links `next`,
  `previous`, `first`, `last` and `current` are optional slot numbers. The
  constructor fills slot `i` with element `i`.
- **Representation invariant.** `CyclicCursor.Valid` says:
  - every link lies in the arena;
  - a `next` link always points to a later slot and a `previous` link to an
    earlier one (`remove` keeps this);
  - the index is a Java `int`;
  - an index outside `[-1, size)` only occurs with no current node.

  Because links only point forward, the one-pass loop terminates on every
  cursor, even after removals and drifted moves.
- **Chains.** `CursorChain.ChainIs(c, order)` reads the chain off the links:
  `order` lists the slots from `first` to `last`.
  `CursorChain.Consistent(c, order)` adds that the index is the position of
  the current node in that chain, and the chain is as long as `size`. The
  wrapping laws are stated for consistent cursors.
- **Drift, modelled as written.** The code lets the index and the node come
  apart in three ways, and the model reproduces each:
  - `movePrevious` from the reset point stores `floorMod(-2, size)` while
    standing on the last node. That is `size - 2` for two or more nodes;
    with one node it is 0 and the cursor stays consistent.
  - A starting index outside `[-1, size)` leaves no current node but keeps
    the index.
  - `remove` splices the node out but leaves `size`, the index and the
    current node unchanged.

  Lemmas show the effect of each.
- **Integer arithmetic.** `currentIndex + 1` and `currentIndex - 1` use
  32-bit wrap-around (`JavaInt.Add`). `Math.floorMod` is modelled
  separately (`JavaInt.FloorMod`). A divisor of 0 makes it throw
  `ArithmeticException`, which the model returns as
  `Failure(ArithmeticFault)`.
- **Behaviour kept as the code has it.**
  - Moving an empty cursor fails through `Math.floorMod`'s
    `ArithmeticException`.
  - The reset point is the index -1.
  - `getCurrentValue` fails at the reset point even when a current node is
    still remembered.
  - `remove` leaves `size`, the index and the current node stale.
- **Inputs as record fields.** The filesystem is not modelled. A file is a
  `Files.FileEntry` with its name, `isFile`, `lastModified` and `length`
  given as fields.

## Model

| member | source | states |
|---|---|---|
| `JavaInt.Add` | src/main/java/pl/pitcer/ive/image/cursor/cyclic/CyclicCursor.java:87 | `int` addition: the sum when it fits in 32 bits, otherwise the sum shifted by 2^32 into the `int` range |
| `JavaInt.FloorMod` | src/main/java/pl/pitcer/ive/image/cursor/cyclic/CyclicCursor.java:87 | `Math.floorMod` for a positive divisor: the result is `x mod m` for every `x`, so it lies in `[0, m)`; in particular it is `x` itself for `x` in `[0, m)`, `x + m` just below 0 and `x - m` just above `m` |
| `Nodes.NewNode` | src/main/java/pl/pitcer/ive/image/cursor/cyclic/Node.java:42-44 | a new node holds the value and has neither neighbour |
| `Nodes.SetValue` | src/main/java/pl/pitcer/ive/image/cursor/cyclic/Node.java:76-78 | replaces the value and leaves both links alone |
| `Nodes.SetNext` | src/main/java/pl/pitcer/ive/image/cursor/cyclic/Node.java:55-57 | replaces the `next` link only; `hasNext` afterwards is whether a link was given |
| `Nodes.SetPrevious` | src/main/java/pl/pitcer/ive/image/cursor/cyclic/Node.java:68-70 | replaces the `previous` link only; `hasPrevious` afterwards is whether a link was given |
| `Nodes.HasNext` | src/main/java/pl/pitcer/ive/image/cursor/cyclic/Node.java:46-48 | whether the node has a `next` link; `Nodes.SetNext` states it holds afterwards exactly when a link was given |
| `Nodes.HasPrevious` | src/main/java/pl/pitcer/ive/image/cursor/cyclic/Node.java:59-61 | whether the node has a `previous` link; `Nodes.SetPrevious` states it holds afterwards exactly when a link was given |
| `CyclicCursor.Construct` | src/main/java/pl/pitcer/ive/image/cursor/cyclic/CyclicCursor.java:48-71 | the constructor loop builds one node per element in order, linked to its neighbours; the current node is set only when the starting index names an element; the index is stored as given; the result satisfies the invariant |
| `CyclicCursor.IsReset` | src/main/java/pl/pitcer/ive/image/cursor/cyclic/CyclicCursor.java:168-170 | the index is the sentinel -1; `CursorChain.ConstructedStart` and `ResetRestartsFromEnds` show it is the position before the first node, with no value |
| `CyclicCursor.IsFirst` | src/main/java/pl/pitcer/ive/image/cursor/cyclic/CyclicCursor.java:160-162 | the index is 0; on a consistent cursor that is the first node of the chain (`CursorChain.HasNextOnChain`: `hasPrevious` is false exactly there) |
| `CyclicCursor.IsLast` | src/main/java/pl/pitcer/ive/image/cursor/cyclic/CyclicCursor.java:164-166 | the index is `size - 1`; on a consistent cursor that is the last node (`CursorChain.HasNextOnChain`: `hasNext` is false exactly there) |
| `CyclicCursor.HasNext` | src/main/java/pl/pitcer/ive/image/cursor/cyclic/CyclicCursor.java:73-76 | true at the reset point of a non-empty chain or when the current node has a `next` link; `CursorChain.HasNextOnChain` shows it does not wrap: on a consistent cursor it holds iff the index is below `size - 1`, and at reset iff the chain is non-empty |
| `CyclicCursor.HasPrevious` | src/main/java/pl/pitcer/ive/image/cursor/cyclic/CyclicCursor.java:90-93 | the mirror image of `HasNext`; `CursorChain.HasNextOnChain` shows it holds on a consistent cursor iff the index is above 0 |
| `CyclicCursor.MoveNext` | src/main/java/pl/pitcer/ive/image/cursor/cyclic/CyclicCursor.java:79-88 | fails exactly on an empty cursor; otherwise only the current node and the index change. From reset it goes to `first`. On a node that is not last it follows `next`. Otherwise it goes to `first`. The new index is `(index + 1) mod size`, with `index + 1` taken in `int` arithmetic, for every index, drifted ones included |
| `CyclicCursor.MovePrevious` | src/main/java/pl/pitcer/ive/image/cursor/cyclic/CyclicCursor.java:96-105 | the mirror image of `MoveNext`: the new index is `(index - 1) mod size` in `int` arithmetic for every index; from reset it reaches `last` with index `floorMod(-2, size)`, which is `size - 2` for two or more nodes |
| `CyclicCursor.GetCurrentValue` | src/main/java/pl/pitcer/ive/image/cursor/cyclic/CyclicCursor.java:108-116 | fails exactly at the reset point or with no current node, with the error telling the two apart; otherwise returns the current node's value |
| `CyclicCursor.Reset` | src/main/java/pl/pitcer/ive/image/cursor/cyclic/CyclicCursor.java:128-131 | sets the index to -1 and changes nothing else |
| `CyclicCursor.Set` | src/main/java/pl/pitcer/ive/image/cursor/cyclic/CyclicCursor.java:133-138 | a no-op without a current node; otherwise only the current node's value changes |
| `CyclicCursor.Remove` | src/main/java/pl/pitcer/ive/image/cursor/cyclic/CyclicCursor.java:141-158 | a no-op without a current node; otherwise the neighbours are linked to each other; `first` and `last` move only when the index says first or last; every other node, the current node, the index and the size are unchanged; the invariant is kept |
| `CursorChain.ConstructedIsValid` | src/main/java/pl/pitcer/ive/image/cursor/cyclic/CyclicCursor.java:48-71 | every constructed cursor satisfies the representation invariant |
| `CursorChain.ConstructedChain` | src/main/java/pl/pitcer/ive/image/cursor/cyclic/CyclicCursor.java:48-71 | walking a constructed cursor's links from `first` to `last` yields exactly the input values in input order |
| `CursorChain.ConstructedStart` | src/main/java/pl/pitcer/ive/image/cursor/cyclic/CyclicCursor.java:48-71 | the size is the number of values; a starting index inside the input is a consistent position reading that value; the default start is the reset point, which has no value |
| `CursorChain.ConsistentReads` | src/main/java/pl/pitcer/ive/image/cursor/cyclic/CyclicCursor.java:108-116 | a consistent cursor reads the value at its index's position of the chain |
| `CursorChain.MoveNextFromReset` | src/main/java/pl/pitcer/ive/image/cursor/cyclic/CyclicCursor.java:79-88 | from the reset point of a full-length chain, `moveNext` is consistent at position 0 |
| `CursorChain.MoveNextKeepsConsistency` | src/main/java/pl/pitcer/ive/image/cursor/cyclic/CyclicCursor.java:79-88 | from a consistent position `moveNext` stays consistent; it steps to position `index + 1`, or to 0 from the last position |
| `CursorChain.MovePreviousKeepsConsistency` | src/main/java/pl/pitcer/ive/image/cursor/cyclic/CyclicCursor.java:96-105 | from a consistent position `movePrevious` stays consistent; it steps to position `index - 1`, or to the last position from 0 |
| `CursorChain.NextThenPreviousRestores` | src/main/java/pl/pitcer/ive/image/cursor/cyclic/CyclicCursor.java:79-105 | from a consistent position, `moveNext` then `movePrevious` gives back the identical cursor, across the wrap too |
| `CursorChain.PreviousThenNextRestores` | src/main/java/pl/pitcer/ive/image/cursor/cyclic/CyclicCursor.java:79-105 | from a consistent position, `movePrevious` then `moveNext` gives back the identical cursor |
| `CursorChain.HasNextOnChain` | src/main/java/pl/pitcer/ive/image/cursor/cyclic/CyclicCursor.java:73-93 | `hasNext` and `hasPrevious` do not wrap. On a consistent cursor `hasNext` is false exactly on the last position and `hasPrevious` exactly on the first. At the reset point both hold exactly when the chain is non-empty |
| `CursorChain.MovePreviousFromResetDrifts` | src/main/java/pl/pitcer/ive/image/cursor/cyclic/CyclicCursor.java:96-104 | with two or more nodes, `movePrevious` from reset stands on the last node with index `size - 2` and is not consistent with the chain |
| `CursorChain.PreviousThenNextFromResetLosesCell` | src/main/java/pl/pitcer/ive/image/cursor/cyclic/CyclicCursor.java:79-104 | after that drift, `moveNext` follows the last node's missing `next` link: there is no current node and reading fails |
| `CursorChain.MovePreviousFromResetSingleton` | src/main/java/pl/pitcer/ive/image/cursor/cyclic/CyclicCursor.java:96-104 | with exactly one node, `movePrevious` from reset is consistent, since `floorMod(-2, 1)` is 0 |
| `CursorChain.OutOfRangeStart` | src/main/java/pl/pitcer/ive/image/cursor/cyclic/CyclicCursor.java:48-88 | a starting index outside `[-1, n)` leaves no current node and keeps the index; reading fails; `hasNext` and `hasPrevious` are false; `moveNext` lands on `first` with index `floorMod(start + 1, n)` in `int` arithmetic, which is `(start + 1) mod n` below the `int` maximum |
| `CursorChain.ResetRestartsFromEnds` | src/main/java/pl/pitcer/ive/image/cursor/cyclic/CyclicCursor.java:128-131 | after `reset`, reading fails, `moveNext` is consistent at position 0, and `movePrevious` reaches the last node of the chain |
| `CursorChain.SetThenGet` | src/main/java/pl/pitcer/ive/image/cursor/cyclic/CyclicCursor.java:133-138 | off the reset point and with a current node, reading after `set(v)` returns `v` |
| `CursorChain.SetKeepsChain` | src/main/java/pl/pitcer/ive/image/cursor/cyclic/CyclicCursor.java:133-138 | `set` leaves the chain, and consistency with it, untouched |
| `CursorChain.RemoveKeepsOtherCells` | src/main/java/pl/pitcer/ive/image/cursor/cyclic/CyclicCursor.java:141-158 | on a consistent cursor, `remove` changes no node other than the removed one's two neighbours |
| `CursorChain.RemoveSplicesCurrent` | src/main/java/pl/pitcer/ive/image/cursor/cyclic/CyclicCursor.java:141-158 | on a consistent cursor, the chain after `remove` is the old chain without the current position; it is one shorter than the unchanged size; the current node and the index are unchanged, and the removed value is still read |
| `CursorIteration.Collect` | src/test/java/pl/pitcer/ive/image/cursor/cyclic/CyclicCursorTest.java:46-55 | the `while hasNext { moveNext; getCurrentValue }` loop stops on every valid cursor and leaves the list unchanged; on success `hasNext` is false at the end. From the reset point of a full-length chain it returns exactly the chain's values in order, and stops consistent on the last position |
| `CursorIteration.CollectConstructed` | src/test/java/pl/pitcer/ive/image/cursor/cyclic/CyclicCursorTest.java:46-63 | the one-pass loop on a freshly built cursor returns the input values, each once, in order |
| `CursorIteration.StepAfterWrap` | src/main/java/pl/pitcer/ive/image/cursor/cyclic/CyclicCursor.java:74-88 | once the loop has wrapped, a step that `hasNext` allows is not another wrap and moves to a later arena slot |
| `CursorIteration.ResetIndexCycles` | src/main/java/pl/pitcer/ive/image/cursor/cyclic/CyclicCursor.java:79-88 | from the reset point of any non-empty cursor, also after `remove` left `size` stale, after `k >= 1` calls of `moveNext` the index is `(k - 1) mod size` |
| `CursorIteration.AdvanceFromReset` | src/main/java/pl/pitcer/ive/image/cursor/cyclic/CyclicCursor.java:79-88 | from the reset point of a full-length chain, after `k >= 1` calls of `moveNext` the cursor is consistent at index `(k - 1) mod n`, however often it has wrapped |
| `CursorIteration.AdvanceFromResetReads` | src/main/java/pl/pitcer/ive/image/cursor/cyclic/CyclicCursor.java:79-116 | ... and reads the chain's value at position `(k - 1) mod n` |
| `CursorTraces.ConstructedMovesFromElement` | src/test/java/pl/pitcer/ive/image/cursor/cyclic/CyclicCursorTest.java:74-105 | built at element `s`, the cursor reads `values[s]`; one `moveNext` reads the following element, wrapping from last to first; one `movePrevious` reads the preceding one, wrapping from first to last |
| `CursorTraces.ConstructedMovesFromReset` | src/test/java/pl/pitcer/ive/image/cursor/cyclic/CyclicCursorTest.java:65-87 | built at the reset point, the cursor has no value; the first `moveNext` reads the first element and the first `movePrevious` the last |
| `CursorTraces.FarStartMovesModSize` | src/main/java/pl/pitcer/ive/image/cursor/cyclic/CyclicCursor.java:48-88 | five values built with starting index 100: the first `moveNext` lands on the first node with index `floorMod(101, 5) == 1`, so the index and the node disagree |
| `CyclicListIterator.New` | src/main/java/pl/pitcer/ive/image/list/CyclicListIterator.java:39-42 | succeeds exactly for a starting index in `[0, size]`, which becomes `nextIndex`; otherwise fails with that index out of bounds |
| `CyclicListIterator.NewAtStart` | src/main/java/pl/pitcer/ive/image/list/CyclicListIterator.java:35-37 | the one-argument constructor is the starting index 0: nothing before, `nextIndex` 0 |
| `CyclicListIterator.HasNext` | src/main/java/pl/pitcer/ive/image/list/CyclicListIterator.java:44-47 | asks the wrapped iterator, so it does not wrap: `NextIndex` states it holds iff the gap is before the end, and `NextWrapsOnlyAtEnd` that `next` wraps exactly when it is false |
| `CyclicListIterator.HasPrevious` | src/main/java/pl/pitcer/ive/image/list/CyclicListIterator.java:57-60 | asks the wrapped iterator: `PreviousIndex` states it holds iff the gap is after the front, and `PreviousWrapsOnlyAtStart` that `previous` wraps exactly when it is false |
| `CyclicListIterator.NextIndex` | src/main/java/pl/pitcer/ive/image/list/CyclicListIterator.java:72-74 | lies in `[0, size]`, and below `size` exactly when `hasNext` holds |
| `CyclicListIterator.PreviousIndex` | src/main/java/pl/pitcer/ive/image/list/CyclicListIterator.java:77-79 | is `nextIndex - 1`, and non-negative exactly when `hasPrevious` holds |
| `CyclicListIterator.Next` | src/main/java/pl/pitcer/ive/image/list/CyclicListIterator.java:50-55 | fails exactly on an empty list; otherwise returns `list[nextIndex mod size]` and moves `nextIndex` just past it |
| `CyclicListIterator.Previous` | src/main/java/pl/pitcer/ive/image/list/CyclicListIterator.java:63-69 | fails exactly on an empty list; otherwise returns `list[(nextIndex - 1) mod size]` and moves `nextIndex` onto it |
| `CyclicListIterator.NextWrapsOnlyAtEnd` | src/main/java/pl/pitcer/ive/image/list/CyclicListIterator.java:44-55 | `next` advances the gap by one exactly when `hasNext` holds; at the end it returns `list[0]` and leaves `nextIndex` 1 |
| `CyclicListIterator.PreviousWrapsOnlyAtStart` | src/main/java/pl/pitcer/ive/image/list/CyclicListIterator.java:57-69 | `previous` moves the gap back by one exactly when `hasPrevious` holds; at the front it returns the last element and leaves `nextIndex` at `size - 1` |
| `CyclicListIterator.ReturnedElementIsAdjacent` | src/main/java/pl/pitcer/ive/image/list/CyclicListIterator.java:50-79 | the element `next` returned is at `previousIndex` afterwards; the one `previous` returned is at `nextIndex` |
| `CyclicListIterator.NextThenPrevious` | src/main/java/pl/pitcer/ive/image/list/CyclicListIterator.java:50-69 | `previous` after `next` returns the same element and restores the gap, the end counting as the front |
| `CyclicListIterator.PreviousThenNext` | src/main/java/pl/pitcer/ive/image/list/CyclicListIterator.java:50-69 | `next` after `previous` returns the same element and restores the gap, the front counting as the end |
| `CyclicListIterator.KthNext` | src/main/java/pl/pitcer/ive/image/list/CyclicListIterator.java:35-55 | from starting index `s`, the `k`-th `next` returns `list[(s + k - 1) mod size]`, so from a fresh iterator `list[(k - 1) mod size]` |
| `CyclicListIterator.FirstNextFromStart` | src/main/java/pl/pitcer/ive/image/list/CyclicListIterator.java:39-55 | the first `next` after the constructor with starting index `k` inside the list returns `list[k]` |
| `ImageFilter.EndsWith` | src/main/java/pl/pitcer/ive/image/loader/ImageFilter.java:44 | `String.endsWith`: the name's tail equals the suffix; `ImageFilter.EndsWithIsConcatenation` states this holds iff the name is some stem followed by the suffix |
| `ImageFilter.EndsWithIsConcatenation` | src/main/java/pl/pitcer/ive/image/loader/ImageFilter.java:44 | `endsWith(suffix)` holds exactly when the name is some stem followed by the suffix |
| `ImageFilter.Accept` | src/main/java/pl/pitcer/ive/image/loader/ImageFilter.java:38-45 | accepted exactly when the file is a regular file and its name is a stem followed by one of the image extensions |
| `ImageFilter.AcceptsExactlyImageExtensions` | src/main/java/pl/pitcer/ive/image/loader/ImageFilter.java:36-45 | the extension set spelled out: a regular file is accepted exactly when its name ends in `.png`, `.jpg` or `.jpeg` |
| `ImageFilter.RejectsNonFiles` | src/main/java/pl/pitcer/ive/image/loader/ImageFilter.java:40-42 | anything that is not a regular file is rejected whatever its name |
| `ImageFilter.SuffixExamples` | src/main/java/pl/pitcer/ive/image/loader/ImageFilter.java:36-44 | `image.png` and `photo.jpeg` are accepted; `x.PNG`, `x.png.txt`, `png`, `test.txt` and a non-file `image.png` are rejected: matching is exact, case-sensitive and on the tail only |
| `SortOrder.AllOrdersListsEachOnce` | src/main/java/pl/pitcer/ive/image/loader/SortOrder.java:32-50 | there are six orders, every order is listed, and no two share a menu name |
| `SortOrder.MenuName` | src/main/java/pl/pitcer/ive/image/loader/SortOrder.java:32-50 | the menu name given to each order; `SortOrder.AllOrdersListsEachOnce` states no two orders share one |
| `SortOrder.StringCompareTo` | src/main/java/pl/pitcer/ive/image/loader/SortOrder.java:58 | the name comparison is 0 exactly for equal names |
| `SortOrder.CompareToIsAntisymmetric` | src/main/java/pl/pitcer/ive/image/loader/SortOrder.java:58 | swapping the names negates the comparison |
| `SortOrder.CompareToIsLexicographic` | src/main/java/pl/pitcer/ive/image/loader/SortOrder.java:58 | the comparison is negative exactly when the first name is lexicographically smaller: a proper prefix, or smaller at the first differing character |
| `SortOrder.CompareToIsTransitive` | src/main/java/pl/pitcer/ive/image/loader/SortOrder.java:58 | the name comparison is transitive |
| `SortOrder.LongCompare` | src/main/java/pl/pitcer/ive/image/loader/SortOrder.java:59-60 | `Long.compare` is negative exactly when the first value is smaller, and 0 exactly when the two are equal |
| `SortOrder.Ascending` | src/main/java/pl/pitcer/ive/image/loader/SortOrder.java:32-37 | every order has an ascending counterpart on the same key |
| `SortOrder.CompareByKey` | src/main/java/pl/pitcer/ive/image/loader/SortOrder.java:56-61 | the three key comparators, names by `String.compareTo` and times and lengths by `Long.compare`; `SortOrder.ComparesByKey` states which file comes first under each |
| `SortOrder.Compare` | src/main/java/pl/pitcer/ive/image/loader/SortOrder.java:32-54 | the comparator `getComparator` returns, descending orders reversed; `SortOrder.ComparesByKey`, `DescendingIsReversed` and `IsComparator` characterise it |
| `SortOrder.ComparesByKey` | src/main/java/pl/pitcer/ive/image/loader/SortOrder.java:32-60 | for each of the six orders, which file comes first: by lexicographic name, by time or by length, ascending or descending |
| `SortOrder.EqualKeysCompareEqual` | src/main/java/pl/pitcer/ive/image/loader/SortOrder.java:58-60 | files compare as 0 exactly when their key is equal, under the ascending and the descending order alike; other attributes are ignored |
| `SortOrder.DescendingIsReversed` | src/main/java/pl/pitcer/ive/image/loader/SortOrder.java:33-37 | a descending order compares like its ascending order with the arguments swapped, i.e. negated |
| `SortOrder.IsComparator` | src/main/java/pl/pitcer/ive/image/loader/SortOrder.java:32-60 | every order meets the comparator contract: swapping negates, equal files stand alike against any third, and the order is transitive |

## Left out

- `getIndex` and `getSize` (CyclicCursor.java:118-126) are plain field reads. They are the `index` and `size` fields of the model.
- `CursorIterator`, `stream` and `parallelStream` (Cursor.java:54-65) are not modelled directly. What is modelled instead is the `while hasNext { moveNext; getCurrentValue }` loop of CyclicCursorTest.java:49-53, as `CursorIteration.Collect`. Stream splitting and parallelism are library behaviour.
- `CyclicListIterator` `remove`, `set` and `add` (CyclicListIterator.java:81-94) pass straight through to the wrapped list iterator and add no logic.
- The wrapped `java.util.ListIterator` is modelled by its list and gap position. Its concurrent-modification checks are not modelled.
- Both `ImageLoader` classes, the window, menus, listeners and the image view are filesystem, GUI and event code. `File.isFile`, `lastModified` and `length` are given as record fields, so the filesystem is not read.
- `Stream.sorted` with these comparators is library sorting. Only the comparators are modelled.
- `SortOrder.StringCompareTo` compares Dafny characters, which are Unicode scalar values. Java's `String.compareTo` compares UTF-16 code units, so results differ only for characters outside the Basic Multilingual Plane.
- `CyclicCursor.Construct` takes a sequence of at most 2^31 - 1 values. An `Iterable` with more elements would make Java's element count overflow. The `int` field `size` caps real lists anyway.
- `CursorIteration.Collect` proves exact output only from the reset point of a full-length chain. For other starting states, such as after `remove` or a drifted move, it proves termination, the frame and that `hasNext` is false at the end. The exact values read there depend on the drift and are not characterised.
