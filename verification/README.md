# BlockList in Dafny

A model of `BlockList<E>` (mebigfatguy's `java.util.List` stored as a sequence of fixed-capacity leaf blocks). The model covers the whole class except the parts listed under "## Left out".

- **State.** A block is the sequence of its live elements, so its length is the fill count. The Java code keeps that count in slot 0 of the leaf array; the model does not. The list state is the immutable value `BlockList(blocks, blockSize, size, revision)`. `Elements` (that is, `Blocks.Flatten`) concatenates the blocks into the logical list.
- **Invariant.** `Valid` says `blockSize >= 1`, no block exceeds `blockSize`, and `size` is the length of the logical list. Every operation that takes a valid list returns a valid one.
- **Operations.** They are pure functions or methods over this value. An operation that throws returns `Failure(IndexOutOfBounds | ConcurrentModification | IllegalState)`. An operation that changes the list returns the new list too, including when it throws: `remove(int)` bumps the revision before throwing.
- **Java semantics.** Java `null` appears as `Search.Obj.Null`. Java `equals` between two non-null objects is value equality.

Modules:

- `Blocks`: the flattening, prefix sums (`Start`) and block-editing lemmas.
- `Resolver`: the forward and backward scans of `findBlock`.
- `BlockLists`: the state, resolution, `grow`, `splitBlock`, `add`, `remove`, `get`, `set`, `clear`.
- `Search`: `indexOf`, `lastIndexOf`, `contains`, `remove(Object)`, `removeAll`.
- `Retain`: `retainAll`.
- `Equality`: `equals`.
- `Iteration`: the fail-fast iterator.
- `Snapshot`: `writeExternal`/`readExternal` over an abstract token stream.

On the following points the code behaves differently from what a `java.util.List` user would expect; the model follows the code:

- **Out-of-range insert.** `add(index, e)` with `index` outside `[0, size]` does not throw. The resolver finds no slot, a block is grown, and the element is appended (`BlockLists.Insert`).
- **Empty blocks.** Empty blocks need not trail the non-empty ones. A block emptied by removal moves to the end of the block sequence. The backward add-mode scan then fills the last of several trailing empty blocks (`BlockLists.EmptyBlockCanPrecedeFilled`).
- **`clear()`.** It leaves zero blocks, not one empty block.
- **Revision bumps.** The revision also goes up when:
  - `remove(Object)` finds nothing;
  - `remove(int)` is out of range;
  - `retainAll` removes nothing.
- **Iterator `remove()`.** It removes the element after the one `next()` returned (see Findings).
- **Snapshot round trip.** Decoding a snapshot does not always reproduce the list (see Findings).

## Model

| member | source | states |
|---|---|---|
| BlockLists.New | src/com/mebigfatguy/blocklist/BlockList.java:69-78 | a new list has the requested number of blocks, every one empty, and the requested block size. It is valid, holds no elements and has revision 0 |
| BlockLists.NewWithBlockSize | src/com/mebigfatguy/blocklist/BlockList.java:65-67 | `BlockList(blockSize)` is one empty block of the given size, valid, empty, at revision 0 |
| BlockLists.NewDefault | src/com/mebigfatguy/blocklist/BlockList.java:53-63 | `BlockList()` is one empty block of 32 slots, valid, empty, at revision 0 |
| BlockLists.FindBlock | src/com/mebigfatguy/blocklist/BlockList.java:446-472 | read mode: finds a slot exactly for indices in `[0, size)`, and the slot is the block and offset holding that position. Add mode: finds a slot for every index in `[0, size)`. At `size` it finds the end of the last block exactly when that block has room, and nothing otherwise. A found slot is a live offset or the end of a block with room. Negative or too-large indices are "not found" |
| BlockLists.FindBlockAt | src/com/mebigfatguy/blocklist/BlockList.java:446-472 | read-mode resolution of the position `Start(b) + o` of any live slot returns exactly block `b` and offset `o` |
| Resolver.ForwardScanLocates | src/com/mebigfatguy/blocklist/BlockList.java:449-458 | the forward prefix-sum scan in read mode stops at the block and offset holding logical position `i` |
| Resolver.BackwardScanLocates | src/com/mebigfatguy/blocklist/BlockList.java:459-469 | the backward scan, in either mode, stops at the block holding `i` for any `i` inside the list, never at an earlier block's end |
| Resolver.BackwardScanAtEnd | src/com/mebigfatguy/blocklist/BlockList.java:459-469 | in add mode at `i == size` the backward scan stops at the last block exactly when it has room |
| Resolver.ScansAgree | src/com/mebigfatguy/blocklist/BlockList.java:449-470 | for every position of the list the forward and backward read-mode scans return the same block and offset |
| BlockLists.Grow | src/com/mebigfatguy/blocklist/BlockList.java:474-480 | appends one empty block after all existing blocks, keeping the logical list, size and revision |
| BlockLists.SplitBlock | src/com/mebigfatguy/blocklist/BlockList.java:482-497 | the block becomes two adjacent blocks with fills `o` and `fill - o` whose concatenation is the original. Blocks before and after keep their order, the logical list is unchanged and the result is valid |
| BlockLists.InsertAt | src/com/mebigfatguy/blocklist/BlockList.java:145-158 | inserting at a resolved slot, with a split first when the block is full, puts the element at logical position `Start(b) + o`. It keeps every block within `blockSize` and bumps size and revision by one |
| BlockLists.Insert | src/com/mebigfatguy/blocklist/BlockList.java:134-159 | for `0 <= i <= size` the logical list becomes `s[..i] + [v] + s[i..]`. Outside that range `v` is appended. Size and revision each grow by one and the result is valid |
| BlockLists.Add | src/com/mebigfatguy/blocklist/BlockList.java:116-132 | appends `v` to the logical list and returns true; size and revision each grow by one and the result is valid |
| BlockLists.AddIsInsertAtEnd | src/com/mebigfatguy/blocklist/BlockList.java:116-159 | `add(v)` builds exactly the same blocks as `add(size, v)` |
| BlockLists.RemoveUndoesInsert | src/com/mebigfatguy/blocklist/BlockList.java:134-159 | for `0 <= i <= size`, `remove(i)` after `add(i, v)` returns `v` and restores the logical list |
| BlockLists.AddAll | src/com/mebigfatguy/blocklist/BlockList.java:161-167 | the logical list becomes `s + c`, the revision grows by `|c|`, and the result is true |
| BlockLists.AddAllAt | src/com/mebigfatguy/blocklist/BlockList.java:169-175 | for `0 <= i <= size` the elements land together at `i`, in order. Beyond `size` they are appended. The revision grows by `|c|` |
| BlockLists.Clear | src/com/mebigfatguy/blocklist/BlockList.java:177-186 | the list becomes empty with zero blocks, and the revision grows by one |
| BlockLists.RemoveAt | src/com/mebigfatguy/blocklist/BlockList.java:317-333 | returns `s[i]` for `i = Start(b) + o` and leaves `s[..i] + s[i+1..]`. A block whose only element is removed moves, empty, to the end of the block sequence and all other blocks keep their order. Otherwise only that block changes. Size drops by one and the revision grows by one |
| BlockLists.RemoveIndex | src/com/mebigfatguy/blocklist/BlockList.java:303-315 | succeeds exactly for `i` in `[0, size)`, returning `s[i]` and leaving `s[..i] + s[i+1..]`. Out of range it throws IndexOutOfBounds with only the revision bumped. The revision grows by one either way |
| BlockLists.RemoveIndexResolves | src/com/mebigfatguy/blocklist/BlockList.java:303-315 | removal by index is the block-level removal at the unique block and offset holding that index |
| BlockLists.EmptyBlockCanPrecedeFilled | src/com/mebigfatguy/blocklist/BlockList.java:321-323 | with block size 1, blocks `[[a],[b]]` become `[[b],[]]` then `[[],[]]` after two `remove(0)` calls. `add(0, x)` then gives `[[],[x]]`, an empty block before a filled one |
| BlockLists.Get | src/com/mebigfatguy/blocklist/BlockList.java:216-228 | succeeds exactly for `i` in `[0, size)` and returns the logical list's element at `i`; otherwise IndexOutOfBounds |
| BlockLists.Set | src/com/mebigfatguy/blocklist/BlockList.java:373-387 | in range it returns the old element and the logical list becomes `s[i := v]`, with every block fill, size and revision unchanged. Out of range it throws and changes nothing |
| BlockLists.Size | src/com/mebigfatguy/blocklist/BlockList.java:389-392 | the stored size is the length of the logical list |
| BlockLists.IsEmpty | src/com/mebigfatguy/blocklist/BlockList.java:250-253 | true exactly when the logical list is empty |
| Search.IndexOf | src/com/mebigfatguy/blocklist/BlockList.java:230-248 | the block-by-block scan returns the first logical position holding the element, or -1. It returns -1 for null even if the list holds null |
| Search.LastIndexOf | src/com/mebigfatguy/blocklist/BlockList.java:260-279 | the backward scan from `size - 1` returns the last logical position holding the element, or -1. It returns -1 for null |
| Search.Contains | src/com/mebigfatguy/blocklist/BlockList.java:188-204 | true exactly when the element is non-null and occurs in the logical list, which agrees with `indexOf >= 0` |
| Search.ContainsAll | src/com/mebigfatguy/blocklist/BlockList.java:206-214 | true exactly when every entry is non-null and contained |
| Search.RemoveObject | src/com/mebigfatguy/blocklist/BlockList.java:291-301 | returns true exactly when a non-null element occurs, and then removes only its first occurrence. Otherwise the list is unchanged but the revision is bumped |
| Search.RemoveAll | src/com/mebigfatguy/blocklist/BlockList.java:335-342 | the logical list becomes the result of removing one first occurrence per non-null entry, in entry order. It returns true exactly when the list got shorter, and the revision grows by the number of entries |
| Search.RemoveEachMultiset | src/com/mebigfatguy/blocklist/BlockList.java:335-342 | `removeAll` takes away as many copies of each value as the argument lists, capped at the number present: first occurrences only |
| Retain.RetainAll | src/com/mebigfatguy/blocklist/BlockList.java:344-371 | leaves exactly the elements the argument contains, in their original relative order. It returns true exactly when some element was rejected, always bumps the revision, and keeps the block count |
| Equality.EqualsAsWritten | src/com/mebigfatguy/blocklist/BlockList.java:80-109 | true for a non-block-list argument. Against a block list: true exactly when the logical lists are equal and contain no null |
| Equality.EqualsAsWrittenNotReflexive | src/com/mebigfatguy/blocklist/BlockList.java:92-100 | the list holding one null is not equal to itself |
| Equality.Equals | src/com/mebigfatguy/blocklist/BlockList.java:80-109 | with null matching null: against a block list, true exactly when the logical lists are equal |
| Iteration.NewIterator | src/com/mebigfatguy/blocklist/BlockList.java:499-502 | `iterator()` starts at position 0 with the list's revision, so a fresh iterator is not stale: `hasNext` answers whether the list is non-empty and `next` succeeds exactly then. The corrected `remove` refuses it with IllegalState |
| Iteration.HasNext | src/com/mebigfatguy/blocklist/BlockList.java:505-512 | throws ConcurrentModification exactly when the revision differs from the captured one; otherwise true exactly when elements remain |
| Iteration.Next | src/com/mebigfatguy/blocklist/BlockList.java:514-525 | throws ConcurrentModification on a revision mismatch, otherwise IndexOutOfBounds outside the list. Otherwise it returns the element at the cursor and advances the cursor by one |
| Iteration.Drain | src/com/mebigfatguy/blocklist/BlockList.java:499-525 | driving `hasNext`/`next` to the end yields the remaining logical list in order, or throws ConcurrentModification at once when the iterator is stale |
| Iteration.DrainFreshIterator | src/com/mebigfatguy/blocklist/BlockList.java:255-258 | a fresh iterator yields exactly the logical list |
| Iteration.DirectChangesInvalidate | src/com/mebigfatguy/blocklist/BlockList.java:499-525 | after `add`, `add(i, v)`, `remove(i)` or `clear` on the list, an outstanding iterator's next call throws ConcurrentModification; after `set` it does not |
| Iteration.RemoveAsWritten | src/com/mebigfatguy/blocklist/BlockList.java:527-535 | removes the element at the cursor, that is, the one after the element `next` returned, and re-captures the revision. At the end of the list it throws IndexOutOfBounds, leaving the iterator stale |
| Iteration.RemoveAsWrittenDeletesFollowing | src/com/mebigfatguy/blocklist/BlockList.java:527-535 | over `[1, 2]`, `next` returns 1 and `remove` then deletes 2 |
| Iteration.Remove | src/com/mebigfatguy/blocklist/BlockList.java:527-535 | corrected: removes the element `next` last returned and steps back; without a preceding `next` it throws IllegalState |
| Iteration.NextThenRemove | src/com/mebigfatguy/blocklist/BlockList.java:514-535 | corrected `next` then `remove` deletes exactly the returned element, and the iterator stays valid and yields the rest of the list |
| Snapshot.Encode | src/com/mebigfatguy/blocklist/BlockList.java:539-550 | the stream starts with the block size and the size, then holds one fill token per block, empty blocks included, and one item token per element. Its inverse is `Snapshot.DecodeRoundTrip` |
| Snapshot.DecodeAsWritten | src/com/mebigfatguy/blocklist/BlockList.java:552-580 | a decoded list carries the header's block size and size, has `ceil(size / blockSize)` blocks, each within `blockSize`, and revision 0. A well-formed header with a size of 0 or less yields the null-block error |
| Snapshot.DecodeAsWrittenRoundTrip | src/com/mebigfatguy/blocklist/BlockList.java:539-580 | when the list is non-empty and every element lies in the first `ceil(size / blockSize)` blocks, decoding the encoding reproduces the logical list and block size, as a valid list |
| Snapshot.AppendKeepsShape | src/com/mebigfatguy/blocklist/BlockList.java:116-132 | a new list with the default block count and a cleared list have all blocks but the last full, and `add` keeps every such list so |
| Snapshot.AppendShapedRoundTrip | src/com/mebigfatguy/blocklist/BlockList.java:539-580 | a non-empty list with all blocks but the last full survives the round trip as written |
| Snapshot.DecodeAsWrittenLosesBlocks | src/com/mebigfatguy/blocklist/BlockList.java:559-579 | blocks `[[x],[y]]` with block size 2 decode to the single block `[x]` while the size still says 2 |
| Snapshot.DecodeAsWrittenEmpty | src/com/mebigfatguy/blocklist/BlockList.java:559-569 | an empty list decodes to the null-block error |
| Snapshot.Decode | src/com/mebigfatguy/blocklist/BlockList.java:552-580 | corrected: reads every written block and rejects a size that disagrees with the elements. Whatever it returns carries the header's block size and size, is valid, and has revision 0 |
| Snapshot.DecodeRoundTrip | src/com/mebigfatguy/blocklist/BlockList.java:539-580 | corrected decoding of the encoding of any valid list, empty ones included, reproduces its blocks, block size and size exactly |

## Left out

- **Serialization mechanics.** Java serialization itself (`ObjectOutput`/`ObjectInput`, `Externalizable`) is not modelled. The snapshot is an abstract stream of `Int`, `Fill` and `Item` tokens.
- **Decode errors.** Reading failures are collapsed into `Malformed`. These are:
  - class-cast, end-of-stream and optional-data errors;
  - a fill count above the block size, which would index past the leaf;
  - a negative fill count, which Java would store;
  - a block size below 1, which divides by zero or goes negative.
- **Null block.** A decoded size of 0 or less is reported as the `NullBlock` error. Java completes `readExternal` but leaves `blocks[0]` null, so most later calls fail.
- **`toArray`.** `toArray()` and `toArray(AE[])` are not modelled. The second allocates reflectively. The first copies into `o[1 + pos]` and so throws for any non-empty list.
- **Other methods.** `toString` depends on element `toString` methods. `hashCode` returns `size`. `listIterator` and `subList` always throw UnsupportedOperationException.
- **32-bit integers.** `size`, `revision`, index arithmetic and the packed-long result of `findBlock` are unbounded integers. Only one consequence of the packing is kept: a negative offset means "not found". Neither `revision` wrap-around nor overflow past 2^31 elements is modelled.
- **Constructor arguments.** A block size below 1 is excluded by `Valid` and the constructor's precondition. `BlockList(0)` would write past the leaf on the first `add`. A negative initial block count, which throws NegativeArraySizeException, is excluded by the `nat` parameter.
- **Argument collections.** The arguments of `addAll`, `containsAll` and `removeAll` are sequences iterated in order, fixed before the call (see the self-argument lines below). The argument's `contains` in `retainAll` is the function parameter `keep`.
- **`equals` with a non-list.** `equals` answering true for a non-block-list argument is kept as written in both versions. The argument is modelled only as `NotAList`.
- **Thread safety.** The class is not thread-safe. The revision is only compared for fail-fast detection.
- BlockLists.AddAll: treats the argument as a fixed sequence. For a non-empty `l`, Java's `l.addAll(l)` iterates the list's own fail-fast iterator, so it appends one element and then throws ConcurrentModificationException. The model appends the whole list instead.
- BlockLists.AddAllAt: for a non-empty `l` and `l.addAll(i, l)` it likewise inserts everything, where Java inserts one element and then throws ConcurrentModificationException.
- Search.RemoveAll: for a non-empty `l` and `l.removeAll(l)` it removes one occurrence per entry, where Java removes only the first element, or just bumps the revision when that element is null, and then throws ConcurrentModificationException.
- BlockLists.AddAllAt: states nothing about the elements for a negative index. There the first insertions append and later ones may land at the front once the index reaches 0.

## Findings

| source | as written | input that shows it | evidently intended | confidence | as-written member | corrected member |
|---|---|---|---|---|---|---|
| src/com/mebigfatguy/blocklist/BlockList.java:533 | iterator `remove()` removes at the cursor, the element after the one `next()` returned | list `[1, 2]`: `next()` returns 1, `remove()` deletes 2 | remove the element last returned by `next()` | not executed; high | Iteration.RemoveAsWritten (shown by Iteration.RemoveAsWrittenDeletesFollowing) | Iteration.Remove (proved by Iteration.NextThenRemove) |
| src/com/mebigfatguy/blocklist/BlockList.java:559-579 | `readExternal` reads only `ceil(size / blockSize)` blocks, though `writeExternal` wrote all of them | block size 2: append x, y; `add(1, z)`; `remove(0)` gives blocks `[[z],[y]]`, read back as `[[z]]` with size 2 | read back every block written | not executed; high | Snapshot.DecodeAsWritten (shown by Snapshot.DecodeAsWrittenLosesBlocks) | Snapshot.Decode (proved by Snapshot.DecodeRoundTrip) |
| src/com/mebigfatguy/blocklist/BlockList.java:559-569 | for size 0 no block is allocated, so `blocks[0]` stays null | a fresh, empty list written and read back | an empty, usable list | not executed; high | Snapshot.DecodeAsWritten (shown by Snapshot.DecodeAsWrittenEmpty) | Snapshot.Decode (proved by Snapshot.DecodeRoundTrip) |
| src/com/mebigfatguy/blocklist/BlockList.java:92-100 | two nulls at the same position compare unequal | the list `[null]` compared with itself | null equals null, so equality is reflexive | not executed; medium | Equality.EqualsAsWritten (shown by Equality.EqualsAsWrittenNotReflexive) | Equality.Equals |
