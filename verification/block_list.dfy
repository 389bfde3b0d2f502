/**
 * The list state of `BlockList<E>` (src/com/mebigfatguy/blocklist/BlockList.java)
 * as an immutable value, and its positional operations. Every operation that
 * can throw returns the exception as a `Result`; operations that change the
 * list return the new list alongside.
 */
module BlockLists {
  import opened Wrappers
  import opened Blocks
  import opened Resolver

  const DefaultBlockCount: nat := 1
  const DefaultBlockSize: nat := 32

  /** The list: its blocks, the configured block size, the redundant size and the revision counter. */
  datatype BlockList<E> = BlockList(blocks: seq<seq<E>>, blockSize: int, size: int, revision: int)

  /** The logical list a block list represents. */
  function Elements<E>(l: BlockList<E>): seq<E>
  {
    Flatten(l.blocks)
  }

  /** Representation invariant: blocks fit the block size and `size` counts the elements. */
  predicate Valid<E>(l: BlockList<E>)
  {
    && l.blockSize >= 1
    && Bounded(l.blocks, l.blockSize)
    && l.size == |Flatten(l.blocks)|
  }

  /** `BlockList(initialBlkCount, blkSize)`: that many empty blocks, size 0, revision 0. */
  function New<E>(initialBlockCount: nat, blockSize: int): (l: BlockList<E>)
    requires blockSize >= 1
    ensures Valid(l) && Elements(l) == []
    ensures |l.blocks| == initialBlockCount && l.blockSize == blockSize && l.revision == 0
    ensures forall b :: 0 <= b < |l.blocks| ==> l.blocks[b] == []
  {
    var blocks := seq(initialBlockCount, _ => []);
    assert AllEmpty(blocks);
    FlattenAllEmpty(blocks);
    BlockList(blocks, blockSize, 0, 0)
  }

  /** `BlockList(blockSize)`: one empty block of the given size. */
  function NewWithBlockSize<E>(blockSize: int): (l: BlockList<E>)
    requires blockSize >= 1
    ensures Valid(l) && Elements(l) == [] && l.revision == 0
    ensures l.blockSize == blockSize && l.blocks == [[]]
  {
    New(DefaultBlockCount, blockSize)
  }

  /** `BlockList()`: one empty block of 32 slots. */
  function NewDefault<E>(): (l: BlockList<E>)
    ensures Valid(l) && Elements(l) == [] && l.revision == 0
    ensures l.blockSize == 32 && l.blocks == [[]]
  {
    NewWithBlockSize(DefaultBlockSize)
  }

  /**
   * `findBlock(index, forAdd)`: the block and offset for logical position
   * `index`, or None where the Java code returns a negative packed value.
   */
  function FindBlock<E>(l: BlockList<E>, index: int, forAdd: bool): (r: Option<(nat, nat)>)
    requires Valid(l)
    ensures r.Some? ==>
      && r.value.0 < |l.blocks|
      && Start(l.blocks, r.value.0) + r.value.1 == index
      && (r.value.1 < |l.blocks[r.value.0]|
          || (forAdd && r.value.1 == |l.blocks[r.value.0]| < l.blockSize))
    ensures !forAdd ==> (r.Some? <==> 0 <= index < l.size)
    ensures forAdd && 0 <= index < l.size ==> r.Some?
    ensures forAdd && index == l.size ==>
      r == if |l.blocks| > 0 && |l.blocks[|l.blocks| - 1]| < l.blockSize
           then Some((|l.blocks| - 1, |l.blocks[|l.blocks| - 1]|))
           else None
    ensures index < 0 || index > l.size ==> r.None?
  {
    ScanFacts(l, index, forAdd);
    var raw :=
      if index < l.size / 2 then ScanForward(l.blocks, l.blockSize, index, forAdd, 0, 0)
      else ScanBackward(l.blocks, l.blockSize, index, forAdd, |l.blocks|, l.size);
    match raw
    case None => None
    case Some((b, o)) =>
      StartStep(l.blocks, b);
      if o < 0 then None else Some((b, o))
  }

  /** What the two scans of `FindBlock` deliver, case by case. */
  lemma ScanFacts<E>(l: BlockList<E>, index: int, forAdd: bool)
    requires Valid(l)
    ensures Start(l.blocks, 0) == 0 && Start(l.blocks, |l.blocks|) == l.size
    ensures 0 <= index < l.size ==>
      var r := ScanForward(l.blocks, l.blockSize, index, forAdd, 0, 0);
      r.Some? && r.value.1 >= 0
    ensures 0 <= index < l.size ==>
      var r := ScanBackward(l.blocks, l.blockSize, index, forAdd, |l.blocks|, l.size);
      r.Some? && Located(l.blocks, index, r.value.0, r.value.1)
    ensures forAdd && index == l.size ==>
      ScanBackward(l.blocks, l.blockSize, index, forAdd, |l.blocks|, l.size)
      == if |l.blocks| > 0 && |l.blocks[|l.blocks| - 1]| < l.blockSize
         then Some((|l.blocks| - 1, |l.blocks[|l.blocks| - 1]|))
         else None
    ensures index > l.size || (!forAdd && index == l.size) ==>
      ScanBackward(l.blocks, l.blockSize, index, forAdd, |l.blocks|, l.size).None?
  {
    StartAll(l.blocks);
    if 0 <= index < l.size {
      ForwardScanFinds(l.blocks, l.blockSize, index, forAdd);
      BackwardScanLocates(l.blocks, l.blockSize, index, forAdd);
    }
    if forAdd && index == l.size {
      BackwardScanAtEnd(l.blocks, l.blockSize);
    }
    if index > l.size || (!forAdd && index == l.size) {
      BackwardScanBeyond(l.blocks, l.blockSize, index, forAdd);
    }
  }

  /** `grow`: appends one empty block; the logical list is unchanged. */
  function Grow<E>(l: BlockList<E>): (r: BlockList<E>)
    requires Valid(l)
    ensures Valid(r) && Elements(r) == Elements(l)
    ensures |r.blocks| == |l.blocks| + 1 && r.blocks[..|l.blocks|] == l.blocks
    ensures r.blocks[|l.blocks|] == []
    ensures r.size == l.size && r.revision == l.revision && r.blockSize == l.blockSize
  {
    var empty: seq<seq<E>> := [[]];
    FlattenAppend(l.blocks, empty);
    FlattenCons<E>([], []);
    assert (l.blocks + empty)[..|l.blocks|] == l.blocks;
    l.(blocks := l.blocks + empty)
  }

  /**
   * `splitBlock(b, o)`: block `b` becomes two adjacent blocks holding its
   * first `o` elements and the rest; every other block keeps its place
   * relative to them and the logical list is unchanged.
   */
  function SplitBlock<E>(l: BlockList<E>, b: nat, o: nat): (r: BlockList<E>)
    requires Valid(l) && b < |l.blocks| && o <= |l.blocks[b]|
    ensures Valid(r) && Elements(r) == Elements(l)
    ensures |r.blocks| == |l.blocks| + 1
    ensures r.blocks[b] + r.blocks[b + 1] == l.blocks[b]
    ensures |r.blocks[b]| == o && |r.blocks[b + 1]| == |l.blocks[b]| - o
    ensures r.blocks[..b] == l.blocks[..b] && r.blocks[b + 2..] == l.blocks[b + 1..]
    ensures r.size == l.size && r.revision == l.revision && r.blockSize == l.blockSize
  {
    var blk := l.blocks[b];
    var blocks := l.blocks[..b] + [blk[..o], blk[o..]] + l.blocks[b + 1..];
    assert blk[..o] + blk[o..] == blk;
    FlattenSplitBlock(l.blocks, b, blk[..o], blk[o..]);
    assert blocks[..b] == l.blocks[..b];
    assert blocks[b + 2..] == l.blocks[b + 1..];
    assert Bounded(blocks, l.blockSize) by {
      forall c | 0 <= c < |blocks|
        ensures |blocks[c]| <= l.blockSize
      {
        if c < b { assert blocks[c] == l.blocks[c]; }
        else if c > b + 1 { assert blocks[c] == l.blocks[c - 1]; }
      }
    }
    l.(blocks := blocks)
  }

  /**
   * The insertion step of `add(int,E)` once a slot is resolved: a full
   * block is split at the offset first, then the element goes in at the
   * offset of block `b`.
   */
  function InsertAt<E>(l: BlockList<E>, b: nat, o: nat, v: E): (r: BlockList<E>)
    requires Valid(l) && b < |l.blocks| && o <= |l.blocks[b]|
    requires o == |l.blocks[b]| ==> |l.blocks[b]| < l.blockSize
    ensures var s := Elements(l);
      var i := Start(l.blocks, b) + o;
      i <= |s| && Elements(r) == s[..i] + [v] + s[i..]
    ensures Valid(r) && |r.blocks| >= |l.blocks|
    ensures r.size == l.size + 1 && r.revision == l.revision + 1 && r.blockSize == l.blockSize
  {
    var l1 := if |l.blocks[b]| == l.blockSize then SplitBlock(l, b, o) else l;
    assert l1.blocks[..b] == l.blocks[..b];
    var blk := l1.blocks[b];
    var blocks := l1.blocks[b := blk[..o] + [v] + blk[o..]];
    InsertInBlock(l1.blocks, b, o, v);
    BoundedUpdate(l1.blocks, l.blockSize, b, blk[..o] + [v] + blk[o..]);
    BlockList(blocks, l.blockSize, l.size + 1, l.revision + 1)
  }

  /**
   * `add(index, element)`. An index outside `[0, size]` does not throw:
   * the resolver reports no slot, a block is grown and the element is
   * appended at the end of the list.
   */
  function Insert<E>(l: BlockList<E>, index: int, v: E): (r: BlockList<E>)
    requires Valid(l)
    ensures 0 <= index <= l.size ==>
      Elements(r) == Elements(l)[..index] + [v] + Elements(l)[index..]
    ensures !(0 <= index <= l.size) ==> Elements(r) == Elements(l) + [v]
    ensures Valid(r)
    ensures r.size == l.size + 1 && r.revision == l.revision + 1 && r.blockSize == l.blockSize
  {
    match FindBlock(l, index, true)
    case Some((b, o)) => InsertAt(l, b, o, v)
    case None =>
      var g := Grow(l);
      var last := |g.blocks| - 1;
      assert g.blocks[..last] == l.blocks;
      StartAll(l.blocks);
      InsertAt(g, last, 0, v)
  }

  /** `add(element)`: appends to the last block when it has room, else to a freshly grown block; always returns true. */
  function Add<E>(l: BlockList<E>, v: E): (r: (BlockList<E>, bool))
    requires Valid(l)
    ensures Elements(r.0) == Elements(l) + [v] && r.1
    ensures Valid(r.0)
    ensures r.0.size == l.size + 1 && r.0.revision == l.revision + 1 && r.0.blockSize == l.blockSize
  {
    match FindBlock(l, l.size, true)
    case Some((b, o)) =>
      var blk := l.blocks[b];
      assert blk[..o] + [v] + blk[o..] == blk + [v];
      InsertInBlock(l.blocks, b, o, v);
      StartAll(l.blocks);
      var blocks := l.blocks[b := blk + [v]];
      BoundedUpdate(l.blocks, l.blockSize, b, blk + [v]);
      (BlockList(blocks, l.blockSize, l.size + 1, l.revision + 1), true)
    case None =>
      var g := Grow(l);
      var last := |g.blocks| - 1;
      assert g.blocks[..last] == l.blocks;
      StartAll(l.blocks);
      assert g.blocks[last][..0] + [v] + g.blocks[last][0..] == [v];
      InsertInBlock(g.blocks, last, 0, v);
      var blocks := g.blocks[last := [v]];
      BoundedUpdate(g.blocks, l.blockSize, last, [v]);
      (BlockList(blocks, l.blockSize, l.size + 1, l.revision + 1), true)
  }

  /** `add(element)` is `add(size, element)`: both produce the same blocks, not just the same logical list. */
  lemma AddIsInsertAtEnd<E>(l: BlockList<E>, v: E)
    requires Valid(l)
    ensures Add(l, v).0 == Insert(l, l.size, v)
  {
    match FindBlock(l, l.size, true)
    case Some((b, o)) =>
      var blk := l.blocks[b];
      assert blk[..o] + [v] + blk[o..] == blk + [v];
    case None =>
      var g := Grow(l);
      var last := |g.blocks| - 1;
      assert g.blocks[last][..0] + [v] + g.blocks[last][0..] == [v];
  }

  /**
   * Block-level `remove(blkIndex, blkOffset)`: deletes one element. A block
   * that this empties leaves its place and is moved, empty, to the end of
   * the block sequence.
   */
  function RemoveAt<E>(l: BlockList<E>, b: nat, o: nat): (r: (BlockList<E>, E))
    requires Valid(l) && b < |l.blocks| && o < |l.blocks[b]|
    ensures var s := Elements(l);
      var i := Start(l.blocks, b) + o;
      i < |s| && r.1 == s[i] && Elements(r.0) == s[..i] + s[i + 1..]
    ensures Valid(r.0) && |r.0.blocks| == |l.blocks|
    ensures r.0.size == l.size - 1 && r.0.revision == l.revision + 1 && r.0.blockSize == l.blockSize
    ensures r.0.blocks[..b] == l.blocks[..b]
    ensures |l.blocks[b]| == 1 ==>
      && r.0.blocks[|l.blocks| - 1] == []
      && r.0.blocks[b..|l.blocks| - 1] == l.blocks[b + 1..]
    ensures |l.blocks[b]| > 1 ==>
      && |r.0.blocks[b]| == |l.blocks[b]| - 1
      && forall c :: 0 <= c < |l.blocks| && c != b ==> r.0.blocks[c] == l.blocks[c]
  {
    var blk := l.blocks[b];
    DeleteInBlock(l.blocks, b, o);
    var blocks :=
      if |blk| == 1 then l.blocks[..b] + l.blocks[b + 1..] + [[]]
      else l.blocks[b := blk[..o] + blk[o + 1..]];
    if |blk| == 1 then
      assert blk[..o] + blk[o + 1..] == [];
      EmptiedBlockToEnd(l.blocks, l.blockSize, b);
      (BlockList(blocks, l.blockSize, l.size - 1, l.revision + 1), blk[o])
    else
      BoundedUpdate(l.blocks, l.blockSize, b, blk[..o] + blk[o + 1..]);
      assert blocks[..b] == l.blocks[..b];
      (BlockList(blocks, l.blockSize, l.size - 1, l.revision + 1), blk[o])
  }

  /**
   * `remove(index)`: removes and returns the element at `index`. Out of
   * range it throws, but the revision has already been bumped.
   */
  function RemoveIndex<E>(l: BlockList<E>, index: int): (r: (BlockList<E>, Result<E, Thrown>))
    requires Valid(l)
    ensures r.1.Success? <==> 0 <= index < l.size
    ensures r.1.Success? ==>
      && r.1.value == Elements(l)[index]
      && Elements(r.0) == Elements(l)[..index] + Elements(l)[index + 1..]
      && r.0.size == l.size - 1
    ensures r.1.Failure? ==> r.1.error == IndexOutOfBounds && r.0 == l.(revision := l.revision + 1)
    ensures Valid(r.0) && |r.0.blocks| == |l.blocks|
    ensures r.0.revision == l.revision + 1 && r.0.blockSize == l.blockSize
  {
    match FindBlock(l, index, false)
    case None => (l.(revision := l.revision + 1), Failure(IndexOutOfBounds))
    case Some((b, o)) =>
      var (l', e) := RemoveAt(l, b, o);
      (l', Success(e))
  }

  /** `get(index)`: the element at `index` of the logical list, or IndexOutOfBounds. */
  function Get<E>(l: BlockList<E>, index: int): (r: Result<E, Thrown>)
    requires Valid(l)
    ensures r.Success? <==> 0 <= index < l.size
    ensures r.Success? ==> r.value == Elements(l)[index]
    ensures r.Failure? ==> r.error == IndexOutOfBounds
  {
    match FindBlock(l, index, false)
    case None => Failure(IndexOutOfBounds)
    case Some((b, o)) =>
      LocatedElement(l.blocks, index, b, o);
      Success(l.blocks[b][o])
  }

  /**
   * `set(index, element)`: replaces one element in place and returns the
   * old one. No block changes its fill and the revision stays put.
   */
  function Set<E>(l: BlockList<E>, index: int, v: E): (r: (BlockList<E>, Result<E, Thrown>))
    requires Valid(l)
    ensures r.1.Success? <==> 0 <= index < l.size
    ensures r.1.Success? ==>
      r.1.value == Elements(l)[index] && Elements(r.0) == Elements(l)[index := v]
    ensures r.1.Failure? ==> r.1.error == IndexOutOfBounds && r.0 == l
    ensures Valid(r.0) && |r.0.blocks| == |l.blocks|
    ensures forall c :: 0 <= c < |l.blocks| ==> |r.0.blocks[c]| == |l.blocks[c]|
    ensures r.0.size == l.size && r.0.revision == l.revision && r.0.blockSize == l.blockSize
  {
    match FindBlock(l, index, false)
    case None => (l, Failure(IndexOutOfBounds))
    case Some((b, o)) =>
      var blk := l.blocks[b];
      var blocks := l.blocks[b := blk[o := v]];
      LocatedElement(l.blocks, index, b, o);
      FlattenSplit(l.blocks, b);
      FlattenUpdate(l.blocks, b, blk[o := v]);
      assert Flatten(blocks) == Elements(l)[index := v];
      BoundedUpdate(l.blocks, l.blockSize, b, blk[o := v]);
      (l.(blocks := blocks), Success(blk[o]))
  }

  /** `clear()`: no blocks at all, size 0, one more revision. */
  function Clear<E>(l: BlockList<E>): (r: BlockList<E>)
    requires Valid(l)
    ensures Valid(r) && Elements(r) == [] && |r.blocks| == 0
    ensures r.revision == l.revision + 1 && r.blockSize == l.blockSize
  {
    BlockList([], l.blockSize, 0, l.revision + 1)
  }

  /** `size()`: the redundant counter, which is the length of the logical list. */
  function Size<E>(l: BlockList<E>): (n: int)
    requires Valid(l)
    ensures n == |Elements(l)|
  {
    l.size
  }

  /** `isEmpty()`: the logical list has no elements. */
  function IsEmpty<E>(l: BlockList<E>): (r: bool)
    requires Valid(l)
    ensures r <==> Elements(l) == []
  {
    l.size == 0
  }

  /** `addAll(elements)`: appends each element in turn; always returns true. */
  function AddAll<E>(l: BlockList<E>, c: seq<E>): (r: (BlockList<E>, bool))
    requires Valid(l)
    ensures Valid(r.0) && Elements(r.0) == Elements(l) + c && r.1
    ensures r.0.size == l.size + |c| && r.0.revision == l.revision + |c|
    ensures r.0.blockSize == l.blockSize
    decreases |c|
  {
    if |c| == 0 then (l, true)
    else
      var (l1, _) := Add(l, c[0]);
      var r := AddAll(l1, c[1..]);
      assert Elements(l) + c == Elements(l) + [c[0]] + c[1..];
      r
  }

  /**
   * `addAll(index, elements)`: `add(index++, e)` for each element; inside
   * `[0, size]` the elements land together at `index`, beyond `size` they
   * are appended.
   */
  function AddAllAt<E>(l: BlockList<E>, index: int, c: seq<E>): (r: (BlockList<E>, bool))
    requires Valid(l)
    ensures Valid(r.0) && r.1
    ensures 0 <= index <= l.size ==>
      Elements(r.0) == Elements(l)[..index] + c + Elements(l)[index..]
    ensures index > l.size ==> Elements(r.0) == Elements(l) + c
    ensures r.0.size == l.size + |c| && r.0.revision == l.revision + |c|
    ensures r.0.blockSize == l.blockSize
    decreases |c|
  {
    if |c| == 0 then (l, true)
    else
      var l1 := Insert(l, index, c[0]);
      var r := AddAllAt(l1, index + 1, c[1..]);
      if 0 <= index <= l.size then
        InsertRunStep(Elements(l), index, c);
        r
      else
        assert Elements(l) + c == Elements(l) + [c[0]] + c[1..];
        r
  }

  /** Inserting `c[0]` at `i` and then the rest of `c` just after it inserts all of `c` at `i`. */
  lemma InsertRunStep<E>(s: seq<E>, i: nat, c: seq<E>)
    requires i <= |s| && |c| > 0
    ensures var s1 := s[..i] + [c[0]] + s[i..];
      s1[..i + 1] + c[1..] + s1[i + 1..] == s[..i] + c + s[i..]
  {
    var s1 := s[..i] + [c[0]] + s[i..];
    assert s1[..i + 1] == s[..i] + [c[0]];
    assert s1[i + 1..] == s[i..];
    assert c == [c[0]] + c[1..];
  }

  /** `remove(index)` resolves to the block-level removal at the block and offset holding `index`. */
  lemma RemoveIndexResolves<E>(l: BlockList<E>, b: nat, o: nat)
    requires Valid(l) && b < |l.blocks| && o < |l.blocks[b]|
    ensures RemoveIndex(l, Start(l.blocks, b) + o) == (RemoveAt(l, b, o).0, Success(RemoveAt(l, b, o).1))
  {
    FindBlockAt(l, b, o);
  }

  /** Read-mode resolution of a position finds exactly the block and live offset holding it. */
  lemma FindBlockAt<E>(l: BlockList<E>, b: nat, o: nat)
    requires Valid(l) && b < |l.blocks| && o < |l.blocks[b]|
    ensures FindBlock(l, Start(l.blocks, b) + o, false) == Some((b, o))
  {
    var i := Start(l.blocks, b) + o;
    LocatedElement(l.blocks, i, b, o);
    var r := FindBlock(l, i, false);
    LocatedUnique(l.blocks, i, b, o, r.value.0, r.value.1);
  }

  /** Removing the only element of the first block moves that block to the end. */
  lemma RemoveFirstOfSingletonBlock<E>(l: BlockList<E>)
    requires Valid(l) && |l.blocks| == 2 && |l.blocks[0]| == 1
    ensures RemoveIndex(l, 0).0.blocks == [l.blocks[1], []]
  {
    assert Start(l.blocks, 0) == 0 by { assert l.blocks[..0] == []; }
    RemoveIndexResolves(l, 0, 0);
  }

  /** `add(0, x)` on an empty list of two empty blocks fills the last block. */
  lemma InsertIntoTrailingEmptyBlocks<E>(l: BlockList<E>, x: E)
    requires Valid(l) && l.blocks == [[], []]
    ensures Insert(l, 0, x).blocks == [[], [x]]
  {
    FlattenAllEmpty(l.blocks);
    var e: seq<E> := [];
    assert e[..0] + [x] + e[0..] == [x];
  }

  /**
   * Emptied blocks move to the end, but they do not stay behind the
   * non-empty ones: with block size 1, two `remove(0)` calls on blocks
   * [[a], [b]] leave [[], []], and `add(0, x)` then fills the last block.
   */
  lemma EmptyBlockCanPrecedeFilled<E>(l0: BlockList<E>, a: E, b: E, x: E)
    requires Valid(l0) && l0.blocks == [[a], [b]] && l0.blockSize == 1
    ensures var l1 := RemoveIndex(l0, 0).0;
      var l2 := RemoveIndex(l1, 0).0;
      && l1.blocks == [[b], []]
      && l2.blocks == [[], []]
      && Insert(l2, 0, x).blocks == [[], [x]]
  {
    RemoveFirstOfSingletonBlock(l0);
    var l1 := RemoveIndex(l0, 0).0;
    RemoveFirstOfSingletonBlock(l1);
    var l2 := RemoveIndex(l1, 0).0;
    InsertIntoTrailingEmptyBlocks(l2, x);
  }

  /** `remove(i)` undoes `add(i, v)` for every `i` in `[0, size]`, returning `v`. */
  lemma RemoveUndoesInsert<E>(l: BlockList<E>, i: int, v: E)
    requires Valid(l) && 0 <= i <= l.size
    ensures var (l', r) := RemoveIndex(Insert(l, i, v), i);
      r == Success(v) && Elements(l') == Elements(l)
  {
    var s := Elements(l);
    var t := s[..i] + [v] + s[i..];
    assert t[i] == v;
    assert t[..i] + t[i + 1..] == s;
  }
}
