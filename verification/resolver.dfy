/**
 * The two prefix-sum scans behind `findBlock`
 * (src/com/mebigfatguy/blocklist/BlockList.java:446-472). Both return the raw
 * (block, offset) pair the Java code would pack into a long; the caller
 * treats a negative offset as "not found".
 */
module Resolver {
  import opened Wrappers
  import opened Blocks

  /** The forward scan stops at block `c`: `i` lies before its end, or (add mode) exactly at the end of a block with room. */
  predicate ForwardHit<E>(blocks: seq<seq<E>>, blockSize: int, i: int, forAdd: bool, c: nat)
    requires c < |blocks|
  {
    var next := Start(blocks, c + 1);
    i < next || (forAdd && i == next && |blocks[c]| < blockSize)
  }

  /** The backward scan stops at block `c`: `i` lies inside it, or (add mode) exactly at the end of a block with room. */
  predicate BackwardHit<E>(blocks: seq<seq<E>>, blockSize: int, i: int, forAdd: bool, c: nat)
    requires c < |blocks|
  {
    var offset := Start(blocks, c + 1);
    (Start(blocks, c) <= i < offset) || (forAdd && i == offset && |blocks[c]| < blockSize)
  }

  /** Forward scan from block `b`, whose first logical position is `offset`. */
  function ScanForward<E>(blocks: seq<seq<E>>, blockSize: int, i: int, forAdd: bool, b: nat, offset: int): (r: Option<(nat, int)>)
    requires b <= |blocks| && offset == Start(blocks, b)
    ensures r.Some? ==>
      && b <= r.value.0 < |blocks|
      && r.value.1 == i - Start(blocks, r.value.0)
      && ForwardHit(blocks, blockSize, i, forAdd, r.value.0)
      && forall c :: b <= c < r.value.0 ==> !ForwardHit(blocks, blockSize, i, forAdd, c)
    ensures r.None? ==> forall c :: b <= c < |blocks| ==> !ForwardHit(blocks, blockSize, i, forAdd, c)
    decreases |blocks| - b
  {
    if b == |blocks| then None
    else
      var fill := |blocks[b]|;
      var nextOffset := offset + fill;
      StartStep(blocks, b);
      if i < nextOffset || (forAdd && i == nextOffset && fill < blockSize) then
        Some((b, i - offset))
      else
        ScanForward(blocks, blockSize, i, forAdd, b + 1, nextOffset)
  }

  /** Backward scan over blocks `0..k-1`, from block `k-1` down; `offset` is the first position after block `k-1`. */
  function ScanBackward<E>(blocks: seq<seq<E>>, blockSize: int, i: int, forAdd: bool, k: nat, offset: int): (r: Option<(nat, int)>)
    requires k <= |blocks| && offset == Start(blocks, k)
    ensures r.Some? ==>
      && r.value.0 < k
      && r.value.1 == i - Start(blocks, r.value.0)
      && BackwardHit(blocks, blockSize, i, forAdd, r.value.0)
      && forall c :: r.value.0 < c < k ==> !BackwardHit(blocks, blockSize, i, forAdd, c)
    ensures r.None? ==> forall c :: 0 <= c < k ==> !BackwardHit(blocks, blockSize, i, forAdd, c)
    decreases k
  {
    if k == 0 then None
    else
      var b := k - 1;
      var fill := |blocks[b]|;
      var nextOffset := offset - fill;
      StartStep(blocks, b);
      if (i >= nextOffset && i < offset) || (forAdd && i == offset && fill < blockSize) then
        Some((b, i - nextOffset))
      else
        ScanBackward(blocks, blockSize, i, forAdd, b, nextOffset)
  }

  /** For a position of the logical list the forward scan stops at a non-negative offset. */
  lemma ForwardScanFinds<E>(blocks: seq<seq<E>>, blockSize: int, i: int, forAdd: bool)
    requires 0 <= i < |Flatten(blocks)|
    ensures var r := ScanForward(blocks, blockSize, i, forAdd, 0, 0);
      r.Some? && r.value.1 >= 0
  {
    StartAll(blocks);
    assert |blocks| > 0;
    StartStep(blocks, |blocks| - 1);
    assert ForwardHit(blocks, blockSize, i, forAdd, |blocks| - 1);
    var r := ScanForward(blocks, blockSize, i, forAdd, 0, 0);
    var c := r.value.0;
    if c > 0 {
      assert !ForwardHit(blocks, blockSize, i, forAdd, c - 1);
    }
  }

  /** In read mode the forward scan finds the block holding `i`. */
  lemma ForwardScanLocates<E>(blocks: seq<seq<E>>, blockSize: int, i: int)
    requires 0 <= i < |Flatten(blocks)|
    ensures var r := ScanForward(blocks, blockSize, i, false, 0, 0);
      r.Some? && Located(blocks, i, r.value.0, r.value.1)
  {
    ForwardScanFinds(blocks, blockSize, i, false);
    StartStep(blocks, ScanForward(blocks, blockSize, i, false, 0, 0).value.0);
  }

  /** The backward scan (either mode) returns the block holding `i` when there is one. */
  lemma BackwardScanLocates<E>(blocks: seq<seq<E>>, blockSize: int, i: int, forAdd: bool)
    requires 0 <= i < |Flatten(blocks)|
    ensures var r := ScanBackward(blocks, blockSize, i, forAdd, |blocks|, Start(blocks, |blocks|));
      r.Some? && Located(blocks, i, r.value.0, r.value.1)
  {
    StartAll(blocks);
    ForwardScanLocates(blocks, blockSize, i);
    var f := ScanForward(blocks, blockSize, i, false, 0, 0);
    var cb := f.value.0;
    StartStep(blocks, cb);
    assert BackwardHit(blocks, blockSize, i, forAdd, cb);
    var r := ScanBackward(blocks, blockSize, i, forAdd, |blocks|, Start(blocks, |blocks|));
    assert r.Some?;
    var c := r.value.0;
    assert cb <= c;
    if c > cb {
      StartStep(blocks, c);
      StartMono(blocks, cb + 1, c);
      assert false;
    }
  }

  /** Both scans agree on every position of the logical list in read mode. */
  lemma ScansAgree<E>(blocks: seq<seq<E>>, blockSize: int, i: int)
    requires 0 <= i < |Flatten(blocks)|
    ensures ScanForward(blocks, blockSize, i, false, 0, 0)
         == ScanBackward(blocks, blockSize, i, false, |blocks|, Start(blocks, |blocks|))
  {
    ForwardScanLocates(blocks, blockSize, i);
    BackwardScanLocates(blocks, blockSize, i, false);
    var f := ScanForward(blocks, blockSize, i, false, 0, 0);
    var g := ScanBackward(blocks, blockSize, i, false, |blocks|, Start(blocks, |blocks|));
    LocatedUnique(blocks, i, f.value.0, f.value.1, g.value.0, g.value.1);
  }

  /**
   * Appending position: scanning backward for `i == size` in add mode stops
   * at the last block exactly when it has room.
   */
  lemma BackwardScanAtEnd<E>(blocks: seq<seq<E>>, blockSize: int)
    requires blockSize >= 1 && Bounded(blocks, blockSize)
    ensures var r := ScanBackward(blocks, blockSize, Start(blocks, |blocks|), true, |blocks|, Start(blocks, |blocks|));
      r == if |blocks| > 0 && |blocks[|blocks| - 1]| < blockSize
           then Some((|blocks| - 1, |blocks[|blocks| - 1]|))
           else None
  {
    var n := Start(blocks, |blocks|);
    var r := ScanBackward(blocks, blockSize, n, true, |blocks|, n);
    if |blocks| > 0 {
      var last := |blocks| - 1;
      StartStep(blocks, last);
      if |blocks[last]| < blockSize {
        assert BackwardHit(blocks, blockSize, n, true, last);
      } else if r.Some? {
        var c := r.value.0;
        StartStep(blocks, c);
        StartMono(blocks, c + 1, last);
        assert false;
      }
    }
  }

  /** Beyond the end of the logical list (or at it, in read mode) the backward scan finds nothing. */
  lemma BackwardScanBeyond<E>(blocks: seq<seq<E>>, blockSize: int, i: int, forAdd: bool)
    requires i > Start(blocks, |blocks|) || (!forAdd && i == Start(blocks, |blocks|))
    ensures ScanBackward(blocks, blockSize, i, forAdd, |blocks|, Start(blocks, |blocks|)).None?
  {
    var r := ScanBackward(blocks, blockSize, i, forAdd, |blocks|, Start(blocks, |blocks|));
    if r.Some? {
      StartMono(blocks, r.value.0 + 1, |blocks|);
      assert false;
    }
  }
}
