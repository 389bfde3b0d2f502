/**
 * The block index as a sequence of blocks, and its abstraction to the
 * flat logical list. A block is the sequence of its live elements, so its
 * length is the block's fill count.
 */
module Blocks {

  /** The logical list: the blocks' live elements concatenated in order. */
  function Flatten<E>(blocks: seq<seq<E>>): seq<E>
  {
    if |blocks| == 0 then [] else blocks[0] + Flatten(blocks[1..])
  }

  /** Logical position of the first element of block `b` (a prefix sum of fills). */
  function Start<E>(blocks: seq<seq<E>>, b: nat): nat
    requires b <= |blocks|
  {
    |Flatten(blocks[..b])|
  }

  /** Offset `o` of block `b` holds logical position `i`. */
  predicate Located<E>(blocks: seq<seq<E>>, i: int, b: int, o: int)
  {
    && 0 <= b < |blocks|
    && 0 <= o < |blocks[b]|
    && Start(blocks, b) + o == i
  }

  /** No block holds more than `blockSize` elements. */
  predicate Bounded<E>(blocks: seq<seq<E>>, blockSize: int)
  {
    forall b :: 0 <= b < |blocks| ==> |blocks[b]| <= blockSize
  }

  /** Replacing one block by one that fits keeps every block within `blockSize`. */
  lemma BoundedUpdate<E>(blocks: seq<seq<E>>, blockSize: int, b: nat, nb: seq<E>)
    requires Bounded(blocks, blockSize) && b < |blocks| && |nb| <= blockSize
    ensures Bounded(blocks[b := nb], blockSize)
  {
    var u := blocks[b := nb];
    forall c | 0 <= c < |u|
      ensures |u[c]| <= blockSize
    {
      if c != b { assert u[c] == blocks[c]; }
    }
  }

  /** Dropping leading blocks keeps every block within `blockSize`. */
  lemma BoundedSuffix<E>(blocks: seq<seq<E>>, blockSize: int, j: nat)
    requires Bounded(blocks, blockSize) && j <= |blocks|
    ensures Bounded(blocks[j..], blockSize)
  {
    forall c | 0 <= c < |blocks| - j
      ensures |blocks[j..][c]| <= blockSize
    {
      assert blocks[j..][c] == blocks[j + c];
    }
  }

  /** Every block is empty. */
  predicate AllEmpty<E>(blocks: seq<seq<E>>)
  {
    forall b :: 0 <= b < |blocks| ==> |blocks[b]| == 0
  }

  lemma {:induction false} FlattenAppend<E>(a: seq<seq<E>>, b: seq<seq<E>>)
    ensures Flatten(a + b) == Flatten(a) + Flatten(b)
  {
    if |a| == 0 {
      assert a + b == b;
    } else {
      assert (a + b)[1..] == a[1..] + b;
      FlattenAppend(a[1..], b);
    }
  }

  /** The logical list is the prefix before block `b`, block `b`, and the rest. */
  lemma {:induction false} FlattenSplit<E>(blocks: seq<seq<E>>, b: nat)
    requires b < |blocks|
    ensures Flatten(blocks) == Flatten(blocks[..b]) + blocks[b] + Flatten(blocks[b+1..])
  {
    assert blocks == blocks[..b] + ([blocks[b]] + blocks[b+1..]);
    FlattenAppend(blocks[..b], [blocks[b]] + blocks[b+1..]);
    assert ([blocks[b]] + blocks[b+1..])[1..] == blocks[b+1..];
  }

  /** Replacing one block changes exactly that block's stretch of the logical list. */
  lemma {:induction false} FlattenUpdate<E>(blocks: seq<seq<E>>, b: nat, nb: seq<E>)
    requires b < |blocks|
    ensures Flatten(blocks[b := nb]) == Flatten(blocks[..b]) + nb + Flatten(blocks[b+1..])
  {
    var u := blocks[b := nb];
    FlattenSplit(u, b);
    assert u[..b] == blocks[..b];
    assert u[b+1..] == blocks[b+1..];
  }

  lemma {:induction false} StartStep<E>(blocks: seq<seq<E>>, b: nat)
    requires b < |blocks|
    ensures Start(blocks, b + 1) == Start(blocks, b) + |blocks[b]|
  {
    assert blocks[..b+1] == blocks[..b] + [blocks[b]];
    FlattenAppend(blocks[..b], [blocks[b]]);
    assert [blocks[b]][1..] == [];
  }

  lemma {:induction false} StartMono<E>(blocks: seq<seq<E>>, b: nat, c: nat)
    requires b <= c <= |blocks|
    ensures Start(blocks, b) <= Start(blocks, c)
  {
    assert blocks[..c] == blocks[..b] + blocks[b..c];
    FlattenAppend(blocks[..b], blocks[b..c]);
  }

  lemma {:induction false} StartAll<E>(blocks: seq<seq<E>>)
    ensures Start(blocks, |blocks|) == |Flatten(blocks)|
    ensures Start(blocks, 0) == 0
  {
    assert blocks[..|blocks|] == blocks;
  }

  /** Each block occupies the stretch of logical positions its prefix sum says. */
  lemma {:induction false} LocatedElement<E>(blocks: seq<seq<E>>, i: int, b: int, o: int)
    requires Located(blocks, i, b, o)
    ensures 0 <= i < |Flatten(blocks)|
    ensures Flatten(blocks)[i] == blocks[b][o]
  {
    FlattenSplit(blocks, b);
  }

  /** A logical position lies in at most one block. */
  lemma {:induction false} LocatedUnique<E>(blocks: seq<seq<E>>, i: int, b: int, o: int, b': int, o': int)
    requires Located(blocks, i, b, o) && Located(blocks, i, b', o')
    ensures b == b' && o == o'
  {
    if b < b' {
      StartStep(blocks, b);
      StartMono(blocks, b + 1, b');
    } else if b' < b {
      StartStep(blocks, b');
      StartMono(blocks, b' + 1, b);
    }
  }

  /** Blocks of at most `blockSize` elements each flatten to at most `|blocks| * blockSize` elements. */
  lemma {:induction false} FlattenBound<E>(blocks: seq<seq<E>>, blockSize: int)
    requires Bounded(blocks, blockSize)
    ensures |Flatten(blocks)| <= |blocks| * blockSize
  {
    if |blocks| > 0 {
      FlattenBound(blocks[1..], blockSize);
      assert |blocks[0]| <= blockSize;
    }
  }

  lemma {:induction false} FlattenAllEmpty<E>(blocks: seq<seq<E>>)
    requires AllEmpty(blocks)
    ensures Flatten(blocks) == []
  {
    if |blocks| > 0 {
      assert |blocks[0]| == 0;
      FlattenAllEmpty(blocks[1..]);
    }
  }

  lemma {:induction false} FlattenCons<E>(x: seq<E>, t: seq<seq<E>>)
    ensures Flatten([x] + t) == x + Flatten(t)
  {
    assert ([x] + t)[1..] == t;
  }

  /** Replacing block `b` by two blocks whose concatenation is block `b` leaves the logical list unchanged. */
  lemma {:induction false} FlattenSplitBlock<E>(blocks: seq<seq<E>>, b: nat, x: seq<E>, y: seq<E>)
    requires b < |blocks| && x + y == blocks[b]
    ensures Flatten(blocks[..b] + [x, y] + blocks[b+1..]) == Flatten(blocks)
  {
    var p := blocks[..b];
    var q := blocks[b+1..];
    var t := [x] + ([y] + q);
    assert p + [x, y] + q == p + t;
    FlattenCons(y, q);
    FlattenCons(x, [y] + q);
    assert Flatten(t) == x + y + Flatten(q);
    FlattenAppend(p, t);
    FlattenSplit(blocks, b);
  }

  /** Dropping block `b` and appending an empty block removes exactly block `b`'s stretch. */
  lemma {:induction false} FlattenMoveToEnd<E>(blocks: seq<seq<E>>, b: nat)
    requires b < |blocks|
    ensures Flatten(blocks[..b] + blocks[b+1..] + [[]])
         == Flatten(blocks[..b]) + Flatten(blocks[b+1..])
  {
    var empty: seq<seq<E>> := [[]];
    FlattenAppend(blocks[..b] + blocks[b+1..], empty);
    FlattenAppend(blocks[..b], blocks[b+1..]);
    FlattenCons<E>([], []);
  }
  /** Empty blocks after the first `k` add nothing to the flattening. */
  lemma {:induction false} FlattenTrailingEmpty<E>(blocks: seq<seq<E>>, k: nat)
    requires k <= |blocks|
    requires forall c :: k <= c < |blocks| ==> |blocks[c]| == 0
    ensures Flatten(blocks[..k]) == Flatten(blocks)
  {
    var tail := blocks[k..];
    assert blocks == blocks[..k] + tail;
    FlattenAppend(blocks[..k], tail);
    forall c | 0 <= c < |tail|
      ensures |tail[c]| == 0
    {
      assert tail[c] == blocks[k + c];
    }
    FlattenAllEmpty(tail);
  }

  /**
   * Moving block `b` to the end as an empty block: the other blocks keep
   * their order and bounds, and the flattening is that of emptying it in place.
   */
  lemma {:induction false} EmptiedBlockToEnd<E>(blocks: seq<seq<E>>, blockSize: nat, b: nat)
    requires b < |blocks| && Bounded(blocks, blockSize)
    ensures var m := blocks[..b] + blocks[b+1..] + [[]];
      && |m| == |blocks| && Bounded(m, blockSize)
      && m[..b] == blocks[..b] && m[b..|blocks| - 1] == blocks[b+1..] && m[|blocks| - 1] == []
      && Flatten(m) == Flatten(blocks[b := []])
  {
    var m := blocks[..b] + blocks[b+1..] + [[]];
    FlattenMoveToEnd(blocks, b);
    FlattenUpdate(blocks, b, []);
    assert m[..b] == blocks[..b];
    assert m[b..|blocks| - 1] == blocks[b+1..];
    forall c | 0 <= c < |m|
      ensures |m[c]| <= blockSize
    {
      if c < b { assert m[c] == blocks[c]; }
      else if c < |blocks| - 1 { assert m[c] == blocks[c + 1]; }
    }
  }


  lemma {:induction false} SeqInsert<E>(p: seq<E>, blk: seq<E>, q: seq<E>, o: nat, v: E)
    requires o <= |blk|
    ensures var s := p + blk + q;
      s[..|p| + o] + [v] + s[|p| + o..] == p + (blk[..o] + [v] + blk[o..]) + q
  {
    var s := p + blk + q;
    assert s[..|p| + o] == p + blk[..o];
    assert s[|p| + o..] == blk[o..] + q;
  }

  lemma {:induction false} SeqDelete<E>(p: seq<E>, blk: seq<E>, q: seq<E>, o: nat)
    requires o < |blk|
    ensures var s := p + blk + q;
      s[|p| + o] == blk[o] &&
      s[..|p| + o] + s[|p| + o + 1..] == p + (blk[..o] + blk[o+1..]) + q
  {
    var s := p + blk + q;
    assert s[..|p| + o] == p + blk[..o];
    assert s[|p| + o + 1..] == blk[o+1..] + q;
  }

  /** Inserting `v` at offset `o` of block `b` inserts it at logical position `Start(b) + o`. */
  lemma {:induction false} InsertInBlock<E>(blocks: seq<seq<E>>, b: nat, o: nat, v: E)
    requires b < |blocks| && o <= |blocks[b]|
    ensures var s := Flatten(blocks);
      var i := Start(blocks, b) + o;
      i <= |s| &&
      Flatten(blocks[b := blocks[b][..o] + [v] + blocks[b][o..]]) == s[..i] + [v] + s[i..]
  {
    var blk := blocks[b];
    FlattenSplit(blocks, b);
    FlattenUpdate(blocks, b, blk[..o] + [v] + blk[o..]);
    SeqInsert(Flatten(blocks[..b]), blk, Flatten(blocks[b+1..]), o, v);
  }

  /** Deleting offset `o` of block `b` deletes logical position `Start(b) + o`. */
  lemma {:induction false} DeleteInBlock<E>(blocks: seq<seq<E>>, b: nat, o: nat)
    requires b < |blocks| && o < |blocks[b]|
    ensures var s := Flatten(blocks);
      var i := Start(blocks, b) + o;
      i < |s| && s[i] == blocks[b][o] &&
      Flatten(blocks[b := blocks[b][..o] + blocks[b][o+1..]]) == s[..i] + s[i+1..]
  {
    var blk := blocks[b];
    FlattenSplit(blocks, b);
    FlattenUpdate(blocks, b, blk[..o] + blk[o+1..]);
    SeqDelete(Flatten(blocks[..b]), blk, Flatten(blocks[b+1..]), o);
  }
}
