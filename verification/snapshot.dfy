/**
 * The externalized form of a block list
 * (src/com/mebigfatguy/blocklist/BlockList.java:539-580) as an abstract
 * token stream: `Int(blockSize)`, `Int(size)`, then per block a `Fill(n)`
 * token and its `n` elements.
 */
module Snapshot {
  import opened Wrappers
  import opened Blocks
  import opened BlockLists

  datatype Token<E> = Int(n: int) | Fill(n: int) | Item(e: E)

  /**
   * Why a stream cannot be read back: `Malformed` for a stream whose tokens
   * do not have the expected kinds or values, `NullBlock` where the Java
   * code completes but leaves `blocks[0]` null.
   */
  datatype DecodeError = Malformed | NullBlock

  /** Java's `/` on `int`, which truncates toward zero. */
  function JavaDiv(a: int, d: int): int
    requires d > 0
  {
    if a >= 0 then a / d else -((-a) / d)
  }

  /** The number of blocks `readExternal` allocates and reads: `ceil(size / blockSize)`. */
  function NumBlocks(size: int, blockSize: int): int
    requires blockSize >= 1
  {
    JavaDiv(size + (blockSize - 1), blockSize)
  }

  /** The stream starts with the two header integers, block size then size. */
  predicate HasHeader<E>(tokens: seq<Token<E>>)
  {
    |tokens| >= 2 && tokens[0].Int? && tokens[1].Int?
  }

  function Items<E>(b: seq<E>): seq<Token<E>>
  {
    seq(|b|, k requires 0 <= k < |b| => Item(b[k]))
  }

  function EncodeBlocks<E>(blocks: seq<seq<E>>): (r: seq<Token<E>>)
    ensures |r| == |blocks| + |Flatten(blocks)|
  {
    if |blocks| == 0 then []
    else [Fill(|blocks[0]|)] + Items(blocks[0]) + EncodeBlocks(blocks[1..])
  }

  /** `writeExternal`: the header, then every block, empty ones included. */
  function Encode<E>(l: BlockList<E>): (r: seq<Token<E>>)
    ensures HasHeader(r) && r[0].n == l.blockSize && r[1].n == l.size
    ensures |r| == 2 + |l.blocks| + |Elements(l)|
  {
    [Int(l.blockSize), Int(l.size)] + EncodeBlocks(l.blocks)
  }

  /** Reads `n` element tokens. */
  function ReadItems<E>(tokens: seq<Token<E>>, n: nat): (r: Result<(seq<E>, seq<Token<E>>), DecodeError>)
    ensures r.Success? ==> n <= |tokens| && |r.value.0| == n && r.value.1 == tokens[n..]
    decreases n
  {
    if n == 0 then Success(([], tokens))
    else if |tokens| == 0 || !tokens[0].Item? then Failure(Malformed)
    else
      match ReadItems(tokens[1..], n - 1)
      case Failure(e) => Failure(e)
      case Success((xs, rest)) => Success(([tokens[0].e] + xs, rest))
  }

  /** Reads one block: its fill count, which must fit the block, then its elements. */
  function ReadBlock<E>(tokens: seq<Token<E>>, blockSize: int): (r: Result<(seq<E>, seq<Token<E>>), DecodeError>)
    ensures r.Success? ==> |r.value.0| <= blockSize && |r.value.1| < |tokens|
  {
    if |tokens| == 0 || !tokens[0].Fill? then Failure(Malformed)
    else
      var n := tokens[0].n;
      if n < 0 || n > blockSize then Failure(Malformed)
      else ReadItems(tokens[1..], n)
  }

  /** Reads `k` blocks. */
  function ReadBlocks<E>(tokens: seq<Token<E>>, blockSize: int, k: nat): (r: Result<(seq<seq<E>>, seq<Token<E>>), DecodeError>)
    ensures r.Success? ==> |r.value.0| == k && Bounded(r.value.0, blockSize)
    decreases k
  {
    if k == 0 then Success(([], tokens))
    else
      match ReadBlock(tokens, blockSize)
      case Failure(e) => Failure(e)
      case Success((b, rest)) =>
        match ReadBlocks(rest, blockSize, k - 1)
        case Failure(e) => Failure(e)
        case Success((bs, rest')) => Success(([b] + bs, rest'))
  }

  /**
   * `readExternal` as written: reads the header, then only
   * `ceil(size / blockSize)` blocks, and keeps the stored size unchecked.
   * A size of 0 or less allocates no block, leaving `blocks[0]` null.
   */
  function DecodeAsWritten<E>(tokens: seq<Token<E>>): (r: Result<BlockList<E>, DecodeError>)
    ensures r.Success? ==>
      && r.value.blockSize >= 1 && Bounded(r.value.blocks, r.value.blockSize)
      && r.value.size >= 1 && |r.value.blocks| == NumBlocks(r.value.size, r.value.blockSize)
      && r.value.revision == 0
    ensures r.Success? ==> HasHeader(tokens) && r.value.blockSize == tokens[0].n && r.value.size == tokens[1].n
    ensures HasHeader(tokens) && tokens[0].n >= 1 && tokens[1].n <= 0 ==>
      r == Failure(NullBlock)
  {
    if |tokens| < 2 || !tokens[0].Int? || !tokens[1].Int? then Failure(Malformed)
    else
      var blockSize := tokens[0].n;
      var size := tokens[1].n;
      if blockSize < 1 then Failure(Malformed)
      else
        NumBlocksNonPositive(size, blockSize);
        var numBlocks := NumBlocks(size, blockSize);
        if numBlocks <= 0 then Failure(NullBlock)
        else
          match ReadBlocks(tokens[2..], blockSize, numBlocks)
          case Failure(e) => Failure(e)
          case Success((blocks, _)) => Success(BlockList(blocks, blockSize, size, 0))
  }

  /** Reads blocks until the stream is exhausted. */
  function ReadAllBlocks<E>(tokens: seq<Token<E>>, blockSize: int): (r: Result<seq<seq<E>>, DecodeError>)
    ensures r.Success? ==> Bounded(r.value, blockSize)
    decreases |tokens|
  {
    if |tokens| == 0 then Success([])
    else
      match ReadBlock(tokens, blockSize)
      case Failure(e) => Failure(e)
      case Success((b, rest)) =>
        match ReadAllBlocks(rest, blockSize)
        case Failure(e) => Failure(e)
        case Success(bs) => Success([b] + bs)
  }

  /**
   * `readExternal` reading every block that was written, and rejecting a
   * stored size that disagrees with the elements read.
   */
  function Decode<E>(tokens: seq<Token<E>>): (r: Result<BlockList<E>, DecodeError>)
    ensures r.Success? ==> Valid(r.value) && r.value.revision == 0
    ensures r.Success? ==> HasHeader(tokens) && r.value.blockSize == tokens[0].n && r.value.size == tokens[1].n
  {
    if |tokens| < 2 || !tokens[0].Int? || !tokens[1].Int? then Failure(Malformed)
    else
      var blockSize := tokens[0].n;
      var size := tokens[1].n;
      if blockSize < 1 then Failure(Malformed)
      else
        match ReadAllBlocks(tokens[2..], blockSize)
        case Failure(e) => Failure(e)
        case Success(blocks) =>
          if size != |Flatten(blocks)| then Failure(Malformed)
          else Success(BlockList(blocks, blockSize, size, 0))
  }

  lemma {:induction false} ReadItemsEncoded<E>(b: seq<E>, rest: seq<Token<E>>)
    ensures ReadItems(Items(b) + rest, |b|) == Success((b, rest))
  {
    if |b| > 0 {
      var t := Items(b) + rest;
      assert t[1..] == Items(b[1..]) + rest;
      ReadItemsEncoded(b[1..], rest);
      assert [b[0]] + b[1..] == b;
    }
  }

  lemma {:induction false} ReadBlockEncoded<E>(blocks: seq<seq<E>>, blockSize: int, rest: seq<Token<E>>)
    requires |blocks| > 0 && |blocks[0]| <= blockSize
    ensures ReadBlock(EncodeBlocks(blocks) + rest, blockSize)
         == Success((blocks[0], EncodeBlocks(blocks[1..]) + rest))
  {
    var tail := EncodeBlocks(blocks[1..]) + rest;
    var t := EncodeBlocks(blocks) + rest;
    assert t == [Fill(|blocks[0]|)] + (Items(blocks[0]) + tail);
    assert t[0] == Fill(|blocks[0]|);
    assert t[1..] == Items(blocks[0]) + tail;
    ReadItemsEncoded(blocks[0], tail);
  }

  /** Reading `k` blocks back from an encoding yields the first `k` blocks and leaves the encoding of the rest. */
  lemma {:induction false} ReadBlocksEncoded<E>(blocks: seq<seq<E>>, blockSize: int, k: nat, rest: seq<Token<E>>)
    requires k <= |blocks| && Bounded(blocks, blockSize)
    ensures ReadBlocks(EncodeBlocks(blocks) + rest, blockSize, k)
         == Success((blocks[..k], EncodeBlocks(blocks[k..]) + rest))
  {
    if k > 0 {
      var t := EncodeBlocks(blocks) + rest;
      var tail := EncodeBlocks(blocks[1..]) + rest;
      ReadBlockEncoded(blocks, blockSize, rest);
      assert ReadBlock(t, blockSize) == Success((blocks[0], tail));
      BoundedSuffix(blocks, blockSize, 1);
      ReadBlocksEncoded(blocks[1..], blockSize, k - 1, rest);
      assert ReadBlocks(tail, blockSize, k - 1)
          == Success((blocks[1..][..k - 1], EncodeBlocks(blocks[1..][k - 1..]) + rest));
      TailSlices(blocks, k);
    }
  }

  /** Slicing after dropping the head is slicing the whole. */
  lemma TailSlices<T>(s: seq<T>, k: nat)
    requires 1 <= k <= |s|
    ensures s[1..][k - 1..] == s[k..]
    ensures [s[0]] + s[1..][..k - 1] == s[..k]
  {
  }

  /** Reading to the end of an encoding yields every block. */
  lemma {:induction false} ReadAllBlocksEncoded<E>(blocks: seq<seq<E>>, blockSize: int)
    requires Bounded(blocks, blockSize)
    ensures ReadAllBlocks(EncodeBlocks(blocks), blockSize) == Success(blocks)
  {
    if |blocks| > 0 {
      ReadBlockEncoded(blocks, blockSize, []);
      assert EncodeBlocks(blocks) + [] == EncodeBlocks(blocks);
      assert EncodeBlocks(blocks[1..]) + [] == EncodeBlocks(blocks[1..]);
      BoundedSuffix(blocks, blockSize, 1);
      ReadAllBlocksEncoded(blocks[1..], blockSize);
      assert [blocks[0]] + blocks[1..] == blocks;
    }
  }

  /** Round trip: reading every block back reproduces the list exactly, with a fresh revision. */
  lemma {:induction false} DecodeRoundTrip<E>(l: BlockList<E>)
    requires Valid(l)
    ensures Decode(Encode(l)) == Success(l.(revision := 0))
  {
    var t := Encode(l);
    assert t[2..] == EncodeBlocks(l.blocks);
    ReadAllBlocksEncoded(l.blocks, l.blockSize);
  }

  /** `q` is the quotient of `a` by `d` when `a` lies in `[q*d, (q+1)*d)`. */
  lemma DivWithin(a: int, d: int, q: int)
    requires d >= 1 && q * d <= a < (q + 1) * d
    ensures a / d == q
  {
    var r := a / d;
    assert a == r * d + a % d && 0 <= a % d < d;
    if r > q {
      MulMono(q + 1, r, d);
      assert false;
    }
    if r < q {
      MulMono(r + 1, q, d);
      assert false;
    }
  }

  lemma MulMono(x: int, y: int, d: int)
    requires x <= y && d >= 0
    ensures x * d <= y * d
  {
    assert y * d - x * d == (y - x) * d;
  }

  /** A size of 0 or less makes `readExternal` allocate no block. */
  lemma NumBlocksNonPositive(size: int, blockSize: int)
    requires blockSize >= 1
    ensures size <= 0 ==> NumBlocks(size, blockSize) <= 0
  {
    var a := size + (blockSize - 1);
    if size <= 0 && a >= 0 {
      DivWithin(a, blockSize, 0);
    }
  }

  /** A non-empty list of at most `m` full blocks is read back as between 1 and `m` blocks. */
  lemma NumBlocksRange(size: int, blockSize: int, m: nat)
    requires blockSize >= 1 && 1 <= size <= m * blockSize
    ensures 1 <= NumBlocks(size, blockSize) <= m
  {
    var a := size + (blockSize - 1);
    var q := a / blockSize;
    assert a == q * blockSize + a % blockSize && 0 <= a % blockSize < blockSize;
    if q < 1 {
      MulMono(q, 0, blockSize);
      assert false;
    }
    if q > m {
      MulMono(m + 1, q, blockSize);
      assert false;
    }
  }

  /**
   * The round trip of the code as written holds when the list is non-empty
   * and every element lies in the first `ceil(size / blockSize)` blocks.
   */
  lemma DecodeAsWrittenRoundTrip<E>(l: BlockList<E>)
    requires Valid(l) && l.size > 0
    requires forall c :: NumBlocks(l.size, l.blockSize) <= c < |l.blocks| ==> |l.blocks[c]| == 0
    ensures var r := DecodeAsWritten(Encode(l));
      && r.Success? && Valid(r.value)
      && Elements(r.value) == Elements(l)
      && r.value.blockSize == l.blockSize
  {
    FlattenBound(l.blocks, l.blockSize);
    NumBlocksRange(l.size, l.blockSize, |l.blocks|);
    var k := NumBlocks(l.size, l.blockSize);
    var t := Encode(l);
    assert t[2..] == EncodeBlocks(l.blocks) + [];
    ReadBlocksEncoded(l.blocks, l.blockSize, k, []);
    FlattenTrailingEmpty(l.blocks, k);
  }

  /**
   * Counterexample: with block size 2, appending x and y, then `add(1, z)`
   * (which splits the full block) and `remove(0)` leaves blocks [[z], [y]].
   * Blocks [[x], [y]] of that shape are read back as the single block [x],
   * though the stored size still says 2.
   */
  lemma DecodeAsWrittenLosesBlocks<E>(x: E, y: E)
    ensures var l := BlockList([[x], [y]], 2, 2, 5);
      && Valid(l) && Elements(l) == [x, y]
      && DecodeAsWritten(Encode(l)) == Success(BlockList([[x]], 2, 2, 0))
  {
    var blocks := [[x], [y]];
    var l := BlockList(blocks, 2, 2, 5);
    assert Elements(l) == [x, y] by {
      FlattenCons([y], []);
      assert blocks == [[x]] + [[y]];
      FlattenCons([x], [[y]]);
    }
    assert NumBlocks(2, 2) == 1 by {
      DivWithin(3, 2, 1);
    }
    var t := Encode(l);
    assert t[2..] == EncodeBlocks(blocks) + [];
    ReadBlocksEncoded(blocks, 2, 1, []);
    assert blocks[..1] == [[x]];
  }

  /** Counterexample: an empty list is written fine but read back with its only block left null. */
  lemma DecodeAsWrittenEmpty<E>(blockSize: int)
    requires blockSize >= 1
    ensures DecodeAsWritten(Encode(New<E>(DefaultBlockCount, blockSize))) == Failure(NullBlock)
  {
    var l := New<E>(DefaultBlockCount, blockSize);
    var a := 0 + (blockSize - 1);
    assert a / blockSize == 0 by { DivWithin(a, blockSize, 0); }
  }

  /** Blocks that only ever had elements appended: all full except possibly the last. */
  predicate AppendShaped<E>(l: BlockList<E>)
  {
    forall c :: 0 <= c < |l.blocks| - 1 ==> |l.blocks[c]| == l.blockSize
  }

  /** A fresh or cleared list is append-shaped and `add` keeps it so. */
  lemma AppendKeepsShape<E>(l: BlockList<E>, v: E, blockSize: int)
    requires blockSize >= 1 && Valid(l) && AppendShaped(l)
    ensures AppendShaped(New<E>(DefaultBlockCount, blockSize))
    ensures AppendShaped(Clear(l))
    ensures AppendShaped(Add(l, v).0)
  {
    var r := Add(l, v).0;
    if |r.blocks| == |l.blocks| + 1 {
      assert forall c :: 0 <= c < |l.blocks| ==> r.blocks[c] == l.blocks[c];
    }
  }

  lemma {:induction false} FullBlocksLength<E>(blocks: seq<seq<E>>, blockSize: int)
    requires forall c :: 0 <= c < |blocks| ==> |blocks[c]| == blockSize
    ensures |Flatten(blocks)| == |blocks| * blockSize
  {
    if |blocks| > 0 {
      FullBlocksLength(blocks[1..], blockSize);
    }
  }

  /** `n - 1` full blocks and a last block holding `f` make `ceil(size / blockSize)` equal `n`, or `n - 1` when `f` is 0. */
  lemma CeilDivShaped(n: nat, bs: int, f: int)
    requires n >= 1 && bs >= 1 && 0 <= f <= bs && (n - 1) * bs + f >= 1
    ensures NumBlocks((n - 1) * bs + f, bs) == if f > 0 then n else n - 1
  {
    var a := (n - 1) * bs + f + (bs - 1);
    assert n * bs == (n - 1) * bs + bs && (n + 1) * bs == n * bs + bs;
    if f > 0 {
      DivWithin(a, bs, n);
    } else {
      DivWithin(a, bs, n - 1);
    }
  }

  /** Lists built by appends alone survive the round trip of the code as written, once non-empty. */
  lemma AppendShapedRoundTrip<E>(l: BlockList<E>)
    requires Valid(l) && AppendShaped(l) && l.size > 0
    ensures var r := DecodeAsWritten(Encode(l));
      r.Success? && Elements(r.value) == Elements(l)
  {
    var n := |l.blocks|;
    var bs := l.blockSize;
    var f := |l.blocks[n - 1]|;
    FlattenSplit(l.blocks, n - 1);
    assert l.blocks[n..] == [];
    var full := l.blocks[..n - 1];
    forall c | 0 <= c < |full|
      ensures |full[c]| == bs
    {
      assert full[c] == l.blocks[c];
    }
    FullBlocksLength(full, bs);
    assert l.size == (n - 1) * bs + f;
    CeilDivShaped(n, bs, f);
    DecodeAsWrittenRoundTrip(l);
  }
}
