/**
 * Searching, `remove(Object)` and `removeAll` of
 * src/com/mebigfatguy/blocklist/BlockList.java. Elements are Java objects,
 * so a slot may hold null: `Obj<T>` is either `Null` or a reference to a
 * value, and Java's `equals` on two references is value equality.
 */
module Search {
  import opened Wrappers
  import opened Blocks
  import opened BlockLists

  datatype Obj<T> = Null | Ref(value: T)

  /** Reference definition: the first position holding `x`, or -1. */
  function FirstIndexOf<T(==)>(s: seq<T>, x: T): (r: int)
    ensures -1 <= r < |s|
    ensures r == -1 <==> x !in s
    ensures r >= 0 ==> s[r] == x && x !in s[..r]
  {
    if |s| == 0 then -1
    else if s[0] == x then 0
    else
      var k := FirstIndexOf(s[1..], x);
      assert s == [s[0]] + s[1..];
      if k < 0 then -1
      else
        assert s[..k + 1] == [s[0]] + s[1..][..k];
        k + 1
  }

  /** Reference definition: the last position holding `x`, or -1. */
  function LastIndexOfSeq<T(==)>(s: seq<T>, x: T): (r: int)
    ensures -1 <= r < |s|
    ensures r == -1 <==> x !in s
    ensures r >= 0 ==> s[r] == x && x !in s[r + 1..]
  {
    if |s| == 0 then -1
    else if s[|s| - 1] == x then |s| - 1
    else
      var k := LastIndexOfSeq(s[..|s| - 1], x);
      assert s == s[..|s| - 1] + [s[|s| - 1]];
      if k < 0 then -1
      else
        assert s[k + 1..] == s[..|s| - 1][k + 1..] + [s[|s| - 1]];
        k
  }

  /** The logical list with its first `x` (if any) taken out. */
  function RemoveFirst<T(==)>(s: seq<T>, x: T): (r: seq<T>)
    ensures x !in s ==> r == s
    ensures x in s ==> |r| == |s| - 1 && multiset(r) == multiset(s) - multiset{x}
  {
    var k := FirstIndexOf(s, x);
    if k < 0 then s
    else
      assert s == s[..k] + [s[k]] + s[k + 1..];
      s[..k] + s[k + 1..]
  }

  /** The references among `xs`, in order. */
  function Refs<T>(xs: seq<Obj<T>>): seq<Obj<T>>
  {
    if |xs| == 0 then []
    else (if xs[0].Ref? then [xs[0]] else []) + Refs(xs[1..])
  }

  /** `removeAll`'s effect on the logical list: each non-null argument entry takes out one occurrence. */
  function RemoveEach<T(==)>(s: seq<Obj<T>>, xs: seq<Obj<T>>): seq<Obj<T>>
  {
    if |xs| == 0 then s
    else RemoveEach(if xs[0].Ref? then RemoveFirst(s, xs[0]) else s, xs[1..])
  }

  /** Taking one `x` out with `RemoveFirst` subtracts `x` once, saturating at zero. */
  lemma RemoveFirstSubtracts<T>(s: seq<T>, x: T)
    ensures multiset(RemoveFirst(s, x)) == multiset(s) - multiset{x}
  {
    if x !in s {
      assert multiset(s)[x] == 0;
      assert multiset(s) - multiset{x} == multiset(s);
    }
  }

  /** Subtracting two multisets in turn is subtracting their sum. */
  lemma SubtractTwice<T>(a: multiset<T>, b: multiset<T>, c: multiset<T>)
    ensures a - b - c == a - (b + c)
  {
    assert forall y :: (a - b - c)[y] == (a - (b + c))[y];
  }

  /**
   * Removing entry by entry takes away exactly as many copies of each value
   * as the argument lists, saturating at the number present: `removeAll`
   * removes first occurrences only, one per argument entry.
   */
  lemma {:induction false} RemoveEachMultiset<T>(s: seq<Obj<T>>, xs: seq<Obj<T>>)
    ensures multiset(RemoveEach(s, xs)) == multiset(s) - multiset(Refs(xs))
  {
    if |xs| > 0 {
      var x := xs[0];
      var s1 := if x.Ref? then RemoveFirst(s, x) else s;
      RemoveEachMultiset(s1, xs[1..]);
      if x.Ref? {
        assert Refs(xs) == [x] + Refs(xs[1..]);
        RemoveFirstSubtracts(s, x);
        SubtractTwice(multiset(s), multiset{x}, multiset(Refs(xs[1..])));
      } else {
        assert Refs(xs) == Refs(xs[1..]);
      }
    }
  }

  /** A position holding `x` with no `x` before it is the first index of `x`. */
  lemma FirstHit<T>(s: seq<T>, pos: nat, x: T)
    requires pos < |s| && s[pos] == x && x !in s[..pos]
    ensures FirstIndexOf(s, x) == pos
  {
  }

  /** A position holding `x` with no `x` after it is the last index of `x`. */
  lemma LastHit<T>(s: seq<T>, pos: nat, x: T)
    requires pos < |s| && s[pos] == x && x !in s[pos + 1..]
    ensures LastIndexOfSeq(s, x) == pos
  {
  }

  /** The forward scan's hit: no `x` in earlier blocks nor earlier in block `b`. */
  lemma ForwardHitIsFirst<T>(blocks: seq<seq<T>>, b: nat, o: nat, x: T)
    requires b < |blocks| && o < |blocks[b]| && blocks[b][o] == x
    requires x !in Flatten(blocks[..b]) && x !in blocks[b][..o]
    ensures FirstIndexOf(Flatten(blocks), x) == Start(blocks, b) + o
  {
    FlattenSplit(blocks, b);
    var all := Flatten(blocks);
    var pos := Start(blocks, b) + o;
    assert all[..pos] == Flatten(blocks[..b]) + blocks[b][..o];
    assert all[pos] == x;
    FirstHit(all, pos, x);
  }

  /** The backward scan's hit: no `x` in later blocks nor later in block `b`. */
  lemma BackwardHitIsLast<T>(blocks: seq<seq<T>>, b: nat, o: nat, x: T)
    requires b < |blocks| && o < |blocks[b]| && blocks[b][o] == x
    requires x !in Flatten(blocks[b + 1..]) && x !in blocks[b][o + 1..]
    ensures LastIndexOfSeq(Flatten(blocks), x) == Start(blocks, b) + o
  {
    FlattenSplit(blocks, b);
    var all := Flatten(blocks);
    var pos := Start(blocks, b) + o;
    assert all[pos + 1..] == blocks[b][o + 1..] + Flatten(blocks[b + 1..]);
    assert all[pos] == x;
    LastHit(all, pos, x);
  }

  /** Absence of `x` extends over one more block, forward. */
  lemma AbsentThroughBlock<T>(blocks: seq<seq<T>>, b: nat, x: T)
    requires b < |blocks| && x !in Flatten(blocks[..b]) && x !in blocks[b]
    ensures x !in Flatten(blocks[..b + 1])
  {
    assert blocks[..b + 1] == blocks[..b] + [blocks[b]];
    FlattenAppend(blocks[..b], [blocks[b]]);
    FlattenCons(blocks[b], []);
  }

  /** Absence of `x` extends over one more block, backward. */
  lemma AbsentFromBlock<T>(blocks: seq<seq<T>>, b: nat, x: T)
    requires b < |blocks| && x !in Flatten(blocks[b + 1..]) && x !in blocks[b]
    ensures x !in Flatten(blocks[b..])
  {
    assert blocks[b..] == [blocks[b]] + blocks[b + 1..];
    FlattenCons(blocks[b], blocks[b + 1..]);
  }

  /** `indexOf(element)`: scans block by block; null is never found. */
  method IndexOf<T(==)>(l: BlockList<Obj<T>>, element: Obj<T>) returns (r: int)
    ensures element.Null? ==> r == -1
    ensures element.Ref? ==> r == FirstIndexOf(Elements(l), element)
  {
    if element.Null? {
      return -1;
    }
    var pos := 0;
    var b := 0;
    while b < |l.blocks|
      invariant 0 <= b <= |l.blocks|
      invariant pos == Start(l.blocks, b)
      invariant element !in Flatten(l.blocks[..b])
    {
      var blk := l.blocks[b];
      var s := 0;
      while s < |blk|
        invariant 0 <= s <= |blk|
        invariant pos == Start(l.blocks, b) + s
        invariant element !in blk[..s]
      {
        if element == blk[s] {
          ForwardHitIsFirst(l.blocks, b, s, element);
          return pos;
        }
        assert blk[..s + 1] == blk[..s] + [blk[s]];
        pos := pos + 1;
        s := s + 1;
      }
      assert blk[..s] == blk;
      AbsentThroughBlock(l.blocks, b, element);
      StartStep(l.blocks, b);
      b := b + 1;
    }
    assert l.blocks[..b] == l.blocks;
    return -1;
  }

  /** `lastIndexOf(element)`: scans blocks and offsets backward from `size - 1`; null is never found. */
  method LastIndexOf<T(==)>(l: BlockList<Obj<T>>, element: Obj<T>) returns (r: int)
    requires Valid(l)
    ensures element.Null? ==> r == -1
    ensures element.Ref? ==> r == LastIndexOfSeq(Elements(l), element)
  {
    if element.Null? {
      return -1;
    }
    StartAll(l.blocks);
    var pos := l.size - 1;
    var b := |l.blocks| - 1;
    while b >= 0
      invariant -1 <= b < |l.blocks|
      invariant pos == Start(l.blocks, b + 1) - 1
      invariant element !in Flatten(l.blocks[b + 1..])
    {
      var blk := l.blocks[b];
      StartStep(l.blocks, b);
      var s := |blk| - 1;
      while s >= 0
        invariant -1 <= s < |blk|
        invariant pos == Start(l.blocks, b) + s
        invariant element !in blk[s + 1..]
      {
        if element == blk[s] {
          BackwardHitIsLast(l.blocks, b, s, element);
          return pos;
        }
        assert blk[s..] == [blk[s]] + blk[s + 1..];
        pos := pos - 1;
        s := s - 1;
      }
      assert blk[s + 1..] == blk;
      AbsentFromBlock(l.blocks, b, element);
      b := b - 1;
    }
    assert l.blocks[b + 1..] == l.blocks;
    return -1;
  }

  /** `contains(element)`: some slot holds `element`; false for null. */
  method Contains<T(==)>(l: BlockList<Obj<T>>, element: Obj<T>) returns (r: bool)
    ensures r <==> element.Ref? && element in Elements(l)
  {
    if element.Null? {
      return false;
    }
    var b := 0;
    while b < |l.blocks|
      invariant 0 <= b <= |l.blocks|
      invariant element !in Flatten(l.blocks[..b])
    {
      var blk := l.blocks[b];
      var s := 0;
      while s < |blk|
        invariant 0 <= s <= |blk|
        invariant element !in blk[..s]
      {
        if element == blk[s] {
          FlattenSplit(l.blocks, b);
          assert element in blk;
          return true;
        }
        s := s + 1;
      }
      assert blk[..s] == blk;
      assert l.blocks[..b + 1] == l.blocks[..b] + [blk];
      FlattenAppend(l.blocks[..b], [blk]);
      FlattenCons(blk, []);
      b := b + 1;
    }
    assert l.blocks[..b] == l.blocks;
    return false;
  }

  /** `containsAll(elements)`: every entry is contained, so any null entry makes it false. */
  method ContainsAll<T(==)>(l: BlockList<Obj<T>>, elements: seq<Obj<T>>) returns (r: bool)
    ensures r <==> forall k :: 0 <= k < |elements| ==> elements[k].Ref? && elements[k] in Elements(l)
  {
    var k := 0;
    while k < |elements|
      invariant 0 <= k <= |elements|
      invariant forall j :: 0 <= j < k ==> elements[j].Ref? && elements[j] in Elements(l)
    {
      var found := Contains(l, elements[k]);
      if !found {
        return false;
      }
      k := k + 1;
    }
    return true;
  }

  /**
   * `remove(Object)`: removes the first occurrence. An absent (or null)
   * element returns false, yet the revision is still bumped.
   */
  method RemoveObject<T(==)>(l: BlockList<Obj<T>>, element: Obj<T>) returns (l': BlockList<Obj<T>>, found: bool)
    requires Valid(l)
    ensures found <==> element.Ref? && element in Elements(l)
    ensures Elements(l') == if element.Ref? then RemoveFirst(Elements(l), element) else Elements(l)
    ensures Valid(l') && l'.revision == l.revision + 1 && l'.blockSize == l.blockSize
    ensures l'.size == |Elements(l')|
    ensures !found ==> l' == l.(revision := l.revision + 1)
  {
    var pos := IndexOf(l, element);
    if pos < 0 {
      l' := l.(revision := l.revision + 1);
      found := false;
      return;
    }
    assert element.Ref? && 0 <= pos < l.size;
    assert RemoveFirst(Elements(l), element) == Elements(l)[..pos] + Elements(l)[pos + 1..];
    var (l1, _) := RemoveIndex(l, pos);
    l' := l1;
    found := true;
  }

  /** `removeAll(elements)`: `remove(Object)` for each entry; true iff one of them removed something. */
  method RemoveAll<T(==)>(l: BlockList<Obj<T>>, elements: seq<Obj<T>>) returns (l': BlockList<Obj<T>>, removed: bool)
    requires Valid(l)
    ensures Valid(l') && Elements(l') == RemoveEach(Elements(l), elements)
    ensures removed <==> |Elements(l')| < |Elements(l)|
    ensures l'.revision == l.revision + |elements| && l'.blockSize == l.blockSize
  {
    l' := l;
    removed := false;
    var k := 0;
    while k < |elements|
      invariant 0 <= k <= |elements|
      invariant Valid(l') && l'.blockSize == l.blockSize
      invariant RemoveEach(Elements(l), elements) == RemoveEach(Elements(l'), elements[k..])
      invariant removed <==> |Elements(l')| < |Elements(l)|
      invariant |Elements(l')| <= |Elements(l)|
      invariant l'.revision == l.revision + k
    {
      assert elements[k..] == [elements[k]] + elements[k + 1..];
      var found;
      l', found := RemoveObject(l', elements[k]);
      removed := removed || found;
      k := k + 1;
    }
    assert elements[k..] == [];
  }
}
