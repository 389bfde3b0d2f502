/**
 * `retainAll` of src/com/mebigfatguy/blocklist/BlockList.java:344-371. The
 * argument collection's `contains` is code this model cannot see; it is the
 * parameter `keep`.
 */
module Retain {
  import opened Wrappers
  import opened Blocks
  import opened BlockLists

  /** Reference definition: the elements `keep` accepts, in their original order. */
  function Filter<E>(s: seq<E>, keep: E -> bool): seq<E>
  {
    if |s| == 0 then []
    else Filter(s[..|s| - 1], keep) + (if keep(s[|s| - 1]) then [s[|s| - 1]] else [])
  }

  /** Filtering never lengthens, and shortens exactly when some element is rejected. */
  lemma {:induction false} FilterShrinks<E>(s: seq<E>, keep: E -> bool)
    ensures |Filter(s, keep)| <= |s|
    ensures |Filter(s, keep)| < |s| <==> exists k :: 0 <= k < |s| && !keep(s[k])
  {
    if |s| > 0 {
      var t := s[..|s| - 1];
      FilterShrinks(t, keep);
      assert forall k :: 0 <= k < |t| ==> t[k] == s[k];
      if !keep(s[|s| - 1]) {
        assert !keep(s[|t|]);
      } else if exists k :: 0 <= k < |s| && !keep(s[k]) {
        var k :| 0 <= k < |s| && !keep(s[k]);
        assert !keep(t[k]);
      }
    }
  }

  /**
   * The state of the `retainAll` pass over `l`, started from `l0` whose
   * logical list was `orig`: the cursor is block `b`, offset `s`, logical
   * position `pos`; the first `consumed` original elements have been
   * decided, the survivors sit before `pos` and the undecided rest after it.
   */
  ghost predicate Pass<E>(l0: BlockList<E>, l: BlockList<E>, keep: E -> bool, orig: seq<E>, consumed: nat, b: nat, s: nat, pos: nat)
  {
    && Valid(l) && l.blockSize == l0.blockSize && |l.blocks| == |l0.blocks|
    && b <= |l.blocks|
    && (b < |l.blocks| ==> s <= |l.blocks[b]|)
    && (b == |l.blocks| ==> s == 0)
    && consumed <= |orig| && pos <= consumed
    && pos == Start(l.blocks, b) + s && pos <= l.size
    && Elements(l)[..pos] == Filter(orig[..consumed], keep)
    && Elements(l)[pos..] == orig[consumed..]
  }

  /** Deciding one more original element extends the survivors by it, or not. */
  lemma FilterSnoc<E>(orig: seq<E>, n: nat, keep: E -> bool)
    requires n < |orig|
    ensures Filter(orig[..n + 1], keep)
         == Filter(orig[..n], keep) + (if keep(orig[n]) then [orig[n]] else [])
  {
    assert orig[..n + 1][..n] == orig[..n];
  }

  /** The cursor's element is the next undecided original element. */
  lemma CursorElement<E>(l0: BlockList<E>, l: BlockList<E>, keep: E -> bool, orig: seq<E>, consumed: nat, b: nat, s: nat, pos: nat)
    requires Pass(l0, l, keep, orig, consumed, b, s, pos)
    requires b < |l.blocks| && s < |l.blocks[b]|
    ensures pos < |Elements(l)| && Elements(l)[pos] == l.blocks[b][s]
    ensures consumed < |orig| && orig[consumed] == l.blocks[b][s]
    ensures orig[consumed + 1..] == Elements(l)[pos + 1..]
  {
    LocatedElement(l.blocks, pos, b, s);
    var e := Elements(l);
    assert e[pos..][0] == e[pos];
    assert e[pos + 1..] == e[pos..][1..];
    assert orig[consumed + 1..] == orig[consumed..][1..];
  }

  /** One rejected element: removing it by position keeps the pass in step. */
  lemma RejectStep<E>(l0: BlockList<E>, l: BlockList<E>, keep: E -> bool, orig: seq<E>, consumed: nat, b: nat, s: nat, pos: nat)
    requires Pass(l0, l, keep, orig, consumed, b, s, pos)
    requires b < |l.blocks| && s < |l.blocks[b]| && !keep(l.blocks[b][s])
    ensures var l2 := RemoveIndex(l, pos).0;
      && Pass(l0, l2, keep, orig, consumed + 1, b, if |l.blocks[b]| == 1 then 0 else s, pos)
      && l2.revision == l.revision + 1 && l2.size == l.size - 1
  {
    CursorElement(l0, l, keep, orig, consumed, b, s, pos);
    FilterSnoc(orig, consumed, keep);
    var e := Elements(l);
    var l2 := RemoveAt(l, b, s).0;
    FindBlockAt(l, b, s);
    assert RemoveIndex(l, pos).0 == l2;
    assert Valid(l2) && |l2.blocks| == |l.blocks| && l2.blockSize == l.blockSize;
    assert l2.revision == l.revision + 1 && l2.size == l.size - 1;
    assert l2.blocks[..b] == l.blocks[..b];
    assert Start(l2.blocks, b) == Start(l.blocks, b);
    assert |l.blocks[b]| > 1 ==> s <= |l2.blocks[b]|;
    assert Elements(l2) == e[..pos] + e[pos + 1..];
    assert Elements(l2)[..pos] == e[..pos];
    assert Elements(l2)[pos..] == e[pos + 1..];
  }

  /** One accepted element: stepping over it keeps the pass in step. */
  lemma AcceptStep<E>(l0: BlockList<E>, l: BlockList<E>, keep: E -> bool, orig: seq<E>, consumed: nat, b: nat, s: nat, pos: nat)
    requires Pass(l0, l, keep, orig, consumed, b, s, pos)
    requires b < |l.blocks| && s < |l.blocks[b]| && keep(l.blocks[b][s])
    ensures Pass(l0, l, keep, orig, consumed + 1, b, s + 1, pos + 1)
  {
    CursorElement(l0, l, keep, orig, consumed, b, s, pos);
    FilterSnoc(orig, consumed, keep);
    var e := Elements(l);
    assert e[..pos + 1] == e[..pos] + [e[pos]];
  }

  /** At the end of a block the pass moves on to the next one. */
  lemma NextBlockStep<E>(l0: BlockList<E>, l: BlockList<E>, keep: E -> bool, orig: seq<E>, consumed: nat, b: nat, s: nat, pos: nat)
    requires Pass(l0, l, keep, orig, consumed, b, s, pos)
    requires b < |l.blocks| && s == |l.blocks[b]|
    ensures Pass(l0, l, keep, orig, consumed, b + 1, 0, pos)
  {
    StartStep(l.blocks, b);
  }

  /** A finished pass has decided every element and kept exactly the accepted ones. */
  lemma PassDone<E>(l0: BlockList<E>, l: BlockList<E>, keep: E -> bool, orig: seq<E>, consumed: nat, s: nat, pos: nat)
    requires Pass(l0, l, keep, orig, consumed, |l.blocks|, s, pos)
    ensures Elements(l) == Filter(orig, keep)
    ensures pos < consumed <==> exists k :: 0 <= k < |orig| && !keep(orig[k])
  {
    StartAll(l.blocks);
    assert Elements(l)[..pos] == Elements(l);
    assert orig[..consumed] == orig;
    FilterShrinks(orig, keep);
  }

  /**
   * `retainAll(elements)`: one pass over the blocks, removing by logical
   * position every element the argument does not contain. After a removal
   * the same slot is probed again, and after a removal that emptied the
   * block the same block index (now the next block) is probed again. Returns
   * whether anything was removed; the revision is bumped once more at the end.
   */
  method RetainAll<E>(l: BlockList<E>, keep: E -> bool) returns (l': BlockList<E>, changed: bool)
    requires Valid(l)
    ensures Valid(l') && Elements(l') == Filter(Elements(l), keep)
    ensures changed <==> exists k :: 0 <= k < |Elements(l)| && !keep(Elements(l)[k])
    ensures l'.revision > l.revision && l'.blockSize == l.blockSize
    ensures |l'.blocks| == |l.blocks|
  {
    ghost var orig := Elements(l);
    ghost var consumed: nat := 0;
    l' := l;
    changed := false;
    var pos: nat := 0;
    var b: nat := 0;
    var s: nat := 0;
    StartAll(l.blocks);
    while b < |l'.blocks|
      invariant Pass(l, l', keep, orig, consumed, b, s, pos)
      invariant l'.revision >= l.revision
      invariant changed <==> pos < consumed
      decreases l'.size - pos, |l'.blocks| - b
    {
      if s < |l'.blocks[b]| {
        if !keep(l'.blocks[b][s]) {
          var s2 := if |l'.blocks[b]| == 1 then 0 else s;
          RejectStep(l, l', keep, orig, consumed, b, s, pos);
          var (l2, _) := RemoveIndex(l', pos);
          l' := l2;
          s := s2;
          changed := true;
          consumed := consumed + 1;
        } else {
          AcceptStep(l, l', keep, orig, consumed, b, s, pos);
          pos := pos + 1;
          s := s + 1;
          consumed := consumed + 1;
        }
      } else {
        NextBlockStep(l, l', keep, orig, consumed, b, s, pos);
        b := b + 1;
        s := 0;
      }
    }
    PassDone(l, l', keep, orig, consumed, s, pos);
    l' := l'.(revision := l'.revision + 1);
  }
}
