/**
 * The fail-fast `BlockListIterator` of
 * src/com/mebigfatguy/blocklist/BlockList.java:499-537: a cursor and the
 * revision it was created against, checked on every call.
 */
module Iteration {
  import opened Wrappers
  import opened BlockLists

  /**
   * Iterator state. `canRemove` records whether `next` has returned an
   * element since the last removal; only the corrected `Remove` reads it.
   */
  datatype Iter = Iter(pos: int, expected: int, canRemove: bool)

  /**
   * `iterator()`: position 0, capturing the current revision. A fresh
   * iterator is valid, has a next element exactly when the list is
   * non-empty, and (under the corrected `remove`) has nothing to remove yet.
   */
  function NewIterator<E>(l: BlockList<E>): (it: Iter)
    ensures Valid(l) ==> HasNext(l, it) == Success(|Elements(l)| > 0)
    ensures Valid(l) ==> (Next(l, it).Success? <==> |Elements(l)| > 0)
    ensures Valid(l) ==> Remove(l, it) == (l, Failure(IllegalState))
  {
    Iter(0, l.revision, false)
  }

  /** `hasNext()`: fails once the list's revision has moved on; otherwise whether elements remain. */
  function HasNext<E>(l: BlockList<E>, it: Iter): (r: Result<bool, Thrown>)
    requires Valid(l)
    ensures r.Failure? <==> l.revision != it.expected
    ensures r.Failure? ==> r.error == ConcurrentModification
    ensures r.Success? ==> (r.value <==> it.pos < |Elements(l)|)
  {
    if l.revision != it.expected then Failure(ConcurrentModification)
    else Success(it.pos < l.size)
  }

  /** `next()`: the element at the cursor, and the cursor one further on. */
  function Next<E>(l: BlockList<E>, it: Iter): (r: Result<(E, Iter), Thrown>)
    requires Valid(l)
    ensures l.revision != it.expected ==> r == Failure(ConcurrentModification)
    ensures l.revision == it.expected ==> (r.Success? <==> 0 <= it.pos < |Elements(l)|)
    ensures r.Failure? && l.revision == it.expected ==> r.error == IndexOutOfBounds
    ensures r.Success? ==>
      && r.value.0 == Elements(l)[it.pos]
      && r.value.1 == Iter(it.pos + 1, it.expected, true)
  {
    if l.revision != it.expected then Failure(ConcurrentModification)
    else if it.pos >= l.size then Failure(IndexOutOfBounds)
    else
      match Get(l, it.pos)
      case Failure(e) => Failure(e)
      case Success(x) => Success((x, Iter(it.pos + 1, it.expected, true)))
  }

  /**
   * A for-each loop: `hasNext`/`next` until exhausted. From a fresh
   * iterator it yields the logical list in order; against a stale one it
   * fails at once.
   */
  function Drain<E>(l: BlockList<E>, it: Iter): (r: Result<seq<E>, Thrown>)
    requires Valid(l)
    ensures it.expected != l.revision ==> r == Failure(ConcurrentModification)
    ensures it.expected == l.revision && 0 <= it.pos <= |Elements(l)| ==>
      r == Success(Elements(l)[it.pos..])
    decreases if it.pos < l.size then l.size - it.pos else 0
  {
    match HasNext(l, it)
    case Failure(e) => Failure(e)
    case Success(more) =>
      if !more then
        assert it.pos == |Elements(l)| ==> Elements(l)[it.pos..] == [];
        Success([])
      else
        match Next(l, it)
        case Failure(e) => Failure(e)
        case Success((x, it')) =>
          match Drain(l, it')
          case Failure(e) => Failure(e)
          case Success(xs) =>
            assert it.pos >= 0 ==> Elements(l)[it.pos..] == [x] + Elements(l)[it.pos + 1..];
            Success([x] + xs)
  }

  /** Iterating a fresh iterator to the end yields exactly the logical list. */
  lemma DrainFreshIterator<E>(l: BlockList<E>)
    requires Valid(l)
    ensures Drain(l, NewIterator(l)) == Success(Elements(l))
  {
    assert Elements(l)[0..] == Elements(l);
  }

  /**
   * `remove()` as written: removes the element at the cursor, which is the
   * one after the element `next` last returned, then re-captures the
   * revision. At the end of the list the removal throws after bumping the
   * revision, leaving the iterator stale.
   */
  function RemoveAsWritten<E>(l: BlockList<E>, it: Iter): (r: (BlockList<E>, Result<Iter, Thrown>))
    requires Valid(l)
    ensures l.revision != it.expected ==> r == (l, Failure(ConcurrentModification))
    ensures l.revision == it.expected && 0 <= it.pos < |Elements(l)| ==>
      && Elements(r.0) == Elements(l)[..it.pos] + Elements(l)[it.pos + 1..]
      && r.1 == Success(it.(expected := r.0.revision))
    ensures l.revision == it.expected && !(0 <= it.pos < |Elements(l)|) ==>
      r.1 == Failure(IndexOutOfBounds) && r.0.revision != it.expected
    ensures Valid(r.0)
  {
    if l.revision != it.expected then (l, Failure(ConcurrentModification))
    else
      var (l', res) := RemoveIndex(l, it.pos);
      if res.Failure? then (l', Failure(IndexOutOfBounds))
      else (l', Success(it.(expected := l'.revision)))
  }

  /**
   * Counterexample: over the list [1, 2], `next` returns 1 and the
   * following `remove` deletes 2.
   */
  lemma RemoveAsWrittenDeletesFollowing()
    ensures var l := BlockList([[1, 2]], 2, 2, 0);
      && Valid(l)
      && Next(l, NewIterator(l)).Success?
      && Next(l, NewIterator(l)).value.0 == 1
      && Elements(RemoveAsWritten(l, Next(l, NewIterator(l)).value.1).0) == [1]
  {
    var l := BlockList([[1, 2]], 2, 2, 0);
    assert Elements(l) == [1, 2] by {
      Blocks.FlattenCons([1, 2], []);
    }
    var it := Next(l, NewIterator(l)).value.1;
    assert Elements(l)[..1] + Elements(l)[2..] == [1];
  }

  /**
   * `remove()` as the iterator contract intends: removes the element `next`
   * last returned and steps the cursor back onto the element that followed
   * it; without a preceding `next` it fails with IllegalState.
   */
  function Remove<E>(l: BlockList<E>, it: Iter): (r: (BlockList<E>, Result<Iter, Thrown>))
    requires Valid(l)
    ensures l.revision != it.expected ==> r == (l, Failure(ConcurrentModification))
    ensures l.revision == it.expected && !it.canRemove ==> r == (l, Failure(IllegalState))
    ensures l.revision == it.expected && it.canRemove && 1 <= it.pos <= |Elements(l)| ==>
      && Elements(r.0) == Elements(l)[..it.pos - 1] + Elements(l)[it.pos..]
      && r.1 == Success(Iter(it.pos - 1, r.0.revision, false))
    ensures Valid(r.0)
  {
    if l.revision != it.expected then (l, Failure(ConcurrentModification))
    else if !it.canRemove then (l, Failure(IllegalState))
    else
      var (l', res) := RemoveIndex(l, it.pos - 1);
      if res.Failure? then (l', Failure(IndexOutOfBounds))
      else (l', Success(Iter(it.pos - 1, l'.revision, false)))
  }

  /**
   * With the corrected `remove`, `next` then `remove` deletes exactly the
   * element `next` returned, and the iterator stays valid and continues
   * with the element after it.
   */
  lemma NextThenRemove<E>(l: BlockList<E>, it: Iter)
    requires Valid(l) && it.expected == l.revision && 0 <= it.pos < |Elements(l)|
    ensures var (x, it1) := Next(l, it).value;
      var (l', r) := Remove(l, it1);
      && x == Elements(l)[it.pos]
      && Elements(l') == Elements(l)[..it.pos] + Elements(l)[it.pos + 1..]
      && r.Success?
      && HasNext(l', r.value) == Success(it.pos < |Elements(l')|)
      && Drain(l', r.value) == Success(Elements(l)[it.pos + 1..])
  {
    var (x, it1) := Next(l, it).value;
    var (l', r) := Remove(l, it1);
    var s := Elements(l);
    assert (s[..it.pos] + s[it.pos + 1..])[it.pos..] == s[it.pos + 1..];
  }

  /**
   * Fail-fast: every structural change made directly on the list makes an
   * outstanding iterator's next call fail; `set` does not.
   */
  lemma DirectChangesInvalidate<E>(l: BlockList<E>, it: Iter, i: int, v: E)
    requires Valid(l) && it.expected == l.revision
    ensures HasNext(Add(l, v).0, it) == Failure(ConcurrentModification)
    ensures Next(Insert(l, i, v), it) == Failure(ConcurrentModification)
    ensures HasNext(RemoveIndex(l, i).0, it) == Failure(ConcurrentModification)
    ensures HasNext(Clear(l), it) == Failure(ConcurrentModification)
    ensures HasNext(Set(l, i, v).0, it).Success?
  {
  }
}
