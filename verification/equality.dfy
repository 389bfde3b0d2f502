/**
 * `equals` of src/com/mebigfatguy/blocklist/BlockList.java:80-109, as
 * written and with null-against-null treated as equal.
 */
module Equality {
  import opened Wrappers
  import opened Blocks
  import opened BlockLists
  import opened Search

  /** The argument of `equals`: another block list, or any other object. */
  datatype Other<T> = AList(list: BlockList<Obj<T>>) | NotAList

  /** The element loop of `equals` as written: any null on either side answers false. */
  function MatchFromAsWritten<T(==)>(a: BlockList<Obj<T>>, b: BlockList<Obj<T>>, i: int): (r: bool)
    requires Valid(a) && Valid(b) && a.size == b.size && 0 <= i <= a.size
    ensures r <==> forall k :: i <= k < a.size ==>
      Elements(a)[k].Ref? && Elements(a)[k] == Elements(b)[k]
    decreases a.size - i
  {
    if i == a.size then true
    else
      var thisItem := Get(a, i).value;
      var thatItem := Get(b, i).value;
      if thisItem.Null? && thatItem.Ref? then false
      else if thatItem.Null? then false
      else if thisItem != thatItem then false
      else MatchFromAsWritten(a, b, i + 1)
  }

  /**
   * `equals(o)` as written: true for anything that is not a block list;
   * otherwise equal sizes and pairwise equal elements, none of them null.
   */
  function EqualsAsWritten<T(==)>(a: BlockList<Obj<T>>, o: Other<T>): (r: bool)
    requires Valid(a) && (o.AList? ==> Valid(o.list))
    ensures o.NotAList? ==> r
    ensures o.AList? ==>
      (r <==> && Elements(a) == Elements(o.list)
              && forall k :: 0 <= k < |Elements(a)| ==> Elements(a)[k].Ref?)
  {
    match o
    case NotAList => true
    case AList(b) =>
      if a.size != b.size then false
      else
        var r := MatchFromAsWritten(a, b, 0);
        assert r ==> Elements(a) == Elements(b);
        r
  }

  /** A one-element list holding null is not equal to itself under the code as written. */
  lemma EqualsAsWrittenNotReflexive<T>()
    ensures var l: BlockList<Obj<T>> := BlockList([[Null]], 1, 1, 0);
      Valid(l) && !EqualsAsWritten(l, AList(l))
  {
    var l: BlockList<Obj<T>> := BlockList([[Null]], 1, 1, 0);
    assert Flatten(l.blocks) == [Null] by {
      FlattenCons<Obj<T>>([Null], []);
    }
  }

  /** The element loop with two nulls counting as a match. */
  function MatchFrom<T(==)>(a: BlockList<Obj<T>>, b: BlockList<Obj<T>>, i: int): (r: bool)
    requires Valid(a) && Valid(b) && a.size == b.size && 0 <= i <= a.size
    ensures r <==> Elements(a)[i..] == Elements(b)[i..]
    decreases a.size - i
  {
    if i == a.size then true
    else
      var thisItem := Get(a, i).value;
      var thatItem := Get(b, i).value;
      var rest := MatchFrom(a, b, i + 1);
      SuffixEqualStep(Elements(a), Elements(b), i);
      if thisItem != thatItem then false else rest
  }

  /** Two equally long suffixes agree when their heads and their tails do. */
  lemma SuffixEqualStep<E>(s: seq<E>, t: seq<E>, i: nat)
    requires i < |s| == |t|
    ensures s[i..] == t[i..] <==> s[i] == t[i] && s[i + 1..] == t[i + 1..]
  {
    assert s[i..] == [s[i]] + s[i + 1..];
    assert t[i..] == [t[i]] + t[i + 1..];
  }

  /**
   * `equals(o)` with null matching null: two block lists are equal exactly
   * when their logical lists are. The answer for a non-block-list argument
   * is kept as written.
   */
  function Equals<T(==)>(a: BlockList<Obj<T>>, o: Other<T>): (r: bool)
    requires Valid(a) && (o.AList? ==> Valid(o.list))
    ensures o.NotAList? ==> r
    ensures o.AList? ==> (r <==> Elements(a) == Elements(o.list))
  {
    match o
    case NotAList => true
    case AList(b) =>
      if a.size != b.size then false
      else MatchFrom(a, b, 0)
  }
}
