/** Sums over unordered collections. */
module Sums {

  ghost function SetSum<K(!new)>(keys: set<K>, f: K -> nat): nat {
    if keys == {} then 0 else
      var k :| k in keys;
      f(k) + SetSum(keys - {k}, f)
  }

  /** Whichever element is taken out first, the sum is the same. */
  lemma {:induction false} SetSumRemove<K(!new)>(keys: set<K>, f: K -> nat, k: K)
    requires k in keys
    ensures SetSum(keys, f) == f(k) + SetSum(keys - {k}, f)
    decreases keys
  {
    var first :| first in keys && SetSum(keys, f) == f(first) + SetSum(keys - {first}, f);
    if first != k {
      SetSumRemove(keys - {first}, f, k);
      SetSumRemove(keys - {k}, f, first);
      assert keys - {first} - {k} == keys - {k} - {first};
    }
  }

  lemma SetSumAdd<K(!new)>(keys: set<K>, f: K -> nat, k: K)
    requires k !in keys
    ensures SetSum(keys + {k}, f) == SetSum(keys, f) + f(k)
  {
    SetSumRemove(keys + {k}, f, k);
    assert keys + {k} - {k} == keys;
  }

  /** Only the values at the keys matter. */
  lemma {:induction false} SetSumCongruent<K(!new)>(keys: set<K>, f: K -> nat, g: K -> nat)
    requires forall k :: k in keys ==> f(k) == g(k)
    ensures SetSum(keys, f) == SetSum(keys, g)
    decreases keys
  {
    if k :| k in keys {
      SetSumRemove(keys, f, k);
      SetSumRemove(keys, g, k);
      SetSumCongruent(keys - {k}, f, g);
    }
  }

  /** The sum along a sequence. */
  function SeqSum<K>(order: seq<K>, f: K -> nat): nat {
    if order == [] then 0 else SeqSum(order[..|order| - 1], f) + f(order[|order| - 1])
  }

  /** `order` is one way to iterate over the keys. */
  ghost predicate Enumerates<K(!new)>(order: seq<K>, keys: set<K>) {
    && (forall i :: 0 <= i < |order| ==> order[i] in keys)
    && (forall k :: k in keys ==> k in order)
    && (forall i, j :: 0 <= i < j < |order| ==> order[i] != order[j])
  }

  /** Every order of iteration gives the same sum. */
  lemma {:induction false} SeqSumIsSetSum<K(!new)>(order: seq<K>, keys: set<K>, f: K -> nat)
    requires Enumerates(order, keys)
    ensures SeqSum(order, f) == SetSum(keys, f)
    decreases |order|
  {
    if order == [] {
      assert keys == {};
    } else {
      var front, k := order[..|order| - 1], order[|order| - 1];
      assert order == front + [k];
      SeqSumIsSetSum(front, keys - {k}, f);
      SetSumRemove(keys, f, k);
    }
  }

  lemma {:induction false} SeqSumGrows<K>(order: seq<K>, f: K -> nat, k: nat)
    requires k <= |order|
    ensures SeqSum(order[..k], f) <= SeqSum(order, f)
  {
    if k < |order| {
      SeqSumGrows(order[..|order| - 1], f, k);
      assert order[..|order| - 1][..k] == order[..k];
    } else {
      assert order[..k] == order;
    }
  }

  lemma SeqSumSnoc<K>(order: seq<K>, f: K -> nat, i: nat)
    requires i < |order|
    ensures SeqSum(order[..i + 1], f) == SeqSum(order[..i], f) + f(order[i])
  {
    assert order[..i + 1][..i] == order[..i];
  }
}
