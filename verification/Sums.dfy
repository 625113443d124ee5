/** Sums over finite sets. */
module Sums {
  import opened Primitives

  ghost function SumOn<T>(keys: set<T>, f: T -> int): int {
    if keys == {} then 0
    else
      var k :| k in keys;
      f(k) + SumOn(keys - {k}, f)
  }

  /** The sum does not depend on which key is taken first. */
  lemma {:induction false} SumRemove<T>(keys: set<T>, f: T -> int, k: T)
    requires k in keys
    ensures SumOn(keys, f) == f(k) + SumOn(keys - {k}, f)
  {
    var first :| first in keys && SumOn(keys, f) == f(first) + SumOn(keys - {first}, f);
    if first != k {
      SumRemove(keys - {first}, f, k);
      SumRemove(keys - {k}, f, first);
      assert keys - {first} - {k} == keys - {k} - {first};
    }
  }

  lemma {:induction false} SumPad<T>(keys: set<T>, all: set<T>, f: T -> int)
    requires keys <= all && forall k :: k in all - keys ==> f(k) == 0
    ensures SumOn(all, f) == SumOn(keys, f)
    decreases |all|
  {
    if all != keys {
      assert keys + (all - keys) == all;
      var k :| k in all - keys;
      SumRemove(all, f, k);
      SumPad(keys, all - {k}, f);
    }
  }

  /** Sums of values that balance key by key balance. */
  lemma {:induction false} SumBalance<T>(keys: set<T>, f: T -> int, g: T -> int, h: T -> int, l: T -> int)
    requires forall k :: k in keys ==> f(k) + g(k) == h(k) + l(k)
    ensures SumOn(keys, f) + SumOn(keys, g) == SumOn(keys, h) + SumOn(keys, l)
  {
    if keys != {} {
      var k :| k in keys;
      SumRemove(keys, f, k);
      SumRemove(keys, g, k);
      SumRemove(keys, h, k);
      SumRemove(keys, l, k);
      SumBalance(keys - {k}, f, g, h, l);
    }
  }

  lemma {:induction false} SumOfNothing<T>(keys: set<T>, f: T -> int)
    requires forall k :: k in keys ==> f(k) == 0
    ensures SumOn(keys, f) == 0
  {
    SumPad({}, keys, f);
  }

  lemma {:induction false} SumIsNatural<T>(keys: set<T>, f: T -> int)
    requires forall k :: k in keys ==> f(k) >= 0
    ensures SumOn(keys, f) >= 0
  {
    if keys != {} {
      var k :| k in keys;
      SumRemove(keys, f, k);
      SumIsNatural(keys - {k}, f);
    }
  }

  // ---- 64-bit sums ----

  function Wrap(x: int): (r: nat)
    ensures r < TWO_TO_THE_64
  {
    x % TWO_TO_THE_64
  }

  lemma WrapAdd(x: int, y: int)
    ensures Wrap(Wrap(x) + y) == Wrap(x + y)
  {
    var q := x / TWO_TO_THE_64;
    assert x == TWO_TO_THE_64 * q + Wrap(x);
    assert x + y == TWO_TO_THE_64 * q + (Wrap(x) + y);
    WrapShift(Wrap(x) + y, q);
  }

  lemma WrapShift(x: int, q: int)
    ensures Wrap(TWO_TO_THE_64 * q + x) == Wrap(x)
  {
  }

  lemma WrapSmall(x: int)
    requires 0 <= x < TWO_TO_THE_64
    ensures Wrap(x) == x
  {
  }

  /** Congruent moves: adding `post` and taking `pre` away, both known only as wrapped values. */
  lemma WrapMove(total: int, pre: int, post: int)
    ensures Wrap(Wrap(total) + Wrap(post) - Wrap(pre)) == Wrap(total - pre + post)
    ensures Wrap(pre) == Wrap(post) <==> Wrap(total - pre + post) == Wrap(total)
  {
    var qt, qp, qq := total / TWO_TO_THE_64, pre / TWO_TO_THE_64, post / TWO_TO_THE_64;
    assert total - pre + post == TWO_TO_THE_64 * (qt - qp + qq) + (Wrap(total) + Wrap(post) - Wrap(pre));
    WrapShift(Wrap(total) + Wrap(post) - Wrap(pre), qt - qp + qq);
  }

  /** Adding up from zero in 64 bits, in the order of a list of keys. */
  function Fold<T>(order: seq<T>, f: T -> int): nat {
    if order == [] then 0 else Wrap(Fold(order[..|order| - 1], f) + f(order[|order| - 1]))
  }

  function Elements<T>(order: seq<T>): set<T> {
    set k | k in order
  }

  /** In whichever order the keys come, the fold is the wrapped sum. */
  lemma {:induction false} FoldIsWrappedSum<T>(order: seq<T>, f: T -> int)
    requires forall i, j :: 0 <= i < j < |order| ==> order[i] != order[j]
    ensures Fold(order, f) == Wrap(SumOn(Elements(order), f))
  {
    var keys := Elements(order);
    if order == [] {
    } else {
      hide Wrap;
      var front, last := order[..|order| - 1], order[|order| - 1];
      FoldIsWrappedSum(front, f);
      assert last in keys;
      assert keys - {last} == Elements(front);
      SumRemove(keys, f, last);
      WrapAdd(SumOn(keys - {last}, f), f(last));
    }
  }
}
