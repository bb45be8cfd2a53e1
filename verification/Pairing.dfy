/** A bilinear pairing between groups of one order, and what follows from bilinearity. */
module Pairing {
  import opened Arith
  import opened Algebra

  /** e: G2 x G1 -> GT; all three groups are written additively. */
  datatype Pair<!A, !B, !T> = Pair(g1: Group<A>, g2: Group<B>, gt: Group<T>, e: (B, A) -> T, order: int)

  ghost predicate AtL<A, B>(b: B, b': B, a: A) { true }
  ghost predicate AtR<A, B>(b: B, a: A, a': A) { true }

  ghost predicate Bilinear<A(!new), B(!new), T(!new)>(p: Pair<A, B, T>) {
    && AbelianGroup(p.g1) && AbelianGroup(p.g2) && AbelianGroup(p.gt) && p.order > 0
    && (forall b: B, b': B, a: A {:trigger AtL(b, b', a)} :: AtL(b, b', a) ==>
          p.e(p.g2.add(b, b'), a) == p.gt.add(p.e(b, a), p.e(b', a)))
    && (forall b: B, a: A, a': A {:trigger AtR(b, a, a')} :: AtR(b, a, a') ==>
          p.e(b, p.g1.add(a, a')) == p.gt.add(p.e(b, a), p.e(b, a')))
    && (forall a: A {:trigger At1(a)} :: At1(a) ==> Times(p.g1, p.order, a) == p.g1.zero)
    && (forall b: B {:trigger At1(b)} :: At1(b) ==> Times(p.g2, p.order, b) == p.g2.zero)
    && (forall t: T {:trigger At1(t)} :: At1(t) ==> Times(p.gt, p.order, t) == p.gt.zero)
  }

  lemma AddRight<A(!new), B(!new), T(!new)>(p: Pair<A, B, T>, b: B, a: A, a': A)
    requires Bilinear(p)
    ensures p.e(b, p.g1.add(a, a')) == p.gt.add(p.e(b, a), p.e(b, a'))
  {
    assert AtR(b, a, a');
  }

  lemma AddLeft<A(!new), B(!new), T(!new)>(p: Pair<A, B, T>, b: B, b': B, a: A)
    requires Bilinear(p)
    ensures p.e(p.g2.add(b, b'), a) == p.gt.add(p.e(b, a), p.e(b', a))
  {
    assert AtL(b, b', a);
  }

  /** x + x = x only for the neutral element. */
  lemma IdempotentZero<G(!new)>(g: Group<G>, x: G)
    requires AbelianGroup(g) && g.add(x, x) == x
    ensures x == g.zero
  {
    GAssociate(g, g.neg(x), x, x);
    GUnit(g, x);
  }

  lemma ZeroRight<A(!new), B(!new), T(!new)>(p: Pair<A, B, T>, b: B)
    requires Bilinear(p)
    ensures p.e(b, p.g1.zero) == p.gt.zero
  {
    GUnit(p.g1, p.g1.zero);
    AddRight(p, b, p.g1.zero, p.g1.zero);
    IdempotentZero(p.gt, p.e(b, p.g1.zero));
  }

  lemma ZeroLeft<A(!new), B(!new), T(!new)>(p: Pair<A, B, T>, a: A)
    requires Bilinear(p)
    ensures p.e(p.g2.zero, a) == p.gt.zero
  {
    GUnit(p.g2, p.g2.zero);
    AddLeft(p, p.g2.zero, p.g2.zero, a);
    IdempotentZero(p.gt, p.e(p.g2.zero, a));
  }

  lemma NegRight<A(!new), B(!new), T(!new)>(p: Pair<A, B, T>, b: B, a: A)
    requires Bilinear(p)
    ensures p.e(b, p.g1.neg(a)) == p.gt.neg(p.e(b, a))
  {
    GUnit(p.g1, a);
    AddRight(p, b, a, p.g1.neg(a));
    ZeroRight(p, b);
    GNegUnique(p.gt, p.e(b, a), p.e(b, p.g1.neg(a)));
  }

  /** Scalars move out of either argument. */
  lemma {:induction false} ScalarRight<A(!new), B(!new), T(!new)>(p: Pair<A, B, T>, n: nat, b: B, a: A)
    requires Bilinear(p)
    ensures p.e(b, Times(p.g1, n, a)) == Times(p.gt, n, p.e(b, a))
  {
    if n == 0 {
      TimesNone(p.g1, a);
      TimesNone(p.gt, p.e(b, a));
      ZeroRight(p, b);
    } else {
      ScalarRight(p, n - 1, b, a);
      TimesNext(p.g1, n - 1, a);
      TimesNext(p.gt, n - 1, p.e(b, a));
      AddRight(p, b, Times(p.g1, n - 1, a), a);
    }
  }

  lemma {:induction false} ScalarLeft<A(!new), B(!new), T(!new)>(p: Pair<A, B, T>, n: nat, b: B, a: A)
    requires Bilinear(p)
    ensures p.e(Times(p.g2, n, b), a) == Times(p.gt, n, p.e(b, a))
  {
    if n == 0 {
      TimesNone(p.g2, b);
      TimesNone(p.gt, p.e(b, a));
      ZeroLeft(p, a);
    } else {
      ScalarLeft(p, n - 1, b, a);
      TimesNext(p.g2, n - 1, b);
      TimesNext(p.gt, n - 1, p.e(b, a));
      AddLeft(p, Times(p.g2, n - 1, b), b, a);
    }
  }

  /** Any integer scalar on the right. */
  lemma IntRight<A(!new), B(!new), T(!new)>(p: Pair<A, B, T>, n: int, b: B, a: A)
    requires Bilinear(p)
    ensures p.e(b, Times(p.g1, n, a)) == Times(p.gt, n, p.e(b, a))
  {
    if n >= 0 {
      ScalarRight(p, n, b, a);
    } else {
      ScalarRight(p, -n, b, a);
      TimesNeg(p.g1, -n, a);
      TimesNeg(p.gt, -n, p.e(b, a));
      NegRight(p, b, Times(p.g1, -n, a));
    }
  }

  /** In a group killed by r, scalars count modulo r. */
  lemma TimesMod<G(!new)>(g: Group<G>, r: int, m: int, n: int, x: G)
    requires AbelianGroup(g) && r > 0 && Times(g, r, x) == g.zero && Cong(m, n, r)
    ensures Times(g, m, x) == Times(g, n, x)
  {
    var k := CongElim(m, n, r);
    TimesAdd(g, n, k * r, x);
    TimesMul(g, k, r, x);
    TimesMul(g, k, 0, x);
    TimesNone(g, x);
    assert k * 0 == 0;
    GUnit(g, Times(g, n, x));
  }

  lemma OrderMod1<A(!new), B(!new), T(!new)>(p: Pair<A, B, T>, m: int, n: int, a: A)
    requires Bilinear(p) && Cong(m, n, p.order)
    ensures Times(p.g1, m, a) == Times(p.g1, n, a)
  {
    assert At1(a);
    TimesMod(p.g1, p.order, m, n, a);
  }

  lemma OrderModT<A(!new), B(!new), T(!new)>(p: Pair<A, B, T>, m: int, n: int, t: T)
    requires Bilinear(p) && Cong(m, n, p.order)
    ensures Times(p.gt, m, t) == Times(p.gt, n, t)
  {
    assert At1(t);
    TimesMod(p.gt, p.order, m, n, t);
  }
}
