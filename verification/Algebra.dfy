/** Commutative rings and abelian groups as records of operations.  The laws are guarded by
    marker terms, so that they are used only at the instances a proof asks for. */
module Algebra {

  ghost predicate At1<T>(x: T) { true }
  ghost predicate At2<T>(x: T, y: T) { true }
  ghost predicate At3<T>(x: T, y: T, z: T) { true }

  // ---------- commutative rings ----------

  datatype Ring<!R> = Ring(zero: R, one: R, add: (R, R) -> R, neg: R -> R, mul: (R, R) -> R) {
    function Sub(x: R, y: R): R { add(x, neg(y)) }
    function Three(): R { add(add(one, one), one) }
  }

  ghost predicate CommutativeRing<R(!new)>(k: Ring<R>) {
    && (forall x: R {:trigger At1(x)} :: At1(x) ==>
          k.add(x, k.zero) == x && k.add(x, k.neg(x)) == k.zero && k.mul(x, k.one) == x)
    && (forall x: R, y: R {:trigger At2(x, y)} :: At2(x, y) ==>
          k.add(x, y) == k.add(y, x) && k.mul(x, y) == k.mul(y, x))
    && (forall x: R, y: R, z: R {:trigger At3(x, y, z)} :: At3(x, y, z) ==>
          && k.add(k.add(x, y), z) == k.add(x, k.add(y, z))
          && k.mul(k.mul(x, y), z) == k.mul(x, k.mul(y, z))
          && k.mul(x, k.add(y, z)) == k.add(k.mul(x, y), k.mul(x, z)))
  }

  lemma Unit<R(!new)>(k: Ring<R>, x: R)
    requires CommutativeRing(k)
    ensures k.add(x, k.zero) == x && k.add(x, k.neg(x)) == k.zero && k.mul(x, k.one) == x
    ensures k.add(k.zero, x) == x && k.add(k.neg(x), x) == k.zero && k.mul(k.one, x) == x
  {
    assert At1(x) && At2(x, k.zero) && At2(x, k.neg(x)) && At2(x, k.one);
  }

  lemma Commute<R(!new)>(k: Ring<R>, x: R, y: R)
    requires CommutativeRing(k)
    ensures k.add(x, y) == k.add(y, x) && k.mul(x, y) == k.mul(y, x)
  {
    assert At2(x, y);
  }

  lemma Associate<R(!new)>(k: Ring<R>, x: R, y: R, z: R)
    requires CommutativeRing(k)
    ensures k.add(k.add(x, y), z) == k.add(x, k.add(y, z))
    ensures k.mul(k.mul(x, y), z) == k.mul(x, k.mul(y, z))
  {
    assert At3(x, y, z);
  }

  lemma Distribute<R(!new)>(k: Ring<R>, x: R, y: R, z: R)
    requires CommutativeRing(k)
    ensures k.mul(x, k.add(y, z)) == k.add(k.mul(x, y), k.mul(x, z))
    ensures k.mul(k.add(y, z), x) == k.add(k.mul(y, x), k.mul(z, x))
  {
    assert At3(x, y, z) && At2(x, k.add(y, z)) && At2(x, y) && At2(x, z);
  }

  /** (x + y) + (z + w) == (x + z) + (y + w) */
  lemma Interchange<R(!new)>(k: Ring<R>, x: R, y: R, z: R, w: R)
    requires CommutativeRing(k)
    ensures k.add(k.add(x, y), k.add(z, w)) == k.add(k.add(x, z), k.add(y, w))
  {
    Associate(k, x, y, k.add(z, w));
    Associate(k, y, z, w);
    Commute(k, y, z);
    Associate(k, z, y, w);
    Associate(k, x, z, k.add(y, w));
  }

  /** Additive inverses are unique. */
  lemma NegUnique<R(!new)>(k: Ring<R>, x: R, y: R)
    requires CommutativeRing(k) && k.add(x, y) == k.zero
    ensures y == k.neg(x)
  {
    Unit(k, x);
    Unit(k, y);
    Unit(k, k.neg(x));
    Associate(k, k.neg(x), x, y);
  }

  lemma ZeroMul<R(!new)>(k: Ring<R>, x: R)
    requires CommutativeRing(k)
    ensures k.mul(x, k.zero) == k.zero && k.mul(k.zero, x) == k.zero
  {
    var z := k.mul(x, k.zero);
    Unit(k, k.zero);
    Distribute(k, x, k.zero, k.zero);
    assert k.add(z, z) == z;
    Associate(k, z, z, k.neg(z));
    Unit(k, z);
    Commute(k, x, k.zero);
  }

  lemma NegAdd<R(!new)>(k: Ring<R>, x: R, y: R)
    requires CommutativeRing(k)
    ensures k.neg(k.add(x, y)) == k.add(k.neg(x), k.neg(y))
  {
    Interchange(k, x, y, k.neg(x), k.neg(y));
    Unit(k, x);
    Unit(k, y);
    Unit(k, k.zero);
    NegUnique(k, k.add(x, y), k.add(k.neg(x), k.neg(y)));
  }

  lemma NegNeg<R(!new)>(k: Ring<R>, x: R)
    requires CommutativeRing(k)
    ensures k.neg(k.neg(x)) == x
  {
    Unit(k, x);
    NegUnique(k, k.neg(x), x);
  }

  lemma NegMul<R(!new)>(k: Ring<R>, x: R, y: R)
    requires CommutativeRing(k)
    ensures k.mul(k.neg(x), y) == k.neg(k.mul(x, y)) == k.mul(x, k.neg(y))
  {
    Distribute(k, y, x, k.neg(x));
    Distribute(k, x, y, k.neg(y));
    Unit(k, x);
    Unit(k, y);
    ZeroMul(k, x);
    ZeroMul(k, y);
    NegUnique(k, k.mul(x, y), k.mul(k.neg(x), y));
    NegUnique(k, k.mul(x, y), k.mul(x, k.neg(y)));
  }

  /** (x + y) - y == x, also with a tail shared by both sides. */
  lemma AddSub<R(!new)>(k: Ring<R>, x: R, y: R)
    requires CommutativeRing(k)
    ensures k.Sub(k.add(x, y), y) == x
    ensures k.Sub(k.add(y, x), y) == x
  {
    Associate(k, x, y, k.neg(y));
    Commute(k, x, y);
    Unit(k, y);
    Unit(k, x);
  }

  // ---------- abelian groups, written additively ----------

  datatype Group<!G> = Group(zero: G, add: (G, G) -> G, neg: G -> G) {
    function Sub(x: G, y: G): G { add(x, neg(y)) }
    function Dbl(x: G): G { add(x, x) }
  }

  ghost predicate AbelianGroup<G(!new)>(g: Group<G>) {
    && (forall x: G {:trigger At1(x)} :: At1(x) ==> g.add(x, g.zero) == x && g.add(x, g.neg(x)) == g.zero)
    && (forall x: G, y: G {:trigger At2(x, y)} :: At2(x, y) ==> g.add(x, y) == g.add(y, x))
    && (forall x: G, y: G, z: G {:trigger At3(x, y, z)} :: At3(x, y, z) ==>
          g.add(g.add(x, y), z) == g.add(x, g.add(y, z)))
  }

  lemma GUnit<G(!new)>(g: Group<G>, x: G)
    requires AbelianGroup(g)
    ensures g.add(x, g.zero) == x && g.add(x, g.neg(x)) == g.zero
    ensures g.add(g.zero, x) == x && g.add(g.neg(x), x) == g.zero
  {
    assert At1(x) && At2(x, g.zero) && At2(x, g.neg(x));
  }

  lemma GCommute<G(!new)>(g: Group<G>, x: G, y: G)
    requires AbelianGroup(g)
    ensures g.add(x, y) == g.add(y, x)
  {
    assert At2(x, y);
  }

  lemma GAssociate<G(!new)>(g: Group<G>, x: G, y: G, z: G)
    requires AbelianGroup(g)
    ensures g.add(g.add(x, y), z) == g.add(x, g.add(y, z))
  {
    assert At3(x, y, z);
  }

  lemma GInterchange<G(!new)>(g: Group<G>, x: G, y: G, z: G, w: G)
    requires AbelianGroup(g)
    ensures g.add(g.add(x, y), g.add(z, w)) == g.add(g.add(x, z), g.add(y, w))
  {
    GAssociate(g, x, y, g.add(z, w));
    GAssociate(g, y, z, w);
    GCommute(g, y, z);
    GAssociate(g, z, y, w);
    GAssociate(g, x, z, g.add(y, w));
  }

  lemma GNegUnique<G(!new)>(g: Group<G>, x: G, y: G)
    requires AbelianGroup(g) && g.add(x, y) == g.zero
    ensures y == g.neg(x)
  {
    GUnit(g, x);
    GUnit(g, y);
    GUnit(g, g.neg(x));
    GAssociate(g, g.neg(x), x, y);
  }

  ghost function TimesTo<G>(g: Group<G>, n: int, x: G): G
    decreases if n < 0 then 1 - n else n
  {
    if n == 0 then g.zero
    else if n > 0 then g.add(TimesTo(g, n - 1, x), x)
    else g.Sub(TimesTo(g, n + 1, x), x)
  }

  ghost predicate MarkedTimes(n: int) { true }

  ghost predicate IsTimes<G>(g: Group<G>, n: int, x: G, v: G) {
    forall m {:trigger MarkedTimes(m)} :: MarkedTimes(m) && m == n ==> v == TimesTo(g, n, x)
  }

  /** n * x, for any integer n; pinned down so that the solver does not unfold it unasked. */
  ghost function Times<G>(g: Group<G>, n: int, x: G): G {
    assert IsTimes(g, n, x, TimesTo(g, n, x));
    var v :| IsTimes(g, n, x, v);
    v
  }

  lemma TimesIs<G>(g: Group<G>, n: int, x: G)
    ensures Times(g, n, x) == TimesTo(g, n, x)
  {
    assert MarkedTimes(n);
  }

  lemma TimesNone<G>(g: Group<G>, x: G)
    ensures Times(g, 0, x) == g.zero
  {
    TimesIs(g, 0, x);
  }

  lemma TimesNext<G(!new)>(g: Group<G>, n: int, x: G)
    requires AbelianGroup(g)
    ensures Times(g, n + 1, x) == g.add(Times(g, n, x), x)
  {
    TimesIs(g, n, x);
    TimesIs(g, n + 1, x);
    if n < 0 {
      var t := Times(g, n + 1, x);
      assert Times(g, n, x) == g.Sub(t, x);
      GAssociate(g, t, g.neg(x), x);
      GUnit(g, x);
      GUnit(g, t);
    }
  }

  lemma TimesPrev<G(!new)>(g: Group<G>, n: int, x: G)
    requires AbelianGroup(g)
    ensures Times(g, n - 1, x) == g.Sub(Times(g, n, x), x)
  {
    var t := Times(g, n - 1, x);
    TimesNext(g, n - 1, x);
    GAssociate(g, t, x, g.neg(x));
    GUnit(g, x);
    GUnit(g, t);
  }

  lemma {:induction false} TimesAdd<G(!new)>(g: Group<G>, m: int, n: int, x: G)
    requires AbelianGroup(g)
    ensures Times(g, m + n, x) == g.add(Times(g, m, x), Times(g, n, x))
    decreases if n < 0 then -n else n
  {
    var a := Times(g, m, x);
    if n == 0 {
      TimesNone(g, x);
      GUnit(g, a);
    } else if n > 0 {
      TimesAdd(g, m, n - 1, x);
      TimesNext(g, m + n - 1, x);
      TimesNext(g, n - 1, x);
      GAssociate(g, a, Times(g, n - 1, x), x);
    } else {
      TimesAdd(g, m, n + 1, x);
      TimesPrev(g, m + n + 1, x);
      TimesPrev(g, n + 1, x);
      GAssociate(g, a, Times(g, n + 1, x), g.neg(x));
    }
  }

  lemma TimesNeg<G(!new)>(g: Group<G>, n: int, x: G)
    requires AbelianGroup(g)
    ensures Times(g, -n, x) == g.neg(Times(g, n, x))
  {
    TimesAdd(g, n, -n, x);
    TimesNone(g, x);
    GNegUnique(g, Times(g, n, x), Times(g, -n, x));
  }

  lemma TimesSub<G(!new)>(g: Group<G>, m: int, n: int, x: G)
    requires AbelianGroup(g)
    ensures Times(g, m - n, x) == g.Sub(Times(g, m, x), Times(g, n, x))
  {
    TimesNeg(g, n, x);
    TimesAdd(g, m, -n, x);
  }

  lemma TimesOne<G(!new)>(g: Group<G>, x: G)
    requires AbelianGroup(g)
    ensures Times(g, 1, x) == x && Times(g, 2, x) == g.Dbl(x) && Times(g, -1, x) == g.neg(x)
  {
    GUnit(g, x);
    TimesNone(g, x);
    TimesNext(g, 0, x);
    TimesNext(g, 1, x);
    TimesNeg(g, 1, x);
  }

  lemma {:induction false} TimesMul<G(!new)>(g: Group<G>, m: int, n: int, x: G)
    requires AbelianGroup(g)
    ensures Times(g, m * n, x) == Times(g, m, Times(g, n, x))
    decreases if m < 0 then -m else m
  {
    var y := Times(g, n, x);
    if m == 0 {
      TimesNone(g, x);
      TimesNone(g, y);
    } else if m > 0 {
      TimesMul(g, m - 1, n, x);
      TimesNext(g, m - 1, y);
      assert m * n == (m - 1) * n + n;
      TimesAdd(g, (m - 1) * n, n, x);
    } else {
      TimesMul(g, m + 1, n, x);
      TimesPrev(g, m + 1, y);
      assert m * n == (m + 1) * n - n;
      TimesSub(g, (m + 1) * n, n, x);
    }
  }

  lemma GZeroNeg<G(!new)>(g: Group<G>)
    requires AbelianGroup(g)
    ensures g.neg(g.zero) == g.zero
  {
    GUnit(g, g.zero);
    GNegUnique(g, g.zero, g.zero);
  }

  lemma GNegAdd<G(!new)>(g: Group<G>, x: G, y: G)
    requires AbelianGroup(g)
    ensures g.neg(g.add(x, y)) == g.add(g.neg(x), g.neg(y))
  {
    GInterchange(g, x, y, g.neg(x), g.neg(y));
    GUnit(g, x);
    GUnit(g, y);
    GUnit(g, g.zero);
    GNegUnique(g, g.add(x, y), g.add(g.neg(x), g.neg(y)));
  }

  lemma {:induction false} TimesSum<G(!new)>(g: Group<G>, n: int, x: G, y: G)
    requires AbelianGroup(g)
    ensures Times(g, n, g.add(x, y)) == g.add(Times(g, n, x), Times(g, n, y))
    decreases if n < 0 then -n else n
  {
    if n == 0 {
      TimesNone(g, x);
      TimesNone(g, y);
      TimesNone(g, g.add(x, y));
      GUnit(g, g.zero);
    } else if n > 0 {
      TimesSum(g, n - 1, x, y);
      TimesNext(g, n - 1, x);
      TimesNext(g, n - 1, y);
      TimesNext(g, n - 1, g.add(x, y));
      GInterchange(g, Times(g, n - 1, x), Times(g, n - 1, y), x, y);
    } else {
      TimesSum(g, n + 1, x, y);
      TimesPrev(g, n + 1, x);
      TimesPrev(g, n + 1, y);
      TimesPrev(g, n + 1, g.add(x, y));
      GNegAdd(g, x, y);
      GInterchange(g, Times(g, n + 1, x), Times(g, n + 1, y), g.neg(x), g.neg(y));
    }
  }
}
