/** FP4 elements a + i*b over FP2, with the operations of fp4.c, and the proof that they obey
    the trace recurrence that XTR exponentiation relies on.  FP2 is any commutative ring; `q`
    is the element i*i of FP2 by which FP2_mul_ip multiplies. */
module Fp4 {
  import opened Algebra
  import X = Xtr

  datatype Fp4<F> = Fp4(a: F, b: F)

  /** FP2 together with i*i. */
  datatype Base<!F(!new)> = Base(k: Ring<F>, q: F) {
    ghost predicate Valid() { CommutativeRing(k) }
    function MulIp(x: F): F { k.mul(x, q) }

    /** FP4_neg: one negation and three additions. */
    function Neg(x: Fp4<F>): Fp4<F> {
      var m := k.neg(k.add(x.a, x.b));
      Fp4(k.add(m, x.b), k.add(m, x.a))
    }

    function Conj(x: Fp4<F>): Fp4<F> { Fp4(x.a, k.neg(x.b)) }

    function Add(x: Fp4<F>, y: Fp4<F>): Fp4<F> { Fp4(k.add(x.a, y.a), k.add(x.b, y.b)) }

    function Sub(x: Fp4<F>, y: Fp4<F>): Fp4<F> { Add(x, Neg(y)) }

    function Pmul(x: Fp4<F>, s: F): Fp4<F> { Fp4(k.mul(x.a, s), k.mul(x.b, s)) }

    function TimesI(x: Fp4<F>): Fp4<F> { Fp4(MulIp(x.b), x.a) }

    /** FP4_sqr: a*a + i*i*b*b rebuilt from (a+b)(a+i*i*b) and a*b. */
    function Sqr(x: Fp4<F>): Fp4<F> {
      var t3 := k.mul(x.a, x.b);
      var t1 := k.add(x.a, x.b);
      var t2 := k.add(x.a, MulIp(x.b));
      var r := k.mul(t1, t2);
      var s := k.neg(k.add(MulIp(t3), t3));
      Fp4(k.add(r, s), k.add(t3, t3))
    }

    /** FP4_mul: three FP2 multiplications. */
    function Mul(x: Fp4<F>, y: Fp4<F>): Fp4<F> {
      var t1 := k.mul(x.a, y.a);
      var t2 := k.mul(x.b, y.b);
      var t4 := k.Sub(k.mul(k.add(x.b, x.a), k.add(y.b, y.a)), t1);
      Fp4(k.add(MulIp(t2), t1), k.Sub(t4, t2))
    }

    function XtrA(w: Fp4<F>, x: Fp4<F>, y: Fp4<F>, z: Fp4<F>): Fp4<F> {
      var t1 := Pmul(Sub(w, y), x.a);
      var t2 := TimesI(Pmul(Add(w, y), x.b));
      Add(Add(t1, t2), z)
    }

    function XtrD(x: Fp4<F>): Fp4<F> {
      var w := Conj(x);
      Sub(Sqr(x), Add(w, w))
    }

    /** Multiplication by the definition of i. */
    function MulSpec(x: Fp4<F>, y: Fp4<F>): Fp4<F> {
      Fp4(k.add(k.mul(x.a, y.a), MulIp(k.mul(x.b, y.b))), k.add(k.mul(x.a, y.b), k.mul(x.b, y.a)))
    }

    function NegSpec(x: Fp4<F>): Fp4<F> { Fp4(k.neg(x.a), k.neg(x.b)) }

    function SubSpec(x: Fp4<F>, y: Fp4<F>): Fp4<F> { Add(x, NegSpec(y)) }

    /** The operations as the exponentiation loops use them. */
    function Ops(): X.XtrOps<Fp4<F>> {
      X.XtrOps(Fp4(k.Three(), k.zero), (x: Fp4<F>) => Conj(x),
               (w: Fp4<F>, x: Fp4<F>, y: Fp4<F>, z: Fp4<F>) => XtrA(w, x, y, z), (x: Fp4<F>) => XtrD(x))
    }
  }

  lemma NegCorrect<F(!new)>(f: Base<F>, x: Fp4<F>)
    requires f.Valid()
    ensures f.Neg(x) == f.NegSpec(x)
  {
    var k := f.k;
    NegAdd(k, x.a, x.b);
    Associate(k, k.neg(x.a), k.neg(x.b), x.b);
    Unit(k, x.b);
    Unit(k, k.neg(x.a));
    Commute(k, k.neg(x.a), k.neg(x.b));
    Associate(k, k.neg(x.b), k.neg(x.a), x.a);
    Unit(k, x.a);
    Unit(k, k.neg(x.b));
  }

  /** The three-multiplication product is the product. */
  lemma MulCorrect<F(!new)>(f: Base<F>, x: Fp4<F>, y: Fp4<F>)
    requires f.Valid()
    ensures f.Mul(x, y) == f.MulSpec(x, y)
  {
    var k := f.k;
    var aa, bb, ab, ba := k.mul(x.a, y.a), k.mul(x.b, y.b), k.mul(x.a, y.b), k.mul(x.b, y.a);
    Commute(k, f.MulIp(bb), aa);
    Distribute(k, k.add(x.b, x.a), y.b, y.a);
    Distribute(k, y.b, x.b, x.a);
    Distribute(k, y.a, x.b, x.a);
    // ((bb + ab) + (ba + aa)) - aa - bb
    Associate(k, k.add(bb, ab), ba, aa);
    AddSub(k, k.add(k.add(bb, ab), ba), aa);
    Associate(k, bb, ab, ba);
    AddSub(k, k.add(ab, ba), bb);
  }

  /** The two-multiplication square is the square. */
  lemma SqrCorrect<F(!new)>(f: Base<F>, x: Fp4<F>)
    requires f.Valid()
    ensures f.Sqr(x) == f.MulSpec(x, x)
  {
    var k := f.k;
    var a, b := x.a, x.b;
    var ab, qb := k.mul(a, b), f.MulIp(b);
    Commute(k, a, b);
    // (a + b)(a + qb) = (aa + ba) + (a*qb + b*qb)
    Distribute(k, k.add(a, b), a, qb);
    Distribute(k, a, a, b);
    Distribute(k, qb, a, b);
    Associate(k, a, b, f.q);
    Associate(k, b, b, f.q);
    var aa, bbq, abq := k.mul(a, a), f.MulIp(k.mul(b, b)), f.MulIp(ab);
    assert k.mul(k.add(a, b), k.add(a, qb)) == k.add(k.add(aa, ab), k.add(abq, bbq));
    Commute(k, abq, bbq);
    Interchange(k, aa, ab, bbq, abq);
    Commute(k, ab, abq);
    AddSub(k, k.add(aa, bbq), k.add(abq, ab));
  }

  /** xtr_A computes x*w - conj(x)*y + z. */
  lemma XtrACorrect<F(!new)>(f: Base<F>, w: Fp4<F>, x: Fp4<F>, y: Fp4<F>, z: Fp4<F>)
    requires f.Valid()
    ensures f.XtrA(w, x, y, z) == f.Add(f.SubSpec(f.MulSpec(x, w), f.MulSpec(f.Conj(x), y)), z)
  {
    var k := f.k;
    NegCorrect(f, y);
    Half(k, x.a, w.a, y.a);
    Half(k, x.a, w.b, y.b);
    Distribute(k, x.b, w.a, y.a);
    Distribute(k, x.b, w.b, y.b);
    Commute(k, x.b, w.a);
    Commute(k, x.b, w.b);
    Commute(k, x.b, y.a);
    Commute(k, x.b, y.b);
    var p, r := k.mul(x.b, w.b), k.mul(x.b, y.b);
    var s, t := k.mul(x.b, w.a), k.mul(x.b, y.a);
    NegMul(k, x.b, y.b);
    NegMul(k, x.b, y.a);
    Distribute(k, f.q, p, r);
    NegMul(k, r, f.q);
    Regroup(k, k.mul(x.a, w.a), k.mul(x.a, y.a), f.MulIp(p), f.MulIp(r));
    Regroup(k, k.mul(x.a, w.b), k.mul(x.a, y.b), s, t);
  }

  lemma Half<F(!new)>(k: Ring<F>, x: F, w: F, y: F)
    requires CommutativeRing(k)
    ensures k.mul(k.Sub(w, y), x) == k.Sub(k.mul(x, w), k.mul(x, y))
  {
    Distribute(k, x, w, k.neg(y));
    NegMul(k, x, y);
    Commute(k, x, w);
    NegMul(k, y, x);
    Commute(k, x, y);
  }

  /** (a - b) + (c + d) == (a + c) - (b - d) */
  lemma Regroup<F(!new)>(k: Ring<F>, a: F, b: F, c: F, d: F)
    requires CommutativeRing(k)
    ensures k.add(k.Sub(a, b), k.add(c, d)) == k.add(k.add(a, c), k.neg(k.add(b, k.neg(d))))
  {
    Interchange(k, a, k.neg(b), c, d);
    NegAdd(k, b, k.neg(d));
    NegNeg(k, d);
  }

  /** xtr_D computes x*x - 2*conj(x). */
  lemma XtrDCorrect<F(!new)>(f: Base<F>, x: Fp4<F>)
    requires f.Valid()
    ensures f.XtrD(x) == f.SubSpec(f.MulSpec(x, x), f.Add(f.Conj(x), f.Conj(x)))
  {
    SqrCorrect(f, x);
    NegCorrect(f, f.Add(f.Conj(x), f.Conj(x)));
  }

  // ---------- where trace sequences come from ----------

  /** n |-> h^n for a unit h. */
  ghost predicate Exponential<L>(k: Ring<L>, e: int -> L) {
    && e(0) == k.one
    && (forall m, n {:trigger At2(m, n)} :: At2(m, n) ==> e(m + n) == k.mul(e(m), e(n)))
  }

  /** The powers of three elements whose product is one. */
  ghost predicate Norm1<L>(k: Ring<L>, e0: int -> L, e1: int -> L, e2: int -> L) {
    && Exponential(k, e0) && Exponential(k, e1) && Exponential(k, e2)
    && (forall n {:trigger At1(n)} :: At1(n) ==> k.mul(k.mul(e0(n), e1(n)), e2(n)) == k.one)
  }

  function Sum3<L>(k: Ring<L>, e0: int -> L, e1: int -> L, e2: int -> L, n: int): L {
    k.add(k.add(e0(n), e1(n)), e2(n))
  }

  /** The off-diagonal part of a product of two three-term sums. */
  function Cross<L>(k: Ring<L>, x0: L, x1: L, x2: L, y0: L, y1: L, y2: L): L {
    k.add(k.add(k.add(k.mul(x0, y1), k.mul(x1, y0)), k.add(k.mul(x0, y2), k.mul(x2, y0))),
          k.add(k.mul(x1, y2), k.mul(x2, y1)))
  }

  lemma Expand<L(!new)>(k: Ring<L>, x0: L, x1: L, x2: L, y0: L, y1: L, y2: L)
    requires CommutativeRing(k)
    ensures k.mul(k.add(k.add(x0, x1), x2), k.add(k.add(y0, y1), y2))
         == k.add(k.add(k.add(k.mul(x0, y0), k.mul(x1, y1)), k.mul(x2, y2)), Cross(k, x0, x1, x2, y0, y1, y2))
  {
    var x01, y01 := k.add(x0, x1), k.add(y0, y1);
    // x01*y01 + x2*y2 + (x01*y2 + x2*y01)
    Distribute(k, k.add(x01, x2), y01, y2);
    Distribute(k, y01, x01, x2);
    Distribute(k, y2, x01, x2);
    Commute(k, k.mul(x01, y2), k.mul(x2, y2));
    Interchange(k, k.mul(x01, y01), k.mul(x2, y01), k.mul(x2, y2), k.mul(x01, y2));
    // x01*y01 = (x0*y0 + x1*y1) + (x0*y1 + x1*y0)
    Distribute(k, x01, y0, y1);
    Distribute(k, y0, x0, x1);
    Distribute(k, y1, x0, x1);
    var d, c := k.add(k.mul(x0, y0), k.mul(x1, y1)), k.add(k.mul(x0, y1), k.mul(x1, y0));
    Commute(k, k.mul(x0, y1), k.mul(x1, y1));
    Interchange(k, k.mul(x0, y0), k.mul(x1, y0), k.mul(x1, y1), k.mul(x0, y1));
    Commute(k, k.mul(x1, y0), k.mul(x0, y1));
    assert k.mul(x01, y01) == k.add(d, c);
    // x2*y01 + x01*y2 = (x0*y2 + x2*y0) + (x1*y2 + x2*y1)
    Distribute(k, x2, y0, y1);
    Distribute(k, y2, x0, x1);
    var s := k.add(k.mul(x2, y01), k.mul(x01, y2));
    Commute(k, k.mul(x2, y01), k.mul(x01, y2));
    Interchange(k, k.mul(x0, y2), k.mul(x1, y2), k.mul(x2, y0), k.mul(x2, y1));
    // (d + c) + x2*y2 + s = (d + x2*y2) + (c + s)
    Associate(k, d, c, k.mul(x2, y2));
    Commute(k, c, k.mul(x2, y2));
    Associate(k, d, k.mul(x2, y2), c);
    Associate(k, k.add(d, k.mul(x2, y2)), c, s);
    Associate(k, c, k.add(k.mul(x0, y2), k.mul(x2, y0)), k.add(k.mul(x1, y2), k.mul(x2, y1)));
  }

  /** e_i(-v) * e_j(u-v) == e_j(u) * e_k(v) when e_i*e_j*e_k is one. */
  lemma Twist<L(!new)>(k: Ring<L>, ei: int -> L, ej: int -> L, ek: int -> L, u: int, v: int)
    requires CommutativeRing(k) && Norm1(k, ei, ej, ek)
    ensures k.mul(ei(-v), ej(u - v)) == k.mul(ej(u), ek(v))
  {
    var jk := k.mul(ej(v), ek(v));
    assert At1(v) && At2(-v, v) && At2(v, u - v);
    // ei(-v) = ei(-v) * (ei(v) * ej(v) * ek(v)) = ej(v) * ek(v)
    Associate(k, ei(v), ej(v), ek(v));
    Associate(k, ei(-v), ei(v), jk);
    Unit(k, ei(-v));
    Unit(k, jk);
    assert ei(-v) == jk;
    Commute(k, ej(v), ek(v));
    Associate(k, ek(v), ej(v), ej(u - v));
    assert v + (u - v) == u;
    Commute(k, ek(v), ej(u));
  }

  lemma Norm1Rotate<L(!new)>(k: Ring<L>, e0: int -> L, e1: int -> L, e2: int -> L)
    requires CommutativeRing(k) && Norm1(k, e0, e1, e2)
    ensures Norm1(k, e1, e2, e0) && Norm1(k, e1, e0, e2)
  {
    forall n {:trigger At1(n)} ensures k.mul(k.mul(e1(n), e2(n)), e0(n)) == k.one
                                    && k.mul(k.mul(e1(n), e0(n)), e2(n)) == k.one {
      assert At1(n);
      Associate(k, e0(n), e1(n), e2(n));
      Commute(k, e0(n), k.mul(e1(n), e2(n)));
      Commute(k, e0(n), e1(n));
    }
  }

  /** The off-diagonal parts of c(u)*c(v) and c(-v)*c(u-v) are the same six products. */
  lemma SameCross<L(!new)>(k: Ring<L>, e0: int -> L, e1: int -> L, e2: int -> L, u: int, v: int)
    requires CommutativeRing(k) && Norm1(k, e0, e1, e2)
    ensures Cross(k, e0(u), e1(u), e2(u), e0(v), e1(v), e2(v))
         == Cross(k, e0(-v), e1(-v), e2(-v), e0(u - v), e1(u - v), e2(u - v))
  {
    Norm1Rotate(k, e0, e1, e2);
    Norm1Rotate(k, e1, e2, e0);
    Norm1Rotate(k, e1, e0, e2);
    Twist(k, e0, e1, e2, u, v);
    Twist(k, e0, e2, e1, u, v);
    Twist(k, e1, e0, e2, u, v);
    Twist(k, e1, e2, e0, u, v);
    Twist(k, e2, e0, e1, u, v);
    Twist(k, e2, e1, e0, u, v);
    var a, b := k.mul(e0(u), e1(v)), k.mul(e1(u), e0(v));
    var c, d := k.mul(e0(u), e2(v)), k.mul(e2(u), e0(v));
    var e, f := k.mul(e1(u), e2(v)), k.mul(e2(u), e1(v));
    // ((a+b)+(c+d))+(e+f) against ((e+c)+(f+a))+(d+b)
    Permute6(k, a, b, c, d, e, f);
  }

  lemma Permute6<L(!new)>(k: Ring<L>, a: L, b: L, c: L, d: L, e: L, f: L)
    requires CommutativeRing(k)
    ensures k.add(k.add(k.add(a, b), k.add(c, d)), k.add(e, f))
         == k.add(k.add(k.add(e, c), k.add(f, a)), k.add(d, b))
  {
    Interchange(k, a, b, c, d);
    Commute(k, b, d);
    // (ac + db) + ef = (ac + ef) + db
    Associate(k, k.add(a, c), k.add(d, b), k.add(e, f));
    Commute(k, k.add(d, b), k.add(e, f));
    Associate(k, k.add(a, c), k.add(e, f), k.add(d, b));
    // ac + ef = ec + fa
    Commute(k, k.add(a, c), k.add(e, f));
    Commute(k, a, c);
    Interchange(k, e, f, c, a);
  }

  /** The sum of the n-th powers of three elements of product one satisfies
      c(u+v) = c(v)*c(u) - c(-v)*c(u-v) + c(u-2v). */
  lemma TraceRecurrence<L(!new)>(k: Ring<L>, e0: int -> L, e1: int -> L, e2: int -> L, u: int, v: int)
    requires CommutativeRing(k) && Norm1(k, e0, e1, e2)
    ensures Sum3(k, e0, e1, e2, u + v)
         == k.add(k.Sub(k.mul(Sum3(k, e0, e1, e2, v), Sum3(k, e0, e1, e2, u)),
                        k.mul(Sum3(k, e0, e1, e2, -v), Sum3(k, e0, e1, e2, u - v))),
                  Sum3(k, e0, e1, e2, u - v - v))
  {
    Expand(k, e0(u), e1(u), e2(u), e0(v), e1(v), e2(v));
    Expand(k, e0(-v), e1(-v), e2(-v), e0(u - v), e1(u - v), e2(u - v));
    SameCross(k, e0, e1, e2, u, v);
    assert At2(u, v) && At2(-v, u - v) && -v + (u - v) == u - v - v;
    var p, q := Sum3(k, e0, e1, e2, u + v), Sum3(k, e0, e1, e2, u - v - v);
    var x := Cross(k, e0(u), e1(u), e2(u), e0(v), e1(v), e2(v));
    Commute(k, Sum3(k, e0, e1, e2, u), Sum3(k, e0, e1, e2, v));
    // ((p + x) - (q + x)) + q = p
    NegAdd(k, q, x);
    Interchange(k, p, x, k.neg(q), k.neg(x));
    Unit(k, x);
    Unit(k, k.Sub(p, q));
    Associate(k, p, k.neg(q), q);
    Unit(k, q);
    Unit(k, p);
  }

  // ---------- the FP4 operations are lawful ----------

  /** An embedding of FP4 into a larger ring (for BN curves, FP12). */
  ghost predicate Embeds<F(!new), L>(f: Base<F>, k: Ring<L>, iota: Fp4<F> -> L) {
    && (forall x, y {:trigger At2(x, y)} :: At2(x, y) ==>
          && iota(f.Add(x, y)) == k.add(iota(x), iota(y))
          && iota(f.MulSpec(x, y)) == k.mul(iota(x), iota(y))
          && (iota(x) == iota(y) ==> x == y))
    && (forall x {:trigger At1(x)} :: At1(x) ==> iota(f.NegSpec(x)) == k.neg(iota(x)))
    && iota(Fp4(f.k.one, f.k.zero)) == k.one
  }

  /** c(n) is an FP4 element that is the sum of the n-th powers of three elements of product one,
      and conjugation inverts the exponent (true of unitary elements of FP12). */
  ghost predicate TraceSequence<F(!new), L>(f: Base<F>, k: Ring<L>, iota: Fp4<F> -> L,
                                            e0: int -> L, e1: int -> L, e2: int -> L, c: int -> Fp4<F>) {
    && Norm1(k, e0, e1, e2)
    && (forall n {:trigger At1(n)} :: At1(n) ==>
          iota(c(n)) == Sum3(k, e0, e1, e2, n) && f.Conj(c(n)) == c(-n))
  }

  lemma XtrALawful<F(!new), L(!new)>(f: Base<F>, k: Ring<L>, iota: Fp4<F> -> L,
                                     e0: int -> L, e1: int -> L, e2: int -> L, c: int -> Fp4<F>, u: int, v: int)
    requires f.Valid() && CommutativeRing(k) && Embeds(f, k, iota) && TraceSequence(f, k, iota, e0, e1, e2, c)
    ensures f.XtrA(c(u), c(v), c(u - v), c(u - v - v)) == c(u + v)
  {
    XtrACorrect(f, c(u), c(v), c(u - v), c(u - v - v));
    assert At1(u) && At1(v) && At1(-v) && At1(u - v) && At1(u - v - v) && At1(u + v);
    var p, q := f.MulSpec(c(v), c(u)), f.MulSpec(c(-v), c(u - v));
    assert At2(c(v), c(u)) && At2(c(-v), c(u - v)) && At1(q);
    assert At2(p, f.NegSpec(q)) && At2(f.SubSpec(p, q), c(u - v - v));
    TraceRecurrence(k, e0, e1, e2, u, v);
    assert At2(f.XtrA(c(u), c(v), c(u - v), c(u - v - v)), c(u + v));
  }

  lemma ThreeLawful<F(!new), L(!new)>(f: Base<F>, k: Ring<L>, iota: Fp4<F> -> L,
                                      e0: int -> L, e1: int -> L, e2: int -> L, c: int -> Fp4<F>)
    requires f.Valid() && CommutativeRing(k) && Embeds(f, k, iota) && TraceSequence(f, k, iota, e0, e1, e2, c)
    ensures c(0) == Fp4(f.k.Three(), f.k.zero)
  {
    var one := Fp4(f.k.one, f.k.zero);
    Unit(f.k, f.k.zero);
    assert At1(0) && At2(one, one) && At2(f.Add(one, one), one);
    assert f.Add(f.Add(one, one), one) == Fp4(f.k.Three(), f.k.zero);
    assert At2(c(0), Fp4(f.k.Three(), f.k.zero));
  }

  /** x*x - 2y follows from the recurrence at u = v, where c(0) is three. */
  lemma XtrDLawful<F(!new), L(!new)>(f: Base<F>, k: Ring<L>, iota: Fp4<F> -> L,
                                     e0: int -> L, e1: int -> L, e2: int -> L, c: int -> Fp4<F>, n: int)
    requires f.Valid() && CommutativeRing(k) && Embeds(f, k, iota) && TraceSequence(f, k, iota, e0, e1, e2, c)
    ensures f.XtrD(c(n)) == c(n + n)
  {
    XtrDCorrect(f, c(n));
    assert At1(n) && At1(-n) && At1(n + n) && At1(0);
    var s, t := Sum3(k, e0, e1, e2, n), Sum3(k, e0, e1, e2, -n);
    TraceRecurrence(k, e0, e1, e2, n, n);
    assert n - n == 0 && n - n - n == -n;
    var one2 := k.add(k.one, k.one);
    Distribute(k, t, one2, k.one);
    Distribute(k, t, k.one, k.one);
    Unit(k, t);
    var tt := k.add(t, t);
    assert k.mul(t, Sum3(k, e0, e1, e2, 0)) == k.add(tt, t);
    // (s*s - (tt + t)) + t = s*s - tt
    NegAdd(k, tt, t);
    Associate(k, k.mul(s, s), k.neg(tt), k.neg(t));
    Associate(k, k.add(k.mul(s, s), k.neg(tt)), k.neg(t), t);
    Unit(k, k.add(k.mul(s, s), k.neg(tt)));
    assert At2(c(n), c(n)) && At2(c(-n), c(-n)) && At1(f.Add(c(-n), c(-n)));
    assert At2(f.MulSpec(c(n), c(n)), f.NegSpec(f.Add(c(-n), c(-n))));
    assert At2(f.XtrD(c(n)), c(n + n));
  }

  /** The operations of fp4.c drive every trace sequence, so both exponentiations apply to it. */
  lemma Fp4Lawful<F(!new), L(!new)>(f: Base<F>, k: Ring<L>, iota: Fp4<F> -> L,
                                    e0: int -> L, e1: int -> L, e2: int -> L, c: int -> Fp4<F>)
    requires f.Valid() && CommutativeRing(k) && Embeds(f, k, iota) && TraceSequence(f, k, iota, e0, e1, e2, c)
    ensures X.Lawful(f.Ops(), c)
  {
    ThreeLawful(f, k, iota, e0, e1, e2, c);
    forall n {:trigger X.At(n)} ensures f.Conj(c(n)) == c(-n) && f.XtrD(c(n)) == c(n + n) {
      assert At1(n);
      XtrDLawful(f, k, iota, e0, e1, e2, c, n);
    }
    forall u, v {:trigger X.At2(u, v)} ensures f.XtrA(c(u), c(v), c(u - v), c(u - v - v)) == c(u + v) {
      XtrALawful(f, k, iota, e0, e1, e2, c, u, v);
    }
  }
}
