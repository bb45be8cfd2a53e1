/** Lazy reduction in the prime field (fp.c, default curve BN254_CX): elements are kept in
    Montgomery form in nine limbs, un-normalised and not fully reduced, and the "excess" of the top
    limb decides when to reduce. */
module FpField {
  import Words
  import opened Arith
  import opened Limbs
  import opened BigProduct
  import opened BigDiv
  import opened Montgomery

  const NLEN := 9
  /** 2^(29*9 - 254): how many times 2^254 fits nine limbs. */
  const FEXCESS := 128

  const MODULUS: seq<int> :=
    [0x1C1B55B3, 0x13311F7A, 0x24FB86F, 0x1FADDC30, 0x166D3243, 0xFB23D31, 0x836C2F7, 0x10E05, 0x240000]
  const MCONST := 0x19789E85

  // The modulus as an integer, pinned down like the weights in `Limbs`.
  ghost predicate MarkedModulus(u: int) { true }

  ghost predicate IsModulus(p: int) {
    p > 0 && forall u {:trigger MarkedModulus(u)} :: MarkedModulus(u) && u == 0 ==> p == Value(MODULUS)
  }

  ghost function P(): (p: int)
    ensures p > 0
  {
    ModulusBits();
    assert IsModulus(Value(MODULUS));
    var p :| IsModulus(p);
    p
  }

  /** 2^254 */
  ghost function M(): int { Term(0x40_0000, 8) }

  /** The modulus has 254 bits. */
  lemma ModulusBits()
    ensures Reduced(MODULUS) && 0 < M() <= 2 * Value(MODULUS) && 0 < Value(MODULUS) < M() && 128 * M() == W(9)
  {
    TopLimb(MODULUS);
    TermIs(0x40_0000, 8);
    TermIs(0x24_0000, 8);
    TermIs(0x24_0001, 8);
    WNext(8);
  }

  /** The constants of rom.c meet what the reduction and the excess tests rely on. */
  lemma ModulusFacts()
    ensures P() == Value(MODULUS) && Reduced(MODULUS) && MontgomeryConstant(MCONST, MODULUS[0])
    ensures 0 < M() <= 2 * P() && P() < M() && 128 * M() == W(9)
    ensures Coprime(W(9), P())
  {
    assert MarkedModulus(0);
    ModulusBits();
    assert (MCONST * MODULUS[0] + 1) % 0x2000_0000 == 0;
    ModulusCoprime(MCONST, MODULUS, 9);
  }

  // ---------- which number the modulus is ----------

  /** CURVE_Bnx, the parameter of the curve, and CURVE_Order. */
  const BNX: seq<int> := [0x3C012B1, 0x0, 0x10]
  const ORDER: seq<int> :=
    [0x16EB1F6D, 0x108E0531, 0x1241B3AF, 0x1FADDC19, 0x166D2C43, 0xFB23D31, 0x836C2F7, 0x10E05, 0x240000]

  lemma Weights()
    ensures W(0) == 0x1
    ensures W(1) == 0x20000000
    ensures W(2) == 0x400000000000000
    ensures W(3) == 0x8000000000000000000000
    ensures W(4) == 0x100000000000000000000000000000
    ensures W(5) == 0x2000000000000000000000000000000000000
    ensures W(6) == 0x40000000000000000000000000000000000000000000
    ensures W(7) == 0x800000000000000000000000000000000000000000000000000
    ensures W(8) == 0x10000000000000000000000000000000000000000000000000000000000
  {
    WZero();
    WNext(0);
    WNext(1);
    WNext(2);
    WNext(3);
    WNext(4);
    WNext(5);
    WNext(6);
    WNext(7);
  }

  /** The value of nine limbs, written out. */
  lemma NineLimbs(s: seq<int>)
    requires |s| == 9
    ensures Value(s) == s[0] + s[1] * W(1) + s[2] * W(2) + s[3] * W(3) + s[4] * W(4) + s[5] * W(5) + s[6] * W(6) + s[7] * W(7) + s[8] * W(8)
  {
    FirstLimbs(s, 9);
    TermIs(s[3], 3);
    TermIs(s[4], 4);
    TermIs(s[5], 5);
    TermIs(s[6], 6);
    TermIs(s[7], 7);
    TermIs(s[8], 8);
    assert ValueTo(s, 4) == ValueTo(s, 3) + Term(s[3], 3);
    assert ValueTo(s, 5) == ValueTo(s, 4) + Term(s[4], 4);
    assert ValueTo(s, 6) == ValueTo(s, 5) + Term(s[5], 5);
    assert ValueTo(s, 7) == ValueTo(s, 6) + Term(s[6], 6);
    assert ValueTo(s, 8) == ValueTo(s, 7) + Term(s[7], 7);
    assert ValueTo(s, 9) == ValueTo(s, 8) + Term(s[8], 8);
  }

  lemma FirstLimbs(s: seq<int>, n: nat)
    requires 3 <= n == |s|
    ensures ValueTo(s, 3) == s[0] + s[1] * W(1) + s[2] * W(2)
  {
    TermLow(s[0]);
    TermIs(s[1], 1);
    TermIs(s[2], 2);
    assert ValueTo(s, 1) == ValueTo(s, 0) + Term(s[0], 0);
    assert ValueTo(s, 2) == ValueTo(s, 1) + Term(s[1], 1);
    assert ValueTo(s, 3) == ValueTo(s, 2) + Term(s[2], 2);
  }

  lemma ConstantValues()
    ensures Value(MODULUS) == 0x2400000008702A0DB0BDDF647A6366D3243FD6EE18093EE1BE6623EF5C1B55B3
    ensures Value(ORDER) == 0x2400000008702A0DB0BDDF647A6366D2C43FD6EE0CC906CEBE11C0A636EB1F6D
    ensures Value(BNX) == 0x4000000003C012B1
  {
    Weights();
    NineLimbs(MODULUS);
    NineLimbs(ORDER);
    FirstLimbs(BNX, 3);
  }

  /** The polynomials of a Barreto-Naehrig curve, by Horner's rule: c is 24 for the field and 18 for the group. */
  function BarretoNaehrig(c: int, u: int): int { 1 + u * (6 + u * (c + u * (36 + u * 36))) }

  lemma Horner(c: int, u: int)
    ensures BarretoNaehrig(c, u) == 36 * (u * u * u * u) + 36 * (u * u * u) + c * (u * u) + 6 * u + 1
  {
  }

  /** The modulus and the group order of the curve with the parameter u = -CURVE_Bnx; the modulus is 3 modulo 8, as the
      tower of extensions assumes. */
  lemma ModulusIsBn()
    ensures var u := -Value(BNX); P() == 36 * (u * u * u * u) + 36 * (u * u * u) + 24 * (u * u) + 6 * u + 1
    ensures var u := -Value(BNX); Value(ORDER) == 36 * (u * u * u * u) + 36 * (u * u * u) + 18 * (u * u) + 6 * u + 1
    ensures P() % 8 == 3
  {
    var u := -Value(BNX);
    ModulusFacts();
    ConstantValues();
    Horner(24, u);
    Horner(18, u);
    assert BarretoNaehrig(24, -0x4000000003C012B1) == 0x2400000008702A0DB0BDDF647A6366D3243FD6EE18093EE1BE6623EF5C1B55B3;
    assert BarretoNaehrig(18, -0x4000000003C012B1) == 0x2400000008702A0DB0BDDF647A6366D2C43FD6EE0CC906CEBE11C0A636EB1F6D;
  }

  /** A field element: limbs of magnitude at most deg*(2^29-1), and a value below R = 2^261. */
  ghost predicate Elem(s: seq<int>, deg: int) {
    && |s| == NLEN
    && (forall i :: 0 <= i < NLEN - 1 ==> -deg * 0x1FFF_FFFF <= s[i] <= deg * 0x1FFF_FFFF)
    && 0 <= Value(s) < W(9)
  }

  lemma {:induction false} LowerPart(s: seq<int>, deg: int, k: nat)
    requires k <= |s| && deg >= 0
    requires forall i :: 0 <= i < k ==> -deg * 0x1FFF_FFFF <= s[i] <= deg * 0x1FFF_FFFF
    ensures -Term(deg, k) <= ValueTo(s, k) <= Term(deg, k)
  {
    if k == 0 {
      TermLow(deg);
    } else {
      LowerPart(s, deg, k - 1);
      TermMono(s[k - 1], deg * 0x1FFF_FFFF, k - 1);
      TermMono(-deg * 0x1FFF_FFFF, s[k - 1], k - 1);
      TermIs(deg, k);
      TermIs(deg, k - 1);
      TermIs(deg * 0x1FFF_FFFF, k - 1);
      TermIs(-deg * 0x1FFF_FFFF, k - 1);
      WNext(k - 1);
    }
  }

  /** The top limb of an element is within deg of a reduced limb. */
  lemma TopOfElem(s: seq<int>, deg: int)
    requires Elem(s, deg) && 0 <= deg <= 4
    ensures -4 <= s[8] <= 0x2000_0003 && LooseDividend(s)
  {
    LowerPart(s, deg, 8);
    TermMono(deg, 4, 8);
    TermIs(4, 8);
    TermIs(s[8], 8);
    TermIs(0x4000_0000, 8);
    WNext(8);
    if s[8] <= -5 { MulMono(s[8], -5, W(8)); }
    if s[8] >= 0x2000_0004 { MulMono(0x2000_0004, s[8], W(8)); }
  }

  function Excess(top: int): int { top / 0x40_0000 }

  /** An element of excess e is below (e+1)*2^254. */
  lemma ExcessBound(s: seq<int>)
    requires |s| == NLEN && Reduced(s)
    ensures 0 <= Excess(s[8]) < FEXCESS
    ensures 0 <= Value(s) < (Excess(s[8]) + 1) * M()
  {
    TopLimb(s);
    ValueToBounds(s, 9);
    var e := Excess(s[8]);
    TermMono(s[8] + 1, (e + 1) * 0x40_0000, 8);
    TermScale(e + 1, 0x40_0000, 8);
  }

  method Modulus() returns (m: array<int>)
    ensures fresh(m) && m[..] == MODULUS
  {
    m := new int[NLEN];
    var i := 0;
    while i < NLEN
      invariant 0 <= i <= NLEN
      invariant forall j :: 0 <= j < i ==> m[j] == MODULUS[j]
    {
      m[i] := MODULUS[i];
      i := i + 1;
    }
    assert m[..] == MODULUS;
  }

  /** BIG_norm on an element. */
  method FpNorm(a: array<int>)
    requires Elem(a[..], 4)
    modifies a
    ensures Reduced(a[..]) && Value(a[..]) == old(Value(a[..]))
  {
    TopOfElem(a[..], 4);
    BigNorm(a);
    FitsTop(a[..]);
  }

  /** FP_reduce: full reduction. */
  method FpReduce(a: array<int>)
    requires a.Length == NLEN && LooseDividend(a[..])
    modifies a
    ensures Reduced(a[..]) && Value(a[..]) == old(Value(a[..])) % P()
  {
    var m := Modulus();
    ModulusFacts();
    BigMod(a, m);
    FitsTop(a[..]);
  }

  // ---------- multiplication ----------

  lemma ProductInRange(x: int, y: int, ex: int, ey: int)
    requires 0 <= ex && 0 <= ey && 0 <= x < (ex + 1) * M() && 0 <= y < (ey + 1) * M()
    requires (ex + 1) * (ey + 1) <= FEXCESS
    ensures 0 <= x * y < M() * W(9)
  {
    ModulusFacts();
    var u, v, m := ex + 1, ey + 1, M();
    BelowProduct(x, u * m, y, v * m);
    ScaledProduct(u, v, m, 128);
  }

  lemma ScaledProduct(u: int, v: int, m: int, k: int)
    requires u * v <= k
    ensures (u * m) * (v * m) <= m * (k * m)
  {
    var mm, uv := m * m, u * v;
    assert (u * m) * (v * m) == uv * mm;
    assert m * (k * m) == k * mm;
    MulMono(uv, k, mm);
  }

  /** FP_mul: r*R = a*b modulo p.  a and b are normalised in place, and a may be reduced. */
  method FpMul(r: array<int>, a: array<int>, b: array<int>)
    requires r.Length == NLEN && Elem(a[..], 4) && Elem(b[..], 4)
    modifies r, a, b
    ensures Reduced(r[..]) && 0 <= Value(r[..]) < 2 * M()
    ensures Cong(Value(r[..]) * W(9), old(Value(a[..])) * old(Value(b[..])), P())
    ensures r != a ==> Reduced(a[..]) && Cong(Value(a[..]), old(Value(a[..])), P())
    ensures r != b ==> Reduced(b[..]) && Cong(Value(b[..]), old(Value(b[..])), P())
  {
    ModulusFacts();
    ghost var x, y := Value(a[..]), Value(b[..]);
    PrepareFactors(a, b);
    var d := new int[2 * NLEN];
    BigMul(d, a, b);
    var md := Modulus();
    FpMod(r, d, md, MCONST, M());
    ReducesCong(Value(r[..]), Value(d[..]), P(), 9);
  }

  /** Both factors normalised, and the first reduced if the product could be too large. */
  method PrepareFactors(a: array<int>, b: array<int>)
    requires Elem(a[..], 4) && Elem(b[..], 4)
    modifies a, b
    ensures Reduced(a[..]) && Reduced(b[..]) && 0 <= Value(a[..]) * Value(b[..]) < M() * W(9)
    ensures Cong(Value(a[..]), old(Value(a[..])), P()) && Cong(Value(b[..]), old(Value(b[..])), P())
    ensures Cong(Value(a[..]) * Value(b[..]), old(Value(a[..])) * old(Value(b[..])), P())
  {
    ghost var x, y := Value(a[..]), Value(b[..]);
    FpNorm(a);
    FpNorm(b);
    ExcessBound(a[..]);
    ExcessBound(b[..]);
    var ea, eb := Excess(a[NLEN - 1]), Excess(b[NLEN - 1]);
    assert Value(a[..]) == x && Value(b[..]) == y;
    if (ea + 1) * (eb + 1) > FEXCESS {
      ReducedIsLoose(a[..]);
      FpReduce(a);
      ValueToBounds(b[..], 9);
      FpMulReduced(x, y, Value(a[..]), Value(b[..]));
    } else {
      ProductInRange(x, y, ea, eb);
    }
  }

  lemma ReducedIsLoose(s: seq<int>)
    requires |s| == NLEN && Reduced(s)
    ensures LooseDividend(s)
  {
    ValueToBounds(s, 9);
    TermIs(0x4000_0000, 8);
    WNext(8);
  }

  /** Reducing one factor, or the shared factor of a square, keeps the product modulo p and makes it
      small enough. */
  lemma FpMulReduced(x: int, y: int, x': int, y': int)
    requires x' == x % P() && (y' == y || (y' == y % P() && x == y)) && 0 <= y' < W(9)
    ensures Cong(x' * y', x * y, P()) && 0 <= x' * y' < M() * W(9)
    ensures Cong(x', x, P()) && Cong(y', y, P())
  {
    ModulusFacts();
    CongMod(x, P());
    CongMod(y, P());
    CongMul(x', x, y', y, P());
    BelowProduct(x', M(), y', W(9));
  }

  /** FP_sqr: r*R = a*a modulo p. */
  method FpSqr(r: array<int>, a: array<int>)
    requires r.Length == NLEN && Elem(a[..], 4)
    modifies r, a
    ensures Reduced(r[..]) && 0 <= Value(r[..]) < 2 * M()
    ensures Cong(Value(r[..]) * W(9), old(Value(a[..])) * old(Value(a[..])), P())
    ensures r != a ==> Reduced(a[..]) && Cong(Value(a[..]), old(Value(a[..])), P())
  {
    ModulusFacts();
    ghost var x := Value(a[..]);
    FpNorm(a);
    ExcessBound(a[..]);
    var ea := Excess(a[NLEN - 1]);
    if (ea + 1) * (ea + 1) > FEXCESS {
      ReducedIsLoose(a[..]);
      FpReduce(a);
      ValueToBounds(a[..], 9);
      FpMulReduced(x, x, Value(a[..]), Value(a[..]));
    } else {
      ProductInRange(x, x, ea, ea);
    }
    assert Cong(Value(a[..]) * Value(a[..]), x * x, P());
    var d := new int[2 * NLEN];
    BigSqr(d, a);
    var md := Modulus();
    FpMod(r, d, md, MCONST, M());
    ReducesCong(Value(r[..]), Value(d[..]), P(), 9);
  }

  // ---------- addition and negation ----------

  lemma ElemSum(s: seq<int>, deg: int)
    requires |s| == NLEN && 0 <= deg <= 4 && Value(s) >= 0
    requires forall i :: 0 <= i < NLEN - 1 ==> -deg * 0x1FFF_FFFF <= s[i] <= deg * 0x1FFF_FFFF
    requires Excess(s[8]) + 2 < FEXCESS
    ensures Elem(s, deg)
  {
    LowerPart(s, deg, 8);
    TermMono(deg, 4, 8);
    TermMono(s[8], 126 * 0x40_0000 - 1, 8);
    TermIs(126 * 0x40_0000 - 1, 8);
    TermIs(4, 8);
    WNext(8);
  }

  /** FP_add: the sum, reduced only when the excess says so. */
  method FpAdd(r: array<int>, a: array<int>, b: array<int>, ghost da: int, ghost db: int)
    requires r.Length == NLEN && Elem(a[..], da) && Elem(b[..], db)
    requires 1 <= da && 1 <= db && da + db <= NEXCESS
    modifies r
    ensures Elem(r[..], da + db)
    ensures Cong(Value(r[..]), old(Value(a[..])) + old(Value(b[..])), P())
  {
    TopOfElem(a[..], da);
    TopOfElem(b[..], db);
    ModulusFacts();
    ghost var sum := Value(a[..]) + Value(b[..]);
    BigAdd(r, a, b);
    if Excess(r[NLEN - 1]) + 2 >= FEXCESS {
      SumIsLoose(r[..], da + db);
      FpReduce(r);
      CongMod(sum, P());
    } else {
      ElemSum(r[..], da + db);
    }
  }

  lemma SumIsLoose(s: seq<int>, deg: int)
    requires |s| == NLEN && 0 <= deg <= 4 && 0 <= Value(s) < 2 * W(9) && -8 <= s[8] <= 0x4000_0006
    requires forall i :: 0 <= i < NLEN - 1 ==> -deg * 0x1FFF_FFFF <= s[i] <= deg * 0x1FFF_FFFF
    ensures LooseDividend(s)
  {
    TermIs(0x4000_0000, 8);
    WNext(8);
  }

  /** Shifting by logb2 of v multiplies by a power of two that is at least 2*(v+1). */
  lemma LogB2Shift(v: int, k: nat) returns (p: int, q: int)
    requires 0 <= v < FEXCESS && k == Words.BitCount(v) + 1
    ensures p == Pow(2, k) && q == Pow(2, 29 - k) && ShiftPair(p, q)
    ensures 2 <= p <= 256 && 2 * (v + 1) <= p
  {
    p, q := Pow(2, k), Pow(2, 29 - k);
    PowPositive(2, k);
    PowPositive(2, 29 - k);
    assert Pow(2, 4) == 16 && Pow(2, 3) == 8 && Pow(2, 2) == 4 && Pow(2, 1) == 2;
    PowAdd(2, 4, 1);
    PowAdd(2, 4, 2);
    PowAdd(2, 4, 3);
    PowAdd(2, 4, 4);
    PowAdd(2, 8, 8);
    PowAdd(2, 16, 8);
    PowAdd(2, 24, 4);
    PowAdd(2, 28, 1);
    PowAdd(2, k, 29 - k);
  }

  /** The multiple of p that FP_neg subtracts from exceeds the element, and fits the top limb. */
  lemma NegMultiple(x: int, e: int, p: int)
    requires 0 <= e && 2 <= p <= 256 && 2 * (e + 1) <= p && 0 <= x < (e + 1) * M()
    ensures x < p * P() < Term(0x4000_0000, 8)
  {
    ModulusFacts();
    var m := M();
    MulMono(2 * (e + 1), p, P());
    assert (2 * (e + 1)) * P() == (e + 1) * (2 * P());
    MulMono(m, 2 * P(), e + 1);
    assert (e + 1) * m == m * (e + 1) && (e + 1) * (2 * P()) == (2 * P()) * (e + 1);
    MulMono(p, 256, P());
    TermIs(0x40_0000, 8);
    TermIs(0x4000_0000, 8);
  }

  /** FP_neg: a multiple of p minus a. */
  method FpNeg(r: array<int>, a: array<int>)
    requires r.Length == NLEN && Elem(a[..], 4)
    modifies r, a
    ensures Elem(r[..], 1)
    ensures Cong(Value(r[..]), -old(Value(a[..])), P())
    ensures r != a ==> Reduced(a[..]) && Value(a[..]) == old(Value(a[..]))
  {
    ghost var x := Value(a[..]);
    FpNorm(a);
    ExcessBound(a[..]);
    var ex := Excess(a[NLEN - 1]);
    var m := Modulus();
    ghost var p := ShiftModulus(m, ex);
    NegMultiple(x, ex, p);
    Negate(r, m, a, x, p * P());
    CongIntro(p * P() - x, -x, p, P());
  }

  /** r = m - a for a multiple m of p above a, reduced if its excess is too large. */
  method Negate(r: array<int>, m: array<int>, a: array<int>, ghost x: int, ghost y: int)
    requires r.Length == m.Length == a.Length == NLEN && m != r
    requires Normed(m[..]) && Value(m[..]) == y && 0 <= m[8] <= 0x4000_0000
    requires Reduced(a[..]) && Value(a[..]) == x < y < Term(0x4000_0000, 8)
    modifies r
    ensures Elem(r[..], 1) && Cong(Value(r[..]), y - x, P())
    ensures r != a ==> a[..] == old(a[..])
  {
    ghost var s, t := m[..], a[..];
    ValueToBounds(t, 9);
    BigSub(r, m, a);
    if Excess(r[NLEN - 1]) >= FEXCESS {
      DifferenceIsLoose(r[..]);
      FpReduce(r);
      ModulusFacts();
      CongMod(y - x, P());
    } else {
      DifferenceIsElem(r[..], s, t);
    }
  }

  /** BIG_fshl of the modulus by logb2 of the excess. */
  method ShiftModulus(m: array<int>, ex: int) returns (ghost p: int)
    requires m[..] == MODULUS && 0 <= ex < FEXCESS
    modifies m
    ensures 2 <= p <= 256 && 2 * (ex + 1) <= p
    ensures Normed(m[..]) && Value(m[..]) == p * P() && 0 <= m[8] <= 0x4000_0000
  {
    var sb := Words.LogB2(ex);
    ghost var q;
    p, q := LogB2Shift(ex, sb);
    ModulusFacts();
    ProdIs(p, 0x24_0000);
    MulMono(p, 256, 0x24_0000);
    MulMono(0, p, P());
    BigShl(m, Pow(2, sb), Pow(2, 29 - sb), sb);
    TopLimb(m[..]);
  }

  lemma DifferenceIsLoose(s: seq<int>)
    requires |s| == NLEN && 0 <= Value(s) < Term(0x4000_0000, 8) && -0x2000_0000 <= s[8] <= 0x4000_0000
    requires forall i :: 0 <= i < NLEN - 1 ==> -0x1FFF_FFFF <= s[i] <= 0x1FFF_FFFF
    ensures LooseDividend(s)
  {
  }

  lemma DifferenceIsElem(s: seq<int>, m: seq<int>, y: seq<int>)
    requires |s| == |m| == |y| == NLEN && Normed(m) && Reduced(y) && Value(s) >= 0
    requires forall i :: 0 <= i < NLEN ==> s[i] == m[i] - y[i]
    requires Excess(s[8]) < FEXCESS
    ensures Elem(s, 1)
  {
    ValueToSum(s, y, m, 8);
    ValueToBounds(m, 8);
    ValueToBounds(y, 8);
    TermMono(s[8], 0x1FFF_FFFF, 8);
    TermIs(0x1FFF_FFFF, 8);
    WNext(8);
  }

  /** FP_sub: a plus the negation of b, which is normalised on the way; a and b may be one array. */
  method FpSub(r: array<int>, a: array<int>, b: array<int>, ghost da: int)
    requires r.Length == NLEN && Elem(a[..], da) && Elem(b[..], 4)
    requires 1 <= da && (a == b || da + 1 <= NEXCESS)
    modifies r, b
    ensures Elem(r[..], (if a == b then 1 else da) + 1)
    ensures Cong(Value(r[..]), old(Value(a[..])) - old(Value(b[..])), P())
    ensures r != b ==> Reduced(b[..]) && Value(b[..]) == old(Value(b[..]))
  {
    var n := new int[NLEN];
    ghost var x, y := Value(a[..]), Value(b[..]);
    FpNeg(n, b);
    ghost var z := Value(n[..]);
    if a == b { ProductIsElem(a[..]); }
    FpAdd(r, a, n, if a == b then 1 else da, 1);
    ModulusFacts();
    CongAdd(x, x, z, -y, P());
  }

  // ---------- in and out of Montgomery form ----------

  ghost predicate MovedUp(s: seq<int>, t: seq<int>, n: nat) {
    && |s| == |t| == 2 * n
    && (forall i :: 0 <= i < n ==> t[i] == 0)
    && (forall i :: n <= i < 2 * n ==> t[i] == s[i - n])
  }

  lemma {:induction false} MovedUpValue(s: seq<int>, t: seq<int>, n: nat, k: nat)
    requires MovedUp(s, t, n) && k <= n
    ensures ValueTo(t, n + k) == Term(ValueTo(s, k), n)
  {
    if k == 0 {
      ValueToZero(t, n);
      TermZero(n);
    } else {
      MovedUpValue(s, t, n, k - 1);
      TermAdd(ValueTo(s, k - 1), Term(s[k - 1], k - 1), n);
      TermNest(s[k - 1], k - 1, n, n + k - 1);
    }
  }

  /** BIG_dshl by NLEN whole limbs: the masked and carried-in bits are those of a shift by 0. */
  method MoveUp(d: array<int>)
    requires d.Length == 2 * NLEN && Reduced(d[..])
    modifies d
    ensures MovedUp(old(d[..]), d[..], NLEN)
  {
    ghost var s := d[..];
    var i := 2 * NLEN - 1;
    while i > NLEN
      invariant NLEN <= i < 2 * NLEN
      invariant forall j :: 0 <= j <= i ==> d[j] == s[j]
      invariant forall j :: i < j < 2 * NLEN ==> d[j] == s[j - NLEN]
    {
      d[i] := d[i - NLEN] % 0x2000_0000 + d[i - NLEN - 1] / 0x2000_0000;
      i := i - 1;
    }
    d[NLEN] := d[0] % 0x2000_0000;
    i := 0;
    while i < NLEN
      invariant 0 <= i <= NLEN
      invariant forall j :: 0 <= j < i ==> d[j] == 0
      invariant forall j :: NLEN <= j < 2 * NLEN ==> d[j] == s[j - NLEN]
    {
      d[i] := 0;
      i := i + 1;
    }
  }

  lemma ShiftedDividend(s: seq<int>, t: seq<int>, x: int)
    requires MovedUp(s, t, NLEN) && Reduced(s) && ValueTo(s, NLEN) == x
    ensures LooseDividend(t) && Value(t) == x * W(9)
  {
    MovedUpValue(s, t, NLEN, NLEN);
    TermIs(x, 9);
    assert Reduced(t);
    ValueToBounds(t, 18);
    TermMono(0x2000_0000, 0x4000_0000, 17);
    TermIs(0x2000_0000, 17);
    WNext(17);
  }

  /** FP_nres: into Montgomery form. */
  method FpNres(a: array<int>)
    requires a.Length == NLEN && Reduced(a[..])
    modifies a
    ensures Reduced(a[..]) && Value(a[..]) == (old(Value(a[..])) * W(9)) % P()
  {
    ghost var x := Value(a[..]);
    var m := Modulus();
    ModulusFacts();
    var d := Widen(a);
    BigDmod(a, d, m);
  }

  /** The number a*R as a double-length number. */
  method Widen(a: array<int>) returns (d: array<int>)
    requires a.Length == NLEN && Reduced(a[..])
    ensures fresh(d) && d.Length == 2 * NLEN && LooseDividend(d[..]) && Value(d[..]) == Value(a[..]) * W(9)
  {
    ghost var x := Value(a[..]);
    ValueToBounds(a[..], 9);
    d := LowerCopy(a);
    LowerCopyLow(d[..], x);
    ghost var s := d[..];
    MoveUp(d);
    ShiftedDividend(s, d[..], x);
  }

  lemma LowerCopyLow(s: seq<int>, x: int)
    requires |s| == 2 * NLEN && Reduced(s) && Value(s) == x && 0 <= x < W(9)
    ensures ValueTo(s, NLEN) == x
  {
    LowerHalfValue(s[..9], s);
    ValueToFrame(s[..9], s, 9);
  }

  /** FP_redc: out of Montgomery form. */
  method FpRedc(a: array<int>)
    requires a.Length == NLEN && Reduced(a[..])
    modifies a
    ensures Reduced(a[..]) && Reduces(Value(a[..]), old(Value(a[..])), P(), 9)
    ensures old(Value(a[..])) < P() ==> Value(a[..]) < P()
  {
    ghost var x := Value(a[..]);
    ModulusFacts();
    ValueToBounds(a[..], 9);
    MulMono(1, M(), W(9));
    var m := Modulus();
    var d := LowerCopy(a);
    FpMod(a, d, m, MCONST, M());
    if x < P() { ReducesBelow(Value(a[..]), x, P(), 9); }
  }

  /** FP_nres then FP_redc: every reduced number comes back modulo p. */
  method FpRoundTrip(a: array<int>)
    requires a.Length == NLEN && Reduced(a[..])
    modifies a
    ensures Reduced(a[..]) && Value(a[..]) == old(Value(a[..])) % P()
  {
    ghost var x := Value(a[..]);
    FpNres(a);
    FpRedc(a);
    ModulusFacts();
    RedcNres(x, Value(a[..]), P(), 9);
  }

  // ---------- chains of operations ----------

  /** An operation on a file of registers.  Operands and destination are register numbers, in any combination. */
  datatype Instr = Mul(d: nat, a: nat, b: nat) | Sqr(d: nat, a: nat) | Add(d: nat, a: nat, b: nat)
                 | Sub(d: nat, a: nat, b: nat) | Neg(d: nat, a: nat) | Copy(d: nat, a: nat) | Norm(a: nat) | Reduce(a: nat)

  /** What is known of a register: how far its limbs can be from normalised, and the number it stands for. */
  datatype Reg = Reg(deg: int, x: int)

  /** The registers after an operation, on exact integers.  A product or a negation starts afresh and normalises its
      operands in place; a sum adds up the degrees. */
  ghost function After(g: seq<Reg>, i: Instr): (r: seq<Reg>)
    requires Fits(g, i)
    ensures |r| == |g|
  {
    match i
    case Mul(d, a, b) => g[a := Reg(1, g[a].x)][b := Reg(1, g[b].x)][d := Reg(1, g[a].x * g[b].x)]
    case Sqr(d, a) => g[a := Reg(1, g[a].x)][d := Reg(1, g[a].x * g[a].x)]
    case Add(d, a, b) => g[d := Reg(g[a].deg + g[b].deg, g[a].x + g[b].x)]
    case Sub(d, a, b) => g[b := Reg(1, g[b].x)][d := Reg((if a == b then 1 else g[a].deg) + 1, g[a].x - g[b].x)]
    case Neg(d, a) => g[a := Reg(1, g[a].x)][d := Reg(1, -g[a].x)]
    case Copy(d, a) => g[d := g[a]]
    case Norm(a) => g[a := Reg(1, g[a].x)]
    case Reduce(a) => g[a := Reg(1, g[a].x)]
  }

  /** No limb of the result outgrows a chunk. */
  ghost predicate Fits(g: seq<Reg>, i: Instr) {
    match i
    case Mul(d, a, b) => d < |g| && a < |g| && b < |g|
    case Sqr(d, a) => d < |g| && a < |g|
    case Add(d, a, b) => d < |g| && a < |g| && b < |g| && g[a].deg + g[b].deg <= NEXCESS
    case Sub(d, a, b) => d < |g| && a < |g| && b < |g| && (a == b || g[a].deg + 1 <= NEXCESS)
    case Neg(d, a) => d < |g| && a < |g|
    case Copy(d, a) => d < |g| && a < |g|
    case Norm(a) => a < |g|
    case Reduce(a) => a < |g|
  }

  ghost predicate AllFit(g: seq<Reg>, prog: seq<Instr>)
    decreases |prog|
  {
    |prog| > 0 ==> Fits(g, prog[0]) && AllFit(After(g, prog[0]), prog[1..])
  }

  ghost function Final(g: seq<Reg>, prog: seq<Instr>): (r: seq<Reg>)
    requires AllFit(g, prog)
    ensures |r| == |g|
    decreases |prog|
  {
    if |prog| == 0 then g else Final(After(g, prog[0]), prog[1..])
  }

  /** s is x in Montgomery form. */
  ghost predicate Represents(s: seq<int>, x: int) { Cong(Value(s), x * W(9), P()) }

  ghost predicate MarkedReg(s: seq<int>, g: Reg) { true }

  /** The array s is as g says: in particular 0 <= Value(s) < R.  Used through the lemmas below. */
  ghost predicate Holds(s: seq<int>, g: Reg) {
    forall t, h {:trigger MarkedReg(t, h)} :: MarkedReg(t, h) && t == s && h == g ==>
      1 <= h.deg <= NEXCESS && Elem(t, h.deg) && Represents(t, h.x)
  }

  lemma HoldsIs(s: seq<int>, g: Reg)
    requires Holds(s, g)
    ensures 1 <= g.deg <= NEXCESS && Elem(s, g.deg) && Elem(s, NEXCESS) && Represents(s, g.x)
  {
    assert MarkedReg(s, g);
  }

  lemma HoldsIf(s: seq<int>, deg: int, x: int)
    requires 1 <= deg <= NEXCESS && Elem(s, deg) && Represents(s, x)
    ensures Holds(s, Reg(deg, x))
  {
  }

  /** A normalised array that is still congruent to what it was. */
  lemma HoldsReduced(s: seq<int>, v: int, x: int)
    requires |s| == NLEN && Reduced(s) && Cong(Value(s), v, P()) && Cong(v, x * W(9), P())
    ensures Holds(s, Reg(1, x))
  {
    ProductIsElem(s);
    HoldsIf(s, 1, x);
  }

  ghost predicate Distinct(regs: seq<array<int>>) { forall i, j :: 0 <= i < j < |regs| ==> regs[i] != regs[j] }

  /** Every register is as g says. */
  ghost predicate File(regs: seq<array<int>>, g: seq<Reg>)
    reads regs
  {
    |regs| == |g| && Distinct(regs) && forall i :: 0 <= i < |regs| ==> Holds(regs[i][..], g[i])
  }

  lemma RepSum(a: int, b: int, r: int, x: int, y: int, sign: int)
    requires Cong(a, x * W(9), P()) && Cong(b, y * W(9), P()) && (sign == 1 || sign == -1)
    requires Cong(r, a + sign * b, P())
    ensures Cong(r, (x + sign * y) * W(9), P())
  {
    CongMul(sign, sign, b, y * W(9), P());
    CongAdd(a, x * W(9), sign * b, sign * (y * W(9)), P());
    assert x * W(9) + sign * (y * W(9)) == (x + sign * y) * W(9);
  }

  lemma ProductIsElem(s: seq<int>)
    requires |s| == NLEN && Reduced(s)
    ensures Elem(s, 1)
  {
    ValueToBounds(s, 9);
  }

  // Each operation on arrays that hold known registers; the arrays may coincide.

  method MulHeld(r: array<int>, a: array<int>, b: array<int>, ghost g: Reg, ghost h: Reg)
    requires r.Length == NLEN && Holds(a[..], g) && Holds(b[..], h)
    modifies r, a, b
    ensures Holds(r[..], Reg(1, g.x * h.x))
    ensures (r != a ==> Holds(a[..], Reg(1, g.x))) && (r != b ==> Holds(b[..], Reg(1, h.x)))
  {
    HoldsIs(a[..], g);
    HoldsIs(b[..], h);
    ghost var x, y := Value(a[..]), Value(b[..]);
    FpMul(r, a, b);
    ModulusFacts();
    ScaledForm(x, y, Value(r[..]), g.x, h.x, W(9), P());
    HoldsReduced(r[..], Value(r[..]), g.x * h.x);
    if r != a { HoldsReduced(a[..], x, g.x); }
    if r != b { HoldsReduced(b[..], y, h.x); }
  }

  method SqrHeld(r: array<int>, a: array<int>, ghost g: Reg)
    requires r.Length == NLEN && Holds(a[..], g)
    modifies r, a
    ensures Holds(r[..], Reg(1, g.x * g.x)) && (r != a ==> Holds(a[..], Reg(1, g.x)))
  {
    HoldsIs(a[..], g);
    ghost var x := Value(a[..]);
    FpSqr(r, a);
    ModulusFacts();
    ScaledForm(x, x, Value(r[..]), g.x, g.x, W(9), P());
    HoldsReduced(r[..], Value(r[..]), g.x * g.x);
    if r != a { HoldsReduced(a[..], x, g.x); }
  }

  method AddHeld(r: array<int>, a: array<int>, b: array<int>, ghost g: Reg, ghost h: Reg)
    requires r.Length == NLEN && Holds(a[..], g) && Holds(b[..], h) && g.deg + h.deg <= NEXCESS
    modifies r
    ensures Holds(r[..], Reg(g.deg + h.deg, g.x + h.x))
  {
    HoldsIs(a[..], g);
    HoldsIs(b[..], h);
    ghost var x, y := Value(a[..]), Value(b[..]);
    FpAdd(r, a, b, g.deg, h.deg);
    RepSum(x, y, Value(r[..]), g.x, h.x, 1);
    HoldsIf(r[..], g.deg + h.deg, g.x + h.x);
  }

  method SubHeld(r: array<int>, a: array<int>, b: array<int>, ghost g: Reg, ghost h: Reg)
    requires r.Length == NLEN && Holds(a[..], g) && Holds(b[..], h) && (a == b || g.deg + 1 <= NEXCESS)
    modifies r, b
    ensures Holds(r[..], Reg((if a == b then 1 else g.deg) + 1, g.x - h.x)) && (r != b ==> Holds(b[..], Reg(1, h.x)))
  {
    HoldsIs(a[..], g);
    HoldsIs(b[..], h);
    ghost var x, y := Value(a[..]), Value(b[..]);
    FpSub(r, a, b, g.deg);
    RepSum(x, y, Value(r[..]), g.x, h.x, -1);
    HoldsIf(r[..], (if a == b then 1 else g.deg) + 1, g.x - h.x);
    if r != b { HoldsReduced(b[..], y, h.x); }
  }

  method NegHeld(r: array<int>, a: array<int>, ghost g: Reg)
    requires r.Length == NLEN && Holds(a[..], g)
    modifies r, a
    ensures Holds(r[..], Reg(1, -g.x)) && (r != a ==> Holds(a[..], Reg(1, g.x)))
  {
    HoldsIs(a[..], g);
    ghost var x := Value(a[..]);
    FpNeg(r, a);
    RepSum(0, x, Value(r[..]), 0, g.x, -1);
    HoldsIf(r[..], 1, -g.x);
    if r != a { HoldsReduced(a[..], x, g.x); }
  }

  method CopyHeld(r: array<int>, a: array<int>)
    requires r.Length == a.Length
    modifies r
    ensures r[..] == old(a[..])
  {
    var i := 0;
    while i < r.Length
      invariant 0 <= i <= r.Length && a[..] == old(a[..])
      invariant forall j :: 0 <= j < i ==> r[j] == a[j]
    {
      r[i] := a[i];
      i := i + 1;
    }
  }

  /** BIG_norm, or FP_reduce. */
  method TidyHeld(a: array<int>, full: bool, ghost g: Reg)
    requires Holds(a[..], g)
    modifies a
    ensures Holds(a[..], Reg(1, g.x))
  {
    HoldsIs(a[..], g);
    ghost var x := Value(a[..]);
    if full {
      TopOfElem(a[..], NEXCESS);
      FpReduce(a);
      CongMod(x, P());
    } else {
      FpNorm(a);
    }
    HoldsReduced(a[..], x, g.x);
  }

  /** One operation: every register is as After says, whatever registers coincide. */
  method Perform(i: Instr, regs: seq<array<int>>, ghost g: seq<Reg>)
    requires File(regs, g) && Fits(g, i)
    modifies regs
    ensures File(regs, After(g, i))
  {
    match i {
      case Mul(d, a, b) => PerformMul(i, regs, g);
      case Sqr(d, a) => PerformMul(i, regs, g);
      case Add(d, a, b) => PerformAdd(i, regs, g);
      case Sub(d, a, b) => PerformAdd(i, regs, g);
      case Neg(d, a) => PerformAdd(i, regs, g);
      case _ => PerformMove(i, regs, g);
    }
  }

  lemma Lengths(regs: seq<array<int>>, g: seq<Reg>)
    requires File(regs, g)
    ensures forall j :: 0 <= j < |regs| ==> regs[j].Length == NLEN
  {
    forall j | 0 <= j < |regs| ensures regs[j].Length == NLEN { HoldsIs(regs[j][..], g[j]); }
  }

  method PerformMul(i: Instr, regs: seq<array<int>>, ghost g: seq<Reg>)
    requires File(regs, g) && Fits(g, i) && (i.Mul? || i.Sqr?)
    modifies regs
    ensures File(regs, After(g, i))
  {
    Lengths(regs, g);
    if i.Mul? {
      MulHeld(regs[i.d], regs[i.a], regs[i.b], g[i.a], g[i.b]);
    } else {
      SqrHeld(regs[i.d], regs[i.a], g[i.a]);
    }
  }

  method PerformAdd(i: Instr, regs: seq<array<int>>, ghost g: seq<Reg>)
    requires File(regs, g) && Fits(g, i) && (i.Add? || i.Sub? || i.Neg?)
    modifies regs
    ensures File(regs, After(g, i))
  {
    Lengths(regs, g);
    if i.Add? {
      AddHeld(regs[i.d], regs[i.a], regs[i.b], g[i.a], g[i.b]);
    } else if i.Sub? {
      SubHeld(regs[i.d], regs[i.a], regs[i.b], g[i.a], g[i.b]);
    } else {
      NegHeld(regs[i.d], regs[i.a], g[i.a]);
    }
  }

  method PerformMove(i: Instr, regs: seq<array<int>>, ghost g: seq<Reg>)
    requires File(regs, g) && Fits(g, i) && (i.Copy? || i.Norm? || i.Reduce?)
    modifies regs
    ensures File(regs, After(g, i))
  {
    Lengths(regs, g);
    if i.Copy? {
      CopyHeld(regs[i.d], regs[i.a]);
    } else {
      TidyHeld(regs[i.a], i.Reduce?, g[i.a]);
    }
  }

  /** Every chain of field operations whose limbs fit: with operands shared, changed in place and overwritten, every
      register still stands for its exact value modulo p, and is in range. */
  method Execute(prog: seq<Instr>, regs: seq<array<int>>, ghost g: seq<Reg>)
    requires File(regs, g) && AllFit(g, prog)
    modifies regs
    ensures File(regs, Final(g, prog))
  {
    ghost var h := g;
    var i := 0;
    while i < |prog|
      invariant 0 <= i <= |prog| && File(regs, h)
      invariant AllFit(h, prog[i..]) && Final(h, prog[i..]) == Final(g, prog)
    {
      assert prog[i..][0] == prog[i] && prog[i..][1..] == prog[i + 1..];
      Perform(prog[i], regs, h);
      h := After(h, prog[i]);
      i := i + 1;
    }
  }
}
