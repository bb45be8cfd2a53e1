/**
 * Scalar multiplication with signed windows (ecp.c, ecp2.c), over any abelian group.  Points are values
 * of the group; the digit arrays keep the sizes of the source.
 */
module ScalarMul {
  import Words
  import opened Arith
  import opened Algebra
  import Xtr

  // ---------- sums of multiples ----------

  /** a*P + b*Q */
  ghost function Lin2<G>(g: Group<G>, a: int, b: int, P: G, Q: G): G {
    g.add(Times(g, a, P), Times(g, b, Q))
  }

  lemma Lin2Add<G(!new)>(g: Group<G>, a: int, b: int, c: int, d: int, P: G, Q: G)
    requires AbelianGroup(g)
    ensures g.add(Lin2(g, a, b, P, Q), Lin2(g, c, d, P, Q)) == Lin2(g, a + c, b + d, P, Q)
  {
    TimesAdd(g, a, c, P);
    TimesAdd(g, b, d, Q);
    GInterchange(g, Times(g, a, P), Times(g, b, Q), Times(g, c, P), Times(g, d, Q));
  }

  lemma Lin2Neg<G(!new)>(g: Group<G>, a: int, b: int, P: G, Q: G)
    requires AbelianGroup(g)
    ensures g.neg(Lin2(g, a, b, P, Q)) == Lin2(g, -a, -b, P, Q)
  {
    TimesNeg(g, a, P);
    TimesNeg(g, b, Q);
    GNegAdd(g, Times(g, a, P), Times(g, b, Q));
  }

  lemma Lin2Sub<G(!new)>(g: Group<G>, a: int, b: int, c: int, d: int, P: G, Q: G)
    requires AbelianGroup(g)
    ensures g.Sub(Lin2(g, a, b, P, Q), Lin2(g, c, d, P, Q)) == Lin2(g, a - c, b - d, P, Q)
  {
    Lin2Neg(g, c, d, P, Q);
    Lin2Add(g, a, b, -c, -d, P, Q);
  }

  lemma Lin2Scale<G(!new)>(g: Group<G>, k: int, a: int, b: int, P: G, Q: G)
    requires AbelianGroup(g)
    ensures Times(g, k, Lin2(g, a, b, P, Q)) == Lin2(g, k * a, k * b, P, Q)
  {
    TimesMul(g, k, a, P);
    TimesMul(g, k, b, Q);
    TimesSum(g, k, Times(g, a, P), Times(g, b, Q));
  }

  lemma Lin2Units<G(!new)>(g: Group<G>, P: G, Q: G)
    requires AbelianGroup(g)
    ensures Lin2(g, 1, 0, P, Q) == P && Lin2(g, 0, 1, P, Q) == Q
    ensures Lin2(g, 2, 0, P, Q) == g.Dbl(P) && Lin2(g, 0, 2, P, Q) == g.Dbl(Q)
  {
    TimesNone(g, P);
    TimesNone(g, Q);
    TimesOne(g, P);
    TimesOne(g, Q);
    GUnit(g, P);
    GUnit(g, g.Dbl(P));
    GUnit(g, Q);
    GUnit(g, g.Dbl(Q));
    GCommute(g, g.zero, Q);
    GCommute(g, g.zero, g.Dbl(Q));
  }

  lemma TimesZero<G(!new)>(g: Group<G>, k: int)
    requires AbelianGroup(g)
    ensures Times(g, k, g.zero) == g.zero
  {
    TimesMul(g, k, 0, g.zero);
    TimesNone(g, g.zero);
    assert k * 0 == 0;
  }

  // ---------- signed digits ----------

  ghost predicate Radix(b: int) { b == 2 || b == 4 || b == 16 }

  ghost predicate Odd(t: int) { t > 0 && t % 2 == 1 }

  /** One digit in radix b off the bottom of t: the last bits, made odd and signed. */
  method TakeDigit(t: int, b: int, ghost x: int) returns (d: int, r: int)
    requires Radix(b) && Odd(t) && t < 2 * (b * x)
    ensures d % 2 == 1 && -b < d < b
    ensures t == Prod(b, r) + d && Odd(r) && r < 2 * x
  {
    d := t % (2 * b) - b;
    r := t - d;
    r := r / b;
    ProdIs(b, r);
    if b == 2 { DigitInTwo(t, x); } else if b == 4 { DigitInFour(t, x); } else { DigitInSixteen(t, x); }
  }

  lemma DigitInTwo(t: int, x: int)
    requires Odd(t) && t < 4 * x
    ensures var d, r := t % 4 - 2, (t - (t % 4 - 2)) / 2;
      d % 2 == 1 && -2 < d < 2 && t == 2 * r + d && Odd(r) && r < 2 * x
  {
    var q := t / 4;
    assert t == 4 * q + t % 4;
    assert t - (t % 4 - 2) == 2 * (2 * q + 1);
  }

  lemma DigitInFour(t: int, x: int)
    requires Odd(t) && t < 8 * x
    ensures var d, r := t % 8 - 4, (t - (t % 8 - 4)) / 4;
      d % 2 == 1 && -4 < d < 4 && t == 4 * r + d && Odd(r) && r < 2 * x
  {
    var q := t / 8;
    assert t == 8 * q + t % 8;
    assert t - (t % 8 - 4) == 4 * (2 * q + 1);
  }

  lemma DigitInSixteen(t: int, x: int)
    requires Odd(t) && t < 32 * x
    ensures var d, r := t % 32 - 16, (t - (t % 32 - 16)) / 16;
      d % 2 == 1 && -16 < d < 16 && t == 16 * r + d && Odd(r) && r < 2 * x
  {
    var q := t / 32;
    assert t == 32 * q + t % 32;
    assert t - (t % 32 - 16) == 16 * (2 * q + 1);
  }

  /** ds are the digits of ts[0], whose remainders are in ts, down to 1. */
  ghost predicate Recoded(ds: seq<int>, ts: seq<int>, b: int) {
    && |ts| == |ds| + 1 && ts[|ds|] == 1
    && (forall i :: 0 <= i < |ds| ==> ds[i] % 2 == 1 && -b < ds[i] < b)
    && (forall i :: 0 <= i < |ds| ==> ts[i] == Prod(b, ts[i + 1]) + ds[i])
  }

  lemma {:induction false} BitLengthPow(v: nat)
    ensures v < Pow(2, Xtr.BitLength(v))
  {
    if v > 0 { BitLengthPow(v / 2); }
  }

  lemma {:induction false} BitLengthBound(v: nat, m: nat)
    requires v < Pow(2, m)
    ensures Xtr.BitLength(v) <= m
  {
    if v > 0 { BitLengthBound(v / 2, m - 1); }
  }

  lemma {:induction false} PowRadix(k: nat, n: nat)
    ensures Pow(Pow(2, k), n) == Pow(2, k * n)
  {
    if n > 0 {
      PowRadix(k, n - 1);
      PowAdd(2, k, k * (n - 1));
      assert k + k * (n - 1) == k * n;
    } else {
      assert k * n == 0;
    }
  }

  /** nb windows of k bits are enough for a number of at most k*nb bits. */
  lemma WindowsSuffice(t: int, m: nat, k: nat, nb: nat)
    requires 0 <= t <= m && Xtr.BitLength(m) <= k * nb
    ensures t < 2 * Pow(Pow(2, k), nb)
  {
    BitLengthPow(m);
    PowRadix(k, nb);
    PowMono(2, Xtr.BitLength(m), k * nb);
  }

  // ---------- the table ----------

  /** The multiple of the table's points that a digit stands for. */
  function Entry<G>(g: Group<G>, W: seq<G>, d: int): G
    requires |W| == 8 && -16 < d < 16 && d % 2 == 1
  {
    if d < 0 then g.neg(W[(-d - 1) / 2]) else W[(d - 1) / 2]
  }

  /** ECP_cmove; what the mask does to each limb is Words.Move. */
  function Cmove<G>(P: G, Q: G, d: int): G { if d == 1 then Q else P }

  /** ECP_select: sign and magnitude are split by bit tricks, the entry is picked by moves under teq, then negated. */
  method Select<G>(g: Group<G>, W: seq<G>, d: int, P: G) returns (Q: G)
    requires |W| == 8 && -16 < d < 16 && d % 2 == 1
    ensures Q == Entry(g, W, d)
  {
    var babs, sign := Words.Magnitude(d);
    babs := (babs - 1) / 2;
    Q := P;
    var i := 0;
    while i < 8
      invariant 0 <= i <= 8
      invariant i > babs ==> Q == W[babs]
    {
      var e := Words.Teq(babs, i);
      Q := Cmove(Q, W[i], e);
      i := i + 1;
    }
    var MP := g.neg(Q);
    Q := Cmove(Q, MP, sign);
  }

  /** k doublings. */
  method Doublings<G(!new)>(g: Group<G>, P: G, k: nat) returns (Q: G)
    requires AbelianGroup(g)
    ensures Q == Times(g, Pow(2, k), P)
  {
    Q := P;
    var i := 0;
    TimesOne(g, P);
    while i < k
      invariant 0 <= i <= k
      invariant Q == Times(g, Pow(2, i), P)
    {
      TimesAdd(g, Pow(2, i), Pow(2, i), P);
      Q := g.Dbl(Q);
      i := i + 1;
    }
  }

  /** The digits in w[..nb] run from entry to entry of vs. */
  ghost predicate Course<G(!new)>(g: Group<G>, W: seq<G>, w: seq<int>, vs: seq<G>, k: nat)
    requires |W| == 8
  {
    && 0 < |vs| <= |w|
    && (forall i :: 0 <= i < |vs| ==> -16 < w[i] < 16 && w[i] % 2 == 1)
    && 0 < w[|vs| - 1] && vs[|vs| - 1] == Entry(g, W, w[|vs| - 1])
    && (forall i :: 0 <= i < |vs| - 1 ==> vs[i] == g.add(Times(g, Pow(2, k), vs[i + 1]), Entry(g, W, w[i])))
  }

  /** The double-and-add loop, from the top digit down. */
  method Accumulate<G(!new)>(g: Group<G>, W: seq<G>, w: array<int>, nb: nat, k: nat, ghost vs: seq<G>) returns (P: G)
    requires AbelianGroup(g) && |W| == 8 && |vs| == nb + 1 && Course(g, W, w[..], vs, k)
    ensures P == vs[0]
  {
    P := W[(w[nb] - 1) / 2];
    var i := nb;
    while i > 0
      invariant 0 <= i <= nb
      invariant P == vs[i]
    {
      i := i - 1;
      var Q := Select(g, W, w[i], P);
      P := Doublings(g, P, k);
      P := g.add(P, Q);
    }
  }

  /** e made odd: 1 is added if e is even, 2 if it is odd; C is the same multiple of P. */
  method MakeOdd<G(!new)>(g: Group<G>, e: nat, P: G) returns (t: int, C: G)
    requires AbelianGroup(g)
    ensures Odd(t) && e < t <= e + 2 && C == Times(g, t - e, P)
  {
    var Q := g.Dbl(P);
    TimesOne(g, P);
    t := e;
    var s := t % 2;
    t := t + 1;
    var ns := t % 2;
    var mt := t + 1;
    if s == 1 { t := mt; }
    if ns == 1 { Q := P; }
    C := Q;
  }

  // ---------- ECP_mul and ECP2_mul ----------

  /** W[i] = (2i+1)*P */
  ghost predicate OddMultiples<G>(g: Group<G>, W: seq<G>, P: G) {
    |W| == 8 && forall i :: 0 <= i < 8 ==> W[i] == Times(g, 2 * i + 1, P)
  }

  method Multiples<G(!new)>(g: Group<G>, P: G) returns (W: seq<G>)
    requires AbelianGroup(g)
    ensures OddMultiples(g, W, P)
  {
    var Q := g.Dbl(P);
    TimesOne(g, P);
    W := [P];
    var i := 1;
    while i < 8
      invariant 1 <= i <= 8 && |W| == i
      invariant forall j :: 0 <= j < i ==> W[j] == Times(g, 2 * j + 1, P)
    {
      TimesAdd(g, 2 * i - 1, 2, P);
      W := W + [g.add(W[i - 1], Q)];
      i := i + 1;
    }
  }

  lemma EntryIsMultiple<G(!new)>(g: Group<G>, W: seq<G>, P: G, d: int)
    requires AbelianGroup(g) && OddMultiples(g, W, P) && -16 < d < 16 && d % 2 == 1
    ensures Entry(g, W, d) == Times(g, d, P)
  {
    TimesNeg(g, -d, P);
  }

  /** Signed 4-bit windows of t, from the bottom up. */
  method Windows(t: int, w: array<int>, nb: nat) returns (ghost ts: seq<int>)
    requires Odd(t) && nb < w.Length && t < 2 * Pow(16, nb)
    modifies w
    ensures Recoded(w[..nb], ts, 16) && |ts| == nb + 1 && ts[0] == t && w[nb] == 1
  {
    var r := t;
    var i := 0;
    ts := [t];
    while i < nb
      invariant 0 <= i <= nb && |ts| == i + 1 && ts[0] == t && ts[i] == r
      invariant Odd(r) && r < 2 * Pow(16, nb - i)
      invariant forall j :: 0 <= j < i ==> w[j] % 2 == 1 && -16 < w[j] < 16 && ts[j] == Prod(16, ts[j + 1]) + w[j]
    {
      var d;
      d, r := TakeDigit(r, 16, Pow(16, nb - i - 1));
      w[i] := d;
      ts := ts + [r];
      i := i + 1;
    }
    w[nb] := r % 32;
  }

  lemma WindowCourse<G(!new)>(g: Group<G>, W: seq<G>, P: G, w: seq<int>, ts: seq<int>, nb: nat) returns (vs: seq<G>)
    requires AbelianGroup(g) && OddMultiples(g, W, P) && nb < |w| && |ts| == nb + 1
    requires Recoded(w[..nb], ts, 16) && w[nb] == 1
    ensures |vs| == nb + 1 && Course(g, W, w, vs, 4) && vs[0] == Times(g, ts[0], P)
  {
    assert Pow(2, 4) == 16;
    EntryIsMultiple(g, W, P, 1);
    vs := seq(nb + 1, i requires 0 <= i <= nb => Times(g, ts[i], P));
    forall i | 0 <= i < nb
      ensures -16 < w[i] < 16 && w[i] % 2 == 1
      ensures vs[i] == g.add(Times(g, 16, vs[i + 1]), Entry(g, W, w[i]))
    {
      assert w[..nb][i] == w[i];
      WindowStep(g, W, P, ts[i], ts[i + 1], w[i]);
    }
  }

  lemma WindowStep<G(!new)>(g: Group<G>, W: seq<G>, P: G, r: int, s: int, d: int)
    requires AbelianGroup(g) && OddMultiples(g, W, P) && -16 < d < 16 && d % 2 == 1 && r == Prod(16, s) + d
    ensures Times(g, r, P) == g.add(Times(g, 16, Times(g, s, P)), Entry(g, W, d))
  {
    ProdIs(16, s);
    EntryIsMultiple(g, W, P, d);
    TimesMul(g, 16, s, P);
    TimesAdd(g, 16 * s, d, P);
  }

  /** 2^256: scalars have up to 8*MODBYTES bits. */
  const SCALAR_LIMIT: int := 0x1_0000000000000000_0000000000000000_0000000000000000_0000000000000000

  lemma LimitBits(t: nat, m: nat)
    requires t < SCALAR_LIMIT * m && (m == 2 || m == 4 || m == 8)
    ensures Xtr.BitLength(t) <= (if m == 2 then 257 else if m == 4 then 258 else 259)
  {
    LimitIsPower();
    PowAdd(2, 256, 1);
    PowAdd(2, 256, 2);
    PowAdd(2, 256, 3);
    assert Pow(2, 1) == 2 && Pow(2, 2) == 4 && Pow(2, 3) == 8;
    BitLengthBound(t, if m == 2 then 257 else if m == 4 then 258 else 259);
  }

  lemma LimitIsPower()
    ensures SCALAR_LIMIT == Pow(2, 256)
  {
    TwoTo256();
  }

  /** ECP_mul: e*P, for scalars of up to 8*MODBYTES bits. */
  method Mul<G(==,!new)>(g: Group<G>, P: G, e: nat) returns (R: G)
    requires AbelianGroup(g) && e < SCALAR_LIMIT
    ensures R == Times(g, e, P)
  {
    if P == g.zero {
      TimesZero(g, e);
      return P;
    }
    if e == 0 {
      TimesNone(g, P);
      return g.zero;
    }
    R := WindowMul(g, P, e);
  }

  /** ECP2_mul, and ECP_mul past its early exits. */
  method WindowMul<G(!new)>(g: Group<G>, P: G, e: nat) returns (R: G)
    requires AbelianGroup(g) && e < SCALAR_LIMIT
    ensures R == Times(g, e, P)
  {
    var t, C := MakeOdd(g, e, P);
    R := OddMul(g, P, t);
    TimesSub(g, t, t - e, P);
    R := g.Sub(R, C);
  }

  /** The table, the recoding and the loop, for an odd scalar; the digits fit the 67 entries of w. */
  method OddMul<G(!new)>(g: Group<G>, P: G, t: int) returns (R: G)
    requires AbelianGroup(g) && Odd(t) && t < SCALAR_LIMIT + 2
    ensures R == Times(g, t, P)
  {
    var W := Multiples(g, P);
    var w := new int[67];
    var nb := 1 + (Xtr.BitLength(t) + 3) / 4;
    LimitBits(t, 2);
    WindowFits(t, nb);
    ghost var ts := Windows(t, w, nb);
    ghost var vs := WindowCourse(g, W, P, w[..], ts, nb);
    R := Accumulate(g, W, w, nb, 4, vs);
  }

  lemma WindowFits(t: int, nb: nat)
    requires 0 < t && nb == 1 + (Xtr.BitLength(t) + 3) / 4
    ensures t < 2 * Pow(16, nb)
  {
    assert Pow(2, 4) == 16;
    WindowsSuffice(t, t, 4, nb);
  }

  // ---------- ECP_mul2 ----------

  /** The entry for 4a + b is a*P + b*Q. */
  ghost predicate PairTable<G>(g: Group<G>, W: seq<G>, P: G, Q: G) {
    && |W| == 8
    && W[0] == Lin2(g, 1, -3, P, Q) && W[1] == Lin2(g, 1, -1, P, Q)
    && W[2] == Lin2(g, 1, 1, P, Q) && W[3] == Lin2(g, 1, 3, P, Q)
    && W[4] == Lin2(g, 3, -3, P, Q) && W[5] == Lin2(g, 3, -1, P, Q)
    && W[6] == Lin2(g, 3, 1, P, Q) && W[7] == Lin2(g, 3, 3, P, Q)
  }

  /** The eight entries, in the order in which ECP_mul2 fills them. */
  method FillPairs<G(!new)>(g: Group<G>, P: G, Q: G) returns (W: seq<G>)
    requires AbelianGroup(g)
    ensures PairTable(g, W, P, Q)
  {
    Lin2Units(g, P, Q);
    var w1 := g.Sub(P, Q);
    Lin2Sub(g, 1, 0, 0, 1, P, Q);
    Lin2Add(g, 1, 0, 0, 1, P, Q);
    var w2 := g.add(P, Q);
    var S := g.Dbl(Q);
    var w0 := g.Sub(w1, S);
    Lin2Sub(g, 1, -1, 0, 2, P, Q);
    var w3 := g.add(w2, S);
    Lin2Add(g, 1, 1, 0, 2, P, Q);
    var T := g.Dbl(P);
    var w5 := g.add(w1, T);
    Lin2Add(g, 1, -1, 2, 0, P, Q);
    var w6 := g.add(w2, T);
    Lin2Add(g, 1, 1, 2, 0, P, Q);
    var w4 := g.Sub(w5, S);
    Lin2Sub(g, 3, -1, 0, 2, P, Q);
    var w7 := g.add(w6, S);
    Lin2Add(g, 3, 1, 0, 2, P, Q);
    W := [w0, w1, w2, w3, w4, w5, w6, w7];
  }

  lemma PairEntry<G(!new)>(g: Group<G>, W: seq<G>, P: G, Q: G, a: int, b: int)
    requires AbelianGroup(g) && PairTable(g, W, P, Q) && a % 2 == 1 && b % 2 == 1 && -4 < a < 4 && -4 < b < 4
    ensures -16 < 4 * a + b < 16 && (4 * a + b) % 2 == 1
    ensures Entry(g, W, 4 * a + b) == Lin2(g, a, b, P, Q)
  {
    Lin2Neg(g, -a, -b, P, Q);
  }

  /** Signed 2-bit windows of two numbers at once. */
  method PairWindows(te: int, tf: int, w: array<int>, nb: nat)
    returns (ghost ds: seq<int>, ghost es: seq<int>, ghost ts: seq<int>, ghost us: seq<int>)
    requires Odd(te) && Odd(tf) && nb < w.Length && te < 2 * Pow(4, nb) && tf < 2 * Pow(4, nb)
    modifies w
    ensures |ds| == |es| == nb && Recoded(ds, ts, 4) && Recoded(es, us, 4) && ts[0] == te && us[0] == tf
    ensures forall i :: 0 <= i < nb ==> w[i] == 4 * ds[i] + es[i]
    ensures w[nb] == 5
  {
    var r, s := te, tf;
    var i := 0;
    ds, es, ts, us := [], [], [te], [tf];
    while i < nb
      invariant 0 <= i <= nb && |ds| == |es| == i && |ts| == |us| == i + 1
      invariant ts[0] == te && us[0] == tf && ts[i] == r && us[i] == s
      invariant Odd(r) && r < 2 * Pow(4, nb - i) && Odd(s) && s < 2 * Pow(4, nb - i)
      invariant forall j :: 0 <= j < i ==> ds[j] % 2 == 1 && -4 < ds[j] < 4 && ts[j] == Prod(4, ts[j + 1]) + ds[j]
      invariant forall j :: 0 <= j < i ==> es[j] % 2 == 1 && -4 < es[j] < 4 && us[j] == Prod(4, us[j + 1]) + es[j]
      invariant forall j :: 0 <= j < i ==> w[j] == 4 * ds[j] + es[j]
    {
      var a, b;
      a, r := TakeDigit(r, 4, Pow(4, nb - i - 1));
      b, s := TakeDigit(s, 4, Pow(4, nb - i - 1));
      w[i] := 4 * a + b;
      ds, es, ts, us := ds + [a], es + [b], ts + [r], us + [s];
      i := i + 1;
    }
    w[nb] := 4 * (r % 8) + s % 8;
  }

  lemma PairStep<G(!new)>(g: Group<G>, W: seq<G>, P: G, Q: G, t: int, t': int, u: int, u': int, d: int, e: int)
    requires AbelianGroup(g) && PairTable(g, W, P, Q) && d % 2 == 1 && e % 2 == 1 && -4 < d < 4 && -4 < e < 4
    requires t == Prod(4, t') + d && u == Prod(4, u') + e
    ensures -16 < 4 * d + e < 16 && (4 * d + e) % 2 == 1
    ensures Lin2(g, t, u, P, Q) == g.add(Times(g, 4, Lin2(g, t', u', P, Q)), Entry(g, W, 4 * d + e))
  {
    ProdIs(4, t');
    ProdIs(4, u');
    PairEntry(g, W, P, Q, d, e);
    Lin2Scale(g, 4, t', u', P, Q);
    Lin2Add(g, 4 * t', 4 * u', d, e, P, Q);
  }

  lemma PairCourse<G(!new)>(g: Group<G>, W: seq<G>, P: G, Q: G, w: seq<int>, ds: seq<int>, es: seq<int>, ts: seq<int>, us: seq<int>, nb: nat)
    returns (vs: seq<G>)
    requires AbelianGroup(g) && PairTable(g, W, P, Q) && nb < |w|
    requires |ds| == |es| == nb && Recoded(ds, ts, 4) && Recoded(es, us, 4)
    requires (forall i :: 0 <= i < nb ==> w[i] == 4 * ds[i] + es[i]) && w[nb] == 5
    ensures |vs| == nb + 1 && Course(g, W, w, vs, 2) && vs[0] == Lin2(g, ts[0], us[0], P, Q)
  {
    assert Pow(2, 2) == 4;
    vs := seq(nb + 1, i requires 0 <= i <= nb => Lin2(g, ts[i], us[i], P, Q));
    forall i | 0 <= i < nb
      ensures -16 < w[i] < 16 && w[i] % 2 == 1
      ensures vs[i] == g.add(Times(g, 4, vs[i + 1]), Entry(g, W, w[i]))
    {
      PairStep(g, W, P, Q, ts[i], ts[i + 1], us[i], us[i + 1], ds[i], es[i]);
    }
  }

  /** ECP_mul2: e*P + f*Q. */
  method Mul2<G(!new)>(g: Group<G>, P: G, Q: G, e: nat, f: nat) returns (R: G)
    requires AbelianGroup(g) && e < SCALAR_LIMIT && f < SCALAR_LIMIT
    ensures R == Lin2(g, e, f, P, Q)
  {
    var te, C := MakeOdd(g, e, P);
    var tf, D := MakeOdd(g, f, Q);
    C := g.add(C, D);
    R := PairMul(g, P, Q, te, tf);
    Lin2Sub(g, te, tf, te - e, tf - f, P, Q);
    R := g.Sub(R, C);
  }

  /** The table, the recoding and the loop of ECP_mul2, for odd scalars; the digits fit the 132 entries
      of w. */
  method PairMul<G(!new)>(g: Group<G>, P: G, Q: G, te: int, tf: int) returns (R: G)
    requires AbelianGroup(g) && Odd(te) && Odd(tf)
    requires te < SCALAR_LIMIT + 2 && tf < SCALAR_LIMIT + 2
    ensures R == Lin2(g, te, tf, P, Q)
  {
    var W := FillPairs(g, P, Q);
    var mt := te + tf;
    var nb := 1 + (Xtr.BitLength(mt) + 1) / 2;
    var w := new int[132];
    PairFits(te, tf, nb);
    ghost var ds, es, ts, us := PairWindows(te, tf, w, nb);
    ghost var vs := PairCourse(g, W, P, Q, w[..], ds, es, ts, us, nb);
    R := Accumulate(g, W, w, nb, 2, vs);
  }

  lemma PairFits(te: int, tf: int, nb: nat)
    requires 0 < te < SCALAR_LIMIT + 2 && 0 < tf < SCALAR_LIMIT + 2 && nb == 1 + (Xtr.BitLength(te + tf) + 1) / 2
    ensures te < 2 * Pow(4, nb) && tf < 2 * Pow(4, nb) && nb < 132
  {
    LimitBits(te + tf, 4);
    assert Pow(2, 2) == 4;
    WindowsSuffice(te, te + tf, 2, nb);
    WindowsSuffice(tf, te + tf, 2, nb);
  }

  // ---------- ECP2_mul4 ----------

  /** The sum of four multiples. */
  ghost function Lin4<G>(g: Group<G>, a: int, b: int, c: int, d: int, Q: seq<G>): G
    requires |Q| == 4
  {
    g.add(Lin2(g, a, b, Q[0], Q[1]), Lin2(g, c, d, Q[2], Q[3]))
  }

  lemma Lin4Add<G(!new)>(g: Group<G>, a: int, b: int, c: int, d: int, a': int, b': int, c': int, d': int, Q: seq<G>)
    requires AbelianGroup(g) && |Q| == 4
    ensures g.add(Lin4(g, a, b, c, d, Q), Lin4(g, a', b', c', d', Q)) == Lin4(g, a + a', b + b', c + c', d + d', Q)
  {
    var x, y, x', y' := Lin2(g, a, b, Q[0], Q[1]), Lin2(g, c, d, Q[2], Q[3]), Lin2(g, a', b', Q[0], Q[1]), Lin2(g, c', d', Q[2], Q[3]);
    GInterchange(g, x, y, x', y');
    Lin2Add(g, a, b, a', b', Q[0], Q[1]);
    Lin2Add(g, c, d, c', d', Q[2], Q[3]);
  }

  lemma Lin4Neg<G(!new)>(g: Group<G>, a: int, b: int, c: int, d: int, Q: seq<G>)
    requires AbelianGroup(g) && |Q| == 4
    ensures g.neg(Lin4(g, a, b, c, d, Q)) == Lin4(g, -a, -b, -c, -d, Q)
  {
    GNegAdd(g, Lin2(g, a, b, Q[0], Q[1]), Lin2(g, c, d, Q[2], Q[3]));
    Lin2Neg(g, a, b, Q[0], Q[1]);
    Lin2Neg(g, c, d, Q[2], Q[3]);
  }

  lemma Lin4Scale<G(!new)>(g: Group<G>, k: int, a: int, b: int, c: int, d: int, Q: seq<G>)
    requires AbelianGroup(g) && |Q| == 4
    ensures Times(g, k, Lin4(g, a, b, c, d, Q)) == Lin4(g, k * a, k * b, k * c, k * d, Q)
  {
    TimesSum(g, k, Lin2(g, a, b, Q[0], Q[1]), Lin2(g, c, d, Q[2], Q[3]));
    Lin2Scale(g, k, a, b, Q[0], Q[1]);
    Lin2Scale(g, k, c, d, Q[2], Q[3]);
  }

  /** The entry for 8a + 4b + 2c + d is a*Q[0] + b*Q[1] + c*Q[2] + d*Q[3]. */
  ghost predicate QuadTable<G>(g: Group<G>, W: seq<G>, Q: seq<G>)
    requires |Q| == 4
  {
    && |W| == 8
    && W[0] == Lin4(g, 1, -1, -1, -1, Q) && W[1] == Lin4(g, 1, -1, -1, 1, Q)
    && W[2] == Lin4(g, 1, -1, 1, -1, Q) && W[3] == Lin4(g, 1, -1, 1, 1, Q)
    && W[4] == Lin4(g, 1, 1, -1, -1, Q) && W[5] == Lin4(g, 1, 1, -1, 1, Q)
    && W[6] == Lin4(g, 1, 1, 1, -1, Q) && W[7] == Lin4(g, 1, 1, 1, 1, Q)
  }

  method FillQuads<G(!new)>(g: Group<G>, Q: seq<G>) returns (W: seq<G>)
    requires AbelianGroup(g) && |Q| == 4
    ensures QuadTable(g, W, Q)
  {
    Lin2Units(g, Q[0], Q[1]);
    Lin2Units(g, Q[2], Q[3]);
    Lin2Sub(g, 1, 0, 0, 1, Q[0], Q[1]);
    Lin2Add(g, 1, 0, 0, 1, Q[0], Q[1]);
    Lin2Sub(g, 1, 0, 0, 1, Q[2], Q[3]);
    Lin2Add(g, 1, 0, 0, 1, Q[2], Q[3]);
    Lin2Neg(g, 1, -1, Q[2], Q[3]);
    Lin2Neg(g, 1, 1, Q[2], Q[3]);
    var m, p := g.Sub(Q[0], Q[1]), g.add(Q[0], Q[1]);
    var T := g.Sub(Q[2], Q[3]);
    var w1, w2, w5, w6 := g.Sub(m, T), g.add(m, T), g.Sub(p, T), g.add(p, T);
    T := g.add(Q[2], Q[3]);
    var w0, w3, w4, w7 := g.Sub(m, T), g.add(m, T), g.Sub(p, T), g.add(p, T);
    W := [w0, w1, w2, w3, w4, w5, w6, w7];
  }

  lemma QuadEntry<G(!new)>(g: Group<G>, W: seq<G>, Q: seq<G>, a: int, b: int, c: int, d: int)
    requires AbelianGroup(g) && |Q| == 4 && QuadTable(g, W, Q)
    requires (a == 1 || a == -1) && (b == 1 || b == -1) && (c == 1 || c == -1) && (d == 1 || d == -1)
    ensures -16 < 8 * a + 4 * b + 2 * c + d < 16 && (8 * a + 4 * b + 2 * c + d) % 2 == 1
    ensures Entry(g, W, 8 * a + 4 * b + 2 * c + d) == Lin4(g, a, b, c, d, Q)
  {
    Lin4Neg(g, -a, -b, -c, -d, Q);
  }

  ghost function Off(t: seq<int>, u: seq<nat>, i: nat): int { if i < |t| && i < |u| then t[i] - u[i] else 0 }

  /** What the scalars adjusted so far add to the sum. */
  ghost function Surplus<G>(g: Group<G>, Q: seq<G>, t: seq<int>, u: seq<nat>): G
    requires |Q| == 4
  {
    Lin4(g, Off(t, u, 0), Off(t, u, 1), Off(t, u, 2), Off(t, u, 3), Q)
  }

  lemma SurplusNext<G(!new)>(g: Group<G>, Q: seq<G>, t: seq<int>, u: seq<nat>, ti: int)
    requires AbelianGroup(g) && |Q| == |u| == 4 && |t| < 4 && u[|t|] <= ti <= u[|t|] + 1
    ensures Surplus(g, Q, t + [ti], u) == if ti == u[|t|] then Surplus(g, Q, t, u) else g.add(Surplus(g, Q, t, u), Q[|t|])
  {
    if ti != u[|t|] { QuadAddPoint(g, Q, Off(t, u, 0), Off(t, u, 1), Off(t, u, 2), |t|); }
  }

  ghost function SumOf(t: seq<int>): int { if |t| == 0 then 0 else SumOf(t[..|t| - 1]) + t[|t| - 1] }

  ghost predicate MadeOdd(t: seq<int>, u: seq<nat>) {
    |t| <= |u| && forall j :: 0 <= j < |t| ==> Odd(t[j]) && u[j] <= t[j] <= u[j] + 1
  }

  lemma MadeOddNext(t: seq<int>, u: seq<nat>, ti: int)
    requires MadeOdd(t, u) && |t| < |u| && Odd(ti) && u[|t|] <= ti <= u[|t|] + 1
    ensures MadeOdd(t + [ti], u) && SumOf(t + [ti]) == SumOf(t) + ti
  {
    assert (t + [ti])[..|t|] == t;
  }

  lemma SumOfFour(t: seq<int>)
    requires |t| == 4
    ensures SumOf(t) == t[0] + t[1] + t[2] + t[3]
  {
    assert t[..3][..2] == t[..2] && t[..2][..1] == t[..1];
    assert SumOf(t[..1]) == t[0] && SumOf(t[..2]) == SumOf(t[..1]) + t[1] && SumOf(t[..3]) == SumOf(t[..2]) + t[2];
  }

  lemma QuadMadeOdd<G>(g: Group<G>, Q: seq<G>, t: seq<int>, u: seq<nat>)
    requires |Q| == |t| == |u| == 4 && MadeOdd(t, u)
    ensures forall i :: 0 <= i < 4 ==> Odd(t[i]) && u[i] <= t[i] <= u[i] + 1 && t[i] <= SumOf(t)
    ensures SumOf(t) == t[0] + t[1] + t[2] + t[3]
    ensures Surplus(g, Q, t, u) == Lin4(g, t[0] - u[0], t[1] - u[1], t[2] - u[2], t[3] - u[3], Q)
  {
    SumOfFour(t);
  }

  method OddQuadTurn<G(!new)>(g: Group<G>, Q: seq<G>, u: seq<nat>, t: seq<int>, C: G, mt: int) returns (t': seq<int>, C': G, mt': int)
    requires AbelianGroup(g) && |Q| == |u| == 4 && |t| < 4 && MadeOdd(t, u) && C == Surplus(g, Q, t, u) && mt == SumOf(t)
    ensures |t'| == |t| + 1 && MadeOdd(t', u) && C' == Surplus(g, Q, t', u) && mt' == SumOf(t')
  {
    var i, ti := |t|, u[|t|];
    C' := C;
    if ti % 2 == 0 {
      ti := ti + 1;
      C' := g.add(C, Q[i]);
    }
    SurplusNext(g, Q, t, u, ti);
    MadeOddNext(t, u, ti);
    t', mt' := t + [ti], mt + ti;
  }

  /** Even scalars get 1 added, and their point goes into the correction. */
  method OddQuad<G(!new)>(g: Group<G>, Q: seq<G>, u: seq<nat>) returns (t: seq<int>, C: G, mt: nat)
    requires AbelianGroup(g) && |Q| == |u| == 4
    ensures |t| == 4 && (forall i :: 0 <= i < 4 ==> Odd(t[i]) && u[i] <= t[i] <= u[i] + 1 && t[i] <= mt)
    ensures mt == t[0] + t[1] + t[2] + t[3]
    ensures C == Lin4(g, t[0] - u[0], t[1] - u[1], t[2] - u[2], t[3] - u[3], Q)
  {
    t := [];
    C := g.zero;
    var sum := 0;
    QuadZero(g, Q);
    var i := 0;
    while i < 4
      invariant 0 <= i <= 4 && |t| == i && sum == SumOf(t)
      invariant MadeOdd(t, u) && C == Surplus(g, Q, t, u)
    {
      t, C, sum := OddQuadTurn(g, Q, u, t, C, sum);
      i := i + 1;
    }
    QuadMadeOdd(g, Q, t, u);
    mt := sum;
  }

  lemma QuadZero<G(!new)>(g: Group<G>, Q: seq<G>)
    requires AbelianGroup(g) && |Q| == 4
    ensures Lin4(g, 0, 0, 0, 0, Q) == g.zero
  {
    TimesNone(g, Q[0]);
    TimesNone(g, Q[1]);
    TimesNone(g, Q[2]);
    TimesNone(g, Q[3]);
    GUnit(g, g.zero);
  }

  lemma QuadAddPoint<G(!new)>(g: Group<G>, Q: seq<G>, a: int, b: int, c: int, i: nat)
    requires AbelianGroup(g) && |Q| == 4 && i < 4 && (i == 0 ==> a == 0) && (i <= 1 ==> b == 0) && (i <= 2 ==> c == 0)
    ensures g.add(Lin4(g, a, b, c, 0, Q), Q[i])
         == Lin4(g, if i == 0 then 1 else a, if i == 1 then 1 else b, if i == 2 then 1 else c, if i == 3 then 1 else 0, Q)
  {
    QuadUnit(g, Q, i);
    Lin4Add(g, a, b, c, 0, if i == 0 then 1 else 0, if i == 1 then 1 else 0, if i == 2 then 1 else 0, if i == 3 then 1 else 0, Q);
  }

  lemma QuadUnit<G(!new)>(g: Group<G>, Q: seq<G>, i: nat)
    requires AbelianGroup(g) && |Q| == 4 && i < 4
    ensures Lin4(g, if i == 0 then 1 else 0, if i == 1 then 1 else 0, if i == 2 then 1 else 0, if i == 3 then 1 else 0, Q) == Q[i]
  {
    Lin2Units(g, Q[0], Q[1]);
    Lin2Units(g, Q[2], Q[3]);
    TimesNone(g, Q[0]);
    TimesNone(g, Q[1]);
    TimesNone(g, Q[2]);
    TimesNone(g, Q[3]);
    GUnit(g, g.zero);
    GUnit(g, Q[i]);
    GCommute(g, g.zero, Q[i]);
  }

  /** Signed 1-bit windows of four numbers at once. */
  method QuadWindows(t: seq<int>, w: array<int>, nb: nat) returns (ghost ds: seq<seq<int>>, ghost ts: seq<seq<int>>)
    requires |t| == 4 && nb < w.Length && forall i :: 0 <= i < 4 ==> Odd(t[i]) && t[i] < 2 * Pow(2, nb)
    modifies w
    ensures |ds| == nb && |ts| == nb + 1 && ts[0] == t && ts[nb] == [1, 1, 1, 1] && w[nb] == 15
    ensures forall j :: 0 <= j <= nb ==> |ts[j]| == 4
    ensures forall j :: 0 <= j < nb ==> QuadDigits(ts[j], ts[j + 1], ds[j], w[j])
  {
    var r := t;
    var j := 0;
    ds, ts := [], [t];
    while j < nb
      invariant 0 <= j <= nb && |ds| == j && |ts| == j + 1 && ts[0] == t && ts[j] == r && |r| == 4
      invariant forall i :: 0 <= i < 4 ==> Odd(r[i]) && r[i] < 2 * Pow(2, nb - j)
      invariant forall k :: 0 <= k <= j ==> |ts[k]| == 4
      invariant forall k :: 0 <= k < j ==> QuadDigits(ts[k], ts[k + 1], ds[k], w[k])
    {
      ghost var x := Pow(2, nb - j - 1);
      var a0, r0 := TakeDigit(r[0], 2, x);
      var a1, r1 := TakeDigit(r[1], 2, x);
      var a2, r2 := TakeDigit(r[2], 2, x);
      var a3, r3 := TakeDigit(r[3], 2, x);
      w[j] := 8 * a0 + 4 * a1 + 2 * a2 + a3;
      r := [r0, r1, r2, r3];
      ds, ts := ds + [[a0, a1, a2, a3]], ts + [r];
      j := j + 1;
    }
    w[nb] := 8 * (r[0] % 4) + 4 * (r[1] % 4) + 2 * (r[2] % 4) + r[3] % 4;
    assert r == [1, 1, 1, 1];
  }

  /** One step of the four recodings: the digits are +1 or -1, and w packs them. */
  ghost predicate QuadDigits(t: seq<int>, t': seq<int>, d: seq<int>, w: int) {
    && |t| == |t'| == |d| == 4 && w == 8 * d[0] + 4 * d[1] + 2 * d[2] + d[3]
    && forall i :: 0 <= i < 4 ==> (d[i] == 1 || d[i] == -1) && t[i] == Prod(2, t'[i]) + d[i]
  }

  lemma QuadStep<G(!new)>(g: Group<G>, W: seq<G>, Q: seq<G>, t: seq<int>, t': seq<int>, d: seq<int>, w: int)
    requires AbelianGroup(g) && |Q| == 4 && QuadTable(g, W, Q) && QuadDigits(t, t', d, w)
    ensures -16 < w < 16 && w % 2 == 1
    ensures Lin4(g, t[0], t[1], t[2], t[3], Q) == g.add(Times(g, 2, Lin4(g, t'[0], t'[1], t'[2], t'[3], Q)), Entry(g, W, w))
  {
    forall i | 0 <= i < 4 ensures t[i] == 2 * t'[i] + d[i] { ProdIs(2, t'[i]); }
    QuadEntry(g, W, Q, d[0], d[1], d[2], d[3]);
    Lin4Scale(g, 2, t'[0], t'[1], t'[2], t'[3], Q);
    Lin4Add(g, 2 * t'[0], 2 * t'[1], 2 * t'[2], 2 * t'[3], d[0], d[1], d[2], d[3], Q);
  }

  lemma QuadCourse<G(!new)>(g: Group<G>, W: seq<G>, Q: seq<G>, w: seq<int>, ds: seq<seq<int>>, ts: seq<seq<int>>, nb: nat) returns (vs: seq<G>)
    requires AbelianGroup(g) && |Q| == 4 && QuadTable(g, W, Q) && nb < |w| && |ds| == nb && |ts| == nb + 1
    requires ts[nb] == [1, 1, 1, 1] && w[nb] == 15 && forall j :: 0 <= j <= nb ==> |ts[j]| == 4
    requires forall j :: 0 <= j < nb ==> QuadDigits(ts[j], ts[j + 1], ds[j], w[j])
    ensures |vs| == nb + 1 && Course(g, W, w, vs, 1) && vs[0] == Lin4(g, ts[0][0], ts[0][1], ts[0][2], ts[0][3], Q)
  {
    assert Pow(2, 1) == 2;
    vs := seq(nb + 1, i requires 0 <= i <= nb => QuadAt(g, ts[i], Q));
    forall i | 0 <= i < nb
      ensures -16 < w[i] < 16 && w[i] % 2 == 1
      ensures vs[i] == g.add(Times(g, 2, vs[i + 1]), Entry(g, W, w[i]))
    {
      QuadStep(g, W, Q, ts[i], ts[i + 1], ds[i], w[i]);
    }
  }

  ghost function QuadAt<G>(g: Group<G>, t: seq<int>, Q: seq<G>): G
    requires |t| == |Q| == 4
  {
    Lin4(g, t[0], t[1], t[2], t[3], Q)
  }

  lemma QuadUndo<G(!new)>(g: Group<G>, Q: seq<G>, t: seq<int>, u: seq<nat>)
    requires AbelianGroup(g) && |Q| == |t| == |u| == 4
    ensures g.Sub(Lin4(g, t[0], t[1], t[2], t[3], Q), Lin4(g, t[0] - u[0], t[1] - u[1], t[2] - u[2], t[3] - u[3], Q))
         == Lin4(g, u[0], u[1], u[2], u[3], Q)
  {
    var d0, d1, d2, d3 := t[0] - u[0], t[1] - u[1], t[2] - u[2], t[3] - u[3];
    Lin4Neg(g, d0, d1, d2, d3, Q);
    Lin4Add(g, t[0], t[1], t[2], t[3], -d0, -d1, -d2, -d3, Q);
  }

  /** ECP2_mul4 (and FP12_pow4 in multiplicative notation): the sum of the four multiples. */
  method Mul4<G(!new)>(g: Group<G>, Q: seq<G>, u: seq<nat>) returns (R: G)
    requires AbelianGroup(g) && |Q| == |u| == 4 && forall i :: 0 <= i < 4 ==> u[i] < SCALAR_LIMIT
    ensures R == Lin4(g, u[0], u[1], u[2], u[3], Q)
  {
    var t, C, mt := OddQuad(g, Q, u);
    QuadLimit(t, u, mt);
    R := QuadMul(g, Q, t, mt);
    QuadUndo(g, Q, t, u);
    R := g.Sub(R, C);
  }

  lemma QuadLimit(t: seq<int>, u: seq<nat>, mt: int)
    requires |t| == |u| == 4 && mt == t[0] + t[1] + t[2] + t[3]
    requires forall i :: 0 <= i < 4 ==> u[i] < SCALAR_LIMIT && t[i] <= u[i] + 1
    ensures mt < 8 * SCALAR_LIMIT
  {
    assert t[0] <= u[0] + 1 && t[1] <= u[1] + 1 && t[2] <= u[2] + 1 && t[3] <= u[3] + 1;
    assert u[0] < SCALAR_LIMIT && u[1] < SCALAR_LIMIT && u[2] < SCALAR_LIMIT && u[3] < SCALAR_LIMIT;
  }

  /** The table, the recoding and the loop of ECP2_mul4, for odd scalars; the digits fit the 262 entries
      of w. */
  method QuadMul<G(!new)>(g: Group<G>, Q: seq<G>, t: seq<int>, mt: nat) returns (R: G)
    requires AbelianGroup(g) && |Q| == 4 && |t| == 4 && mt < 8 * SCALAR_LIMIT
    requires forall i :: 0 <= i < 4 ==> Odd(t[i]) && t[i] <= mt
    ensures R == Lin4(g, t[0], t[1], t[2], t[3], Q)
  {
    var W := FillQuads(g, Q);
    var nb := 1 + Xtr.BitLength(mt);
    LimitBits(mt, 8);
    var w := new int[262];
    forall i | 0 <= i < 4 ensures t[i] < 2 * Pow(2, nb) {
      assert Pow(2, 1) == 2;
      WindowsSuffice(t[i], mt, 1, nb);
    }
    ghost var ds, ts := QuadWindows(t, w, nb);
    ghost var vs := QuadCourse(g, W, Q, w[..], ds, ts, nb);
    R := Accumulate(g, W, w, nb, 1, vs);
  }

  // ---------- ECP_pinmul ----------

  lemma LowBitsSplit(e: int, m: int)
    requires m > 0
    ensures e % (2 * m) == m * ((e / m) % 2) + e % m
  {
    var q := e / m;
    assert e == m * q + e % m;
    assert m * q == m * (2 * (q / 2) + q % 2);
    assert m * (2 * (q / 2) + q % 2) == (q / 2) * (2 * m) + m * (q % 2);
    MulMono(0, q % 2, m);
    MulMono(q % 2, 1, m);
    DivModUnique(e, 2 * m, q / 2, m * (q % 2) + e % m);
  }

  /** ECP_pinmul: a swapped ladder over exactly the low bts bits of e, in two's complement if e is negative. */
  method PinMul<G(!new)>(g: Group<G>, P: G, e: int, bts: nat) returns (R: G)
    requires AbelianGroup(g)
    ensures Pow(2, bts) > 0 && R == Times(g, e % Pow(2, bts), P)
  {
    var R0, R1 := g.zero, P;
    ghost var k := 0;
    TimesNone(g, P);
    TimesOne(g, P);
    PowPositive(2, bts);
    var i := bts;
    while i > 0
      invariant 0 <= i <= bts && Pow(2, i) > 0
      invariant R0 == Times(g, k, P) && R1 == Times(g, k + 1, P)
      invariant e % Pow(2, bts) == k * Pow(2, i) + e % Pow(2, i)
    {
      i := i - 1;
      PowPositive(2, i);
      var b := (e / Pow(2, i)) % 2;
      LowBitsSplit(e, Pow(2, i));
      ghost var m := Pow(2, i);
      assert k * (2 * m) + m * b == (2 * k + b) * m;
      TimesAdd(g, k, k, P);
      TimesAdd(g, k + 1, k, P);
      TimesAdd(g, k + 1, k + 1, P);
      var Q := g.add(R1, R0);
      if b == 1 { R0, R1 := R1, R0; }
      R1 := Q;
      R0 := g.Dbl(R0);
      if b == 1 { R0, R1 := R1, R0; }
      k := 2 * k + b;
    }
    R := R0;
  }
}
