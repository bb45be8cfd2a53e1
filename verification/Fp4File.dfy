/**
 * The FP4 operations that XTR uses (fp4.c) as programs on FP2 registers: no limb outgrows its chunk on the way, and the
 * results are those of the formulas over exact Gaussian integers.
 */
module Fp4File {
  import opened Fp2File
  import opened Limbs
  import opened Algebra
  import FpField
  import F4 = Fp4

  // ---------- the exact values ----------

  function GaussRing(): Ring<Gauss> {
    Ring(Gauss(0, 0), Gauss(1, 0), (x: Gauss, y: Gauss) => GAdd(x, y), (x: Gauss) => GNeg(x), (x: Gauss, y: Gauss) => GMul(x, y))
  }

  /** Both orders of a product of three, multiplied out. */
  lemma Expand(a: int, b: int, c: int, d: int, e: int, sign: int)
    requires sign == 1 || sign == -1
    ensures (a * b + sign * (c * d)) * e == a * (b * e) + sign * (c * (d * e))
    ensures e * (a * b + sign * (c * d)) == (e * a) * b + sign * ((e * c) * d)
  {
    assert (a * b) * e == a * (b * e) && (c * d) * e == c * (d * e);
    assert e * (a * b) == (e * a) * b && e * (c * d) == (e * c) * d;
  }

  lemma GaussAssociative(x: Gauss, y: Gauss, z: Gauss)
    ensures GMul(GMul(x, y), z) == GMul(x, GMul(y, z))
  {
    Expand(x.re, y.re, x.im, y.im, z.re, -1);
    Expand(x.re, y.im, x.im, y.re, z.im, 1);
    Expand(x.re, y.re, x.im, y.im, z.im, -1);
    Expand(x.re, y.im, x.im, y.re, z.re, 1);
    Expand(y.re, z.re, y.im, z.im, x.re, -1);
    Expand(y.re, z.im, y.im, z.re, x.im, 1);
    Expand(y.re, z.im, y.im, z.re, x.re, 1);
    Expand(y.re, z.re, y.im, z.im, x.im, -1);
    Regroup(x.re, y.re, z.re);
    Regroup(x.re, y.im, z.im);
    Regroup(x.im, y.re, z.im);
    Regroup(x.im, y.im, z.re);
    Regroup(x.re, y.re, z.im);
    Regroup(x.re, y.im, z.re);
    Regroup(x.im, y.re, z.re);
    Regroup(x.im, y.im, z.im);
  }

  lemma Regroup(a: int, b: int, c: int)
    ensures a * (b * c) == (a * b) * c
  {
  }

  lemma GaussDistributive(x: Gauss, y: Gauss, z: Gauss)
    ensures GMul(x, GAdd(y, z)) == GAdd(GMul(x, y), GMul(x, z))
  {
  }

  lemma GaussIsRing()
    ensures CommutativeRing(GaussRing())
  {
    var k := GaussRing();
    forall x: Gauss, y: Gauss, z: Gauss ensures
      k.mul(k.mul(x, y), z) == k.mul(x, k.mul(y, z)) && k.mul(x, k.add(y, z)) == k.add(k.mul(x, y), k.mul(x, z))
    {
      GaussAssociative(x, y, z);
      GaussDistributive(x, y, z);
    }
  }

  /** FP2 with 1 + sqrt(-1), by which FP2_mul_ip multiplies. */
  function Exact(): F4.Base<Gauss> { F4.Base(GaussRing(), Gauss(1, 1)) }

  lemma TurnIsIp(z: Gauss)
    ensures GAdd(z, GTurn(z)) == GMul(z, Gauss(1, 1))
  {
  }

  // ---------- programs ----------

  function MulI(w: nat, x: nat, y: nat): Instr2 { Instr2(Mul2, w, x, y) }
  function AddI(w: nat, x: nat, y: nat): Instr2 { Instr2(Add2, w, x, y) }
  function NegI(w: nat, x: nat): Instr2 { Instr2(Neg2, w, x, x) }
  function CopyI(w: nat, x: nat): Instr2 { Instr2(Copy2, w, x, x) }
  function NormI(x: nat): Instr2 { Instr2(Norm2, x, x, x) }
  function ReduceI(x: nat): Instr2 { Instr2(Reduce2, x, x, x) }
  function TurnI(x: nat): Instr2 { Instr2(Turn2, x, x, x) }

  /** The program p fits and takes v to u. */
  ghost predicate Goes(v: seq<Reg2>, p: seq<Instr2>, u: seq<Reg2>) { AllFit2(v, p) && Final2(v, p) == u }

  lemma {:induction false} GoesOn(v: seq<Reg2>, p: seq<Instr2>, u: seq<Reg2>, q: seq<Instr2>, t: seq<Reg2>)
    requires Goes(v, p, u) && Goes(u, q, t)
    ensures Goes(v, p + q, t)
    decreases |p|
  {
    if |p| == 0 {
      assert p + q == q;
    } else {
      GoesOn(After2(v, p[0]), p[1..], u, q, t);
      assert (p + q)[1..] == p[1..] + q;
    }
  }

  lemma One(v: seq<Reg2>, i: Instr2)
    requires Fits2(v, i)
    ensures Goes(v, [i], After2(v, i))
  {
    assert [i][1..] == [];
  }

  lemma Two(v: seq<Reg2>, i: Instr2, j: Instr2)
    requires Fits2(v, i) && Fits2(After2(v, i), j)
    ensures Goes(v, [i, j], After2(After2(v, i), j))
  {
    One(v, i);
    One(After2(v, i), j);
    GoesOn(v, [i], After2(v, i), [j], After2(After2(v, i), j));
    assert [i] + [j] == [i, j];
  }

  function Unit2(z: Gauss): Reg2 { Reg2(1, 1, z) }

  // FP2_mul_ip, with its local t
  function IpProg(w: nat, t: nat): seq<Instr2> { [NormI(w), CopyI(t, w)] + [TurnI(w), AddI(w, t, w)] + [NormI(w)] }

  lemma IpGoes(v: seq<Reg2>, w: nat, t: nat) returns (u: seq<Reg2>)
    requires w < |v| && t < |v| && w != t
    ensures Goes(v, IpProg(w, t), u) && u == v[t := Unit2(v[w].z)][w := Unit2(GMul(v[w].z, Gauss(1, 1)))]
  {
    var z := v[w].z;
    Two(v, NormI(w), CopyI(t, w));
    var a := After2(After2(v, NormI(w)), CopyI(t, w));
    assert a == v[t := Unit2(z)][w := Unit2(z)];
    Two(a, TurnI(w), AddI(w, t, w));
    var b := After2(After2(a, TurnI(w)), AddI(w, t, w));
    TurnIsIp(z);
    assert b == v[t := Unit2(z)][w := Reg2(2, 2, GMul(z, Gauss(1, 1)))];
    One(b, NormI(w));
    u := After2(b, NormI(w));
    GoesOn(v, [NormI(w), CopyI(t, w)], a, [TurnI(w), AddI(w, t, w)], b);
    GoesOn(v, [NormI(w), CopyI(t, w)] + [TurnI(w), AddI(w, t, w)], b, [NormI(w)], u);
  }

  // ---------- FP4_mul ----------

  /** x in 0 and 1, y there or in 2 and 3, the result on an operand or in 4 and 5; locals above. */
  predicate Places(y: nat, w: nat) { (y == 0 && w in {0, 4}) || (y == 2 && w in {0, 2, 4}) }

  ghost function Elem4(v: seq<Reg2>, s: nat): F4.Fp4<Gauss>
    requires s + 1 < |v|
  {
    F4.Fp4(v[s].z, v[s + 1].z)
  }

  function MulA(y: nat): seq<Instr2> { [MulI(6, 0, y), MulI(7, 1, y + 1)] + [AddI(8, y + 1, y), AddI(9, 1, 0)] }
  function MulB(w: nat): seq<Instr2> { [MulI(9, 9, 8), NegI(10, 6)] + [AddI(9, 9, 10), NormI(9)] + [NegI(10, 7), AddI(w + 1, 9, 10)] }
  function MulC(w: nat): seq<Instr2> { IpProg(7, 11) + [AddI(w, 7, 6)] + [NormI(w), NormI(w + 1)] }
  function MulProg(y: nat, w: nat): seq<Instr2> { MulA(y) + MulB(w) + MulC(w) }

  lemma MulSums(v: seq<Reg2>, y: nat) returns (u: seq<Reg2>)
    requires |v| == 12 && y in {0, 2}
    ensures Goes(v, MulA(y), u) && |u| == 12
    ensures u[6] == Unit2(GMul(v[0].z, v[y].z)) && u[7] == Unit2(GMul(v[1].z, v[y + 1].z))
    ensures u[8] == Reg2(2, 2, GAdd(v[y + 1].z, v[y].z)) && u[9] == Reg2(2, 2, GAdd(v[1].z, v[0].z))
  {
    Two(v, MulI(6, 0, y), MulI(7, 1, y + 1));
    var a := After2(After2(v, MulI(6, 0, y)), MulI(7, 1, y + 1));
    assert a[6] == Unit2(GMul(v[0].z, v[y].z)) && a[7] == Unit2(GMul(v[1].z, v[y + 1].z));
    assert a[0] == Unit2(v[0].z) && a[1] == Unit2(v[1].z) && a[y] == Unit2(v[y].z) && a[y + 1] == Unit2(v[y + 1].z);
    Two(a, AddI(8, y + 1, y), AddI(9, 1, 0));
    u := After2(After2(a, AddI(8, y + 1, y)), AddI(9, 1, 0));
    GoesOn(v, [MulI(6, 0, y), MulI(7, 1, y + 1)], a, [AddI(8, y + 1, y), AddI(9, 1, 0)], u);
  }

  lemma MulMiddle(v: seq<Reg2>, w: nat) returns (u: seq<Reg2>)
    requires |v| == 12 && w in {0, 2, 4} && v[6].da == v[6].db == v[7].da == v[7].db == 1
    ensures Goes(v, MulB(w), u) && |u| == 12 && u[6] == v[6] && u[7] == v[7]
    ensures u[w + 1] == Reg2(3, 3, GAdd(GAdd(GMul(v[9].z, v[8].z), GNeg(v[6].z)), GNeg(v[7].z)))
  {
    Two(v, MulI(9, 9, 8), NegI(10, 6));
    var a := After2(After2(v, MulI(9, 9, 8)), NegI(10, 6));
    Two(a, AddI(9, 9, 10), NormI(9));
    var b := After2(After2(a, AddI(9, 9, 10)), NormI(9));
    assert b[9] == Unit2(GAdd(GMul(v[9].z, v[8].z), GNeg(v[6].z))) && b[6] == v[6] && b[7] == v[7];
    Two(b, NegI(10, 7), AddI(w + 1, 9, 10));
    u := After2(After2(b, NegI(10, 7)), AddI(w + 1, 9, 10));
    GoesOn(v, [MulI(9, 9, 8), NegI(10, 6)], a, [AddI(9, 9, 10), NormI(9)], b);
    GoesOn(v, [MulI(9, 9, 8), NegI(10, 6)] + [AddI(9, 9, 10), NormI(9)], b, [NegI(10, 7), AddI(w + 1, 9, 10)], u);
  }

  lemma MulEnd(v: seq<Reg2>, w: nat) returns (u: seq<Reg2>)
    requires |v| == 12 && w in {0, 2, 4} && v[6].da == v[6].db == 1
    ensures Goes(v, MulC(w), u) && |u| == 12
    ensures u[w] == Unit2(GAdd(GMul(v[7].z, Gauss(1, 1)), v[6].z)) && u[w + 1] == Unit2(v[w + 1].z)
  {
    var a := IpGoes(v, 7, 11);
    One(a, AddI(w, 7, 6));
    var b := After2(a, AddI(w, 7, 6));
    Two(b, NormI(w), NormI(w + 1));
    u := After2(After2(b, NormI(w)), NormI(w + 1));
    GoesOn(v, IpProg(7, 11), a, [AddI(w, 7, 6)], b);
    GoesOn(v, IpProg(7, 11) + [AddI(w, 7, 6)], b, [NormI(w), NormI(w + 1)], u);
  }

  /** FP4_mul, for any lazily reduced operands and any place of the result. */
  lemma MulRuns(v: seq<Reg2>, y: nat, w: nat) returns (u: seq<Reg2>)
    requires |v| == 12 && Places(y, w)
    ensures Goes(v, MulProg(y, w), u) && |u| == 12
    ensures u[w] == Unit2(u[w].z) && u[w + 1] == Unit2(u[w + 1].z) && Elem4(u, w) == Exact().Mul(Elem4(v, 0), Elem4(v, y))
  {
    var a := MulSums(v, y);
    var b := MulMiddle(a, w);
    u := MulEnd(b, w);
    GoesOn(v, MulA(y), a, MulB(w), b);
    GoesOn(v, MulA(y) + MulB(w), b, MulC(w), u);
  }

  // ---------- FP4_sqr ----------

  function SqrA(): seq<Instr2> { [MulI(8, 0, 1), CopyI(7, 1)] + [AddI(6, 0, 1)] + IpProg(7, 11) }
  function SqrB(w: nat): seq<Instr2> { [AddI(7, 0, 7), MulI(w, 6, 7)] + [CopyI(7, 8)] + IpProg(7, 11) }
  function SqrC(w: nat): seq<Instr2> { [AddI(7, 7, 8), NegI(7, 7)] + [AddI(w, w, 7), AddI(w + 1, 8, 8)] + [NormI(w), NormI(w + 1)] }
  function SqrProg(w: nat): seq<Instr2> { SqrA() + SqrB(w) + SqrC(w) }

  /** What FP4_sqr leaves alone: all but the operands, the result and its locals. */
  ghost predicate SqrFrame(v: seq<Reg2>, u: seq<Reg2>) { |u| == |v| && forall i :: 0 <= i < |v| && i !in {0, 1, 4, 5, 6, 7, 8, 11} ==> u[i] == v[i] }

  lemma SqrStart(v: seq<Reg2>) returns (u: seq<Reg2>)
    requires |v| >= 12
    ensures Goes(v, SqrA(), u) && SqrFrame(v, u)
    ensures u[0] == Unit2(v[0].z) && u[8] == Unit2(GMul(v[0].z, v[1].z)) && u[6] == Reg2(2, 2, GAdd(v[0].z, v[1].z))
    ensures u[7] == Unit2(GMul(v[1].z, Gauss(1, 1)))
  {
    Two(v, MulI(8, 0, 1), CopyI(7, 1));
    var a := After2(After2(v, MulI(8, 0, 1)), CopyI(7, 1));
    One(a, AddI(6, 0, 1));
    var b := After2(a, AddI(6, 0, 1));
    u := IpGoes(b, 7, 11);
    GoesOn(v, [MulI(8, 0, 1), CopyI(7, 1)], a, [AddI(6, 0, 1)], b);
    GoesOn(v, [MulI(8, 0, 1), CopyI(7, 1)] + [AddI(6, 0, 1)], b, IpProg(7, 11), u);
  }

  lemma SqrMiddle(v: seq<Reg2>, w: nat) returns (u: seq<Reg2>)
    requires |v| >= 12 && w in {0, 4} && v[0].da == v[0].db == v[7].da == v[7].db == v[8].da == v[8].db == 1
    ensures Goes(v, SqrB(w), u) && SqrFrame(v, u)
    ensures u[8] == v[8] && u[7] == Unit2(GMul(v[8].z, Gauss(1, 1))) && u[w] == Unit2(GMul(v[6].z, GAdd(v[0].z, v[7].z)))
  {
    Two(v, AddI(7, 0, 7), MulI(w, 6, 7));
    var a := After2(After2(v, AddI(7, 0, 7)), MulI(w, 6, 7));
    One(a, CopyI(7, 8));
    var b := After2(a, CopyI(7, 8));
    u := IpGoes(b, 7, 11);
    GoesOn(v, [AddI(7, 0, 7), MulI(w, 6, 7)], a, [CopyI(7, 8)], b);
    GoesOn(v, [AddI(7, 0, 7), MulI(w, 6, 7)] + [CopyI(7, 8)], b, IpProg(7, 11), u);
  }

  lemma SqrEnd(v: seq<Reg2>, w: nat) returns (u: seq<Reg2>)
    requires |v| >= 12 && w in {0, 4} && v[w].da == v[w].db == v[7].da == v[7].db == v[8].da == v[8].db == 1
    ensures Goes(v, SqrC(w), u) && SqrFrame(v, u)
    ensures u[w] == Unit2(GAdd(v[w].z, GNeg(GAdd(v[7].z, v[8].z)))) && u[w + 1] == Unit2(GAdd(v[8].z, v[8].z))
  {
    Two(v, AddI(7, 7, 8), NegI(7, 7));
    var a := After2(After2(v, AddI(7, 7, 8)), NegI(7, 7));
    Two(a, AddI(w, w, 7), AddI(w + 1, 8, 8));
    var b := After2(After2(a, AddI(w, w, 7)), AddI(w + 1, 8, 8));
    Two(b, NormI(w), NormI(w + 1));
    u := After2(After2(b, NormI(w)), NormI(w + 1));
    GoesOn(v, [AddI(7, 7, 8), NegI(7, 7)], a, [AddI(w, w, 7), AddI(w + 1, 8, 8)], b);
    GoesOn(v, [AddI(7, 7, 8), NegI(7, 7)] + [AddI(w, w, 7), AddI(w + 1, 8, 8)], b, [NormI(w), NormI(w + 1)], u);
  }

  /** FP4_sqr, for any lazily reduced operand, also in place. */
  lemma SqrRuns(v: seq<Reg2>, w: nat) returns (u: seq<Reg2>)
    requires |v| >= 12 && w in {0, 4}
    ensures Goes(v, SqrProg(w), u) && SqrFrame(v, u)
    ensures u[w] == Unit2(u[w].z) && u[w + 1] == Unit2(u[w + 1].z) && Elem4(u, w) == Exact().Sqr(Elem4(v, 0))
  {
    var a := SqrStart(v);
    var b := SqrMiddle(a, w);
    u := SqrEnd(b, w);
    GoesOn(v, SqrA(), a, SqrB(w), b);
    GoesOn(v, SqrA() + SqrB(w), b, SqrC(w), u);
  }

  // ---------- FP4_neg and FP4_sub ----------

  /** Registers of a call of FP4_xtr_A or FP4_xtr_D: r in 0 and 1, arguments up to 9, locals up to 17. */
  const FRAME := 18

  // my = -y, in 14 and 15, with the locals m in 16 and t in 17
  function NegA(y: nat): seq<Instr2> { [AddI(16, y, y + 1), NegI(16, 16)] + [NormI(16)] }
  function NegB(y: nat): seq<Instr2> { [AddI(17, 16, y + 1), AddI(15, 16, y)] + [CopyI(14, 17)] }
  function SubProg(w: nat, x: nat, y: nat): seq<Instr2> { NegA(y) + NegB(y) + [AddI(w, x, 14), AddI(w + 1, x + 1, 15)] }

  /** Registers from 14 on are locals of the subtraction. */
  ghost predicate Below14(v: seq<Reg2>, u: seq<Reg2>) { |u| == |v| == FRAME && forall i :: 0 <= i < 14 ==> u[i] == v[i] }

  ghost predicate Degree(r: Reg2, d: int) { r.da == d && r.db == d }

  lemma NegStart(v: seq<Reg2>, y: nat) returns (u: seq<Reg2>)
    requires |v| == FRAME && y + 1 < 14 && v[y].da + v[y + 1].da <= NEXCESS && v[y].db + v[y + 1].db <= NEXCESS
    ensures Goes(v, NegA(y), u) && Below14(v, u) && u[16] == Unit2(GNeg(GAdd(v[y].z, v[y + 1].z)))
  {
    Two(v, AddI(16, y, y + 1), NegI(16, 16));
    var a := After2(After2(v, AddI(16, y, y + 1)), NegI(16, 16));
    One(a, NormI(16));
    u := After2(a, NormI(16));
    GoesOn(v, [AddI(16, y, y + 1), NegI(16, 16)], a, [NormI(16)], u);
  }

  lemma NegEnd(v: seq<Reg2>, y: nat, d: int) returns (u: seq<Reg2>)
    requires |v| == FRAME && y + 1 < 14 && Degree(v[y], d) && Degree(v[y + 1], d) && 1 <= d && d + 1 <= NEXCESS && Degree(v[16], 1)
    ensures Goes(v, NegB(y), u) && Below14(v, u)
    ensures u[14] == Reg2(1 + d, 1 + d, GAdd(v[16].z, v[y + 1].z)) && u[15] == Reg2(1 + d, 1 + d, GAdd(v[16].z, v[y].z))
  {
    Two(v, AddI(17, 16, y + 1), AddI(15, 16, y));
    var a := After2(After2(v, AddI(17, 16, y + 1)), AddI(15, 16, y));
    One(a, CopyI(14, 17));
    u := After2(a, CopyI(14, 17));
    GoesOn(v, [AddI(17, 16, y + 1), AddI(15, 16, y)], a, [CopyI(14, 17)], u);
  }

  /** FP4_sub: the degrees of the subtrahend count twice in the sum of its halves, and once more, plus one, in the result. */
  lemma SubRuns(v: seq<Reg2>, w: nat, x: nat, y: nat, d: int, e: int) returns (u: seq<Reg2>)
    requires |v| == FRAME && w + 1 < 14 && x + 1 < 14 && y + 1 < 14 && x % 2 == w % 2 == 0
    requires Degree(v[x], e) && Degree(v[x + 1], e) && Degree(v[y], d) && Degree(v[y + 1], d)
    requires 1 <= d && 2 * d <= NEXCESS && 1 <= e && e + 1 + d <= NEXCESS
    ensures Goes(v, SubProg(w, x, y), u) && |u| == FRAME && (forall i :: 0 <= i < 14 && i != w && i != w + 1 ==> u[i] == v[i])
    ensures Degree(u[w], e + 1 + d) && Degree(u[w + 1], e + 1 + d) && Elem4(u, w) == Exact().Sub(Elem4(v, x), Elem4(v, y))
  {
    var a := NegStart(v, y);
    var b := NegEnd(a, y, d);
    Two(b, AddI(w, x, 14), AddI(w + 1, x + 1, 15));
    u := After2(After2(b, AddI(w, x, 14)), AddI(w + 1, x + 1, 15));
    GoesOn(v, NegA(y), a, NegB(y), b);
    GoesOn(v, NegA(y) + NegB(y), b, [AddI(w, x, 14), AddI(w + 1, x + 1, 15)], u);
  }

  // ---------- FP4_xtr_D ----------

  // r in 0 and 1, x there or in 4 and 5, the local w in 2 and 3
  function ConjProg(x: nat): seq<Instr2> { [CopyI(0, x), CopyI(1, x + 1)] + [CopyI(2, 0), NegI(3, 1)] + [NormI(3)] + [AddI(2, 2, 2), AddI(3, 3, 3)] }
  function XtrDProg(x: nat): seq<Instr2> { ConjProg(x) + SqrProg(0) + SubProg(0, 0, 2) + [ReduceI(0), ReduceI(1)] }

  lemma ConjRuns(v: seq<Reg2>, x: nat) returns (u: seq<Reg2>)
    requires |v| == FRAME && x in {0, 4} && Degree(v[x], 1) && Degree(v[x + 1], 1)
    ensures Goes(v, ConjProg(x), u) && |u| == FRAME && Elem4(u, 0) == Elem4(v, x) && Degree(u[2], 2) && Degree(u[3], 2)
    ensures Elem4(u, 2) == Exact().Add(Exact().Conj(Elem4(v, x)), Exact().Conj(Elem4(v, x)))
  {
    Two(v, CopyI(0, x), CopyI(1, x + 1));
    var a := After2(After2(v, CopyI(0, x)), CopyI(1, x + 1));
    Two(a, CopyI(2, 0), NegI(3, 1));
    var b := After2(After2(a, CopyI(2, 0)), NegI(3, 1));
    One(b, NormI(3));
    var c := After2(b, NormI(3));
    assert c[2] == v[x] && c[3] == Unit2(GNeg(v[x + 1].z)) && c[0] == v[x] && c[1].z == v[x + 1].z;
    Two(c, AddI(2, 2, 2), AddI(3, 3, 3));
    u := After2(After2(c, AddI(2, 2, 2)), AddI(3, 3, 3));
    GoesOn(v, [CopyI(0, x), CopyI(1, x + 1)], a, [CopyI(2, 0), NegI(3, 1)], b);
    GoesOn(v, [CopyI(0, x), CopyI(1, x + 1)] + [CopyI(2, 0), NegI(3, 1)], b, [NormI(3)], c);
    GoesOn(v, [CopyI(0, x), CopyI(1, x + 1)] + [CopyI(2, 0), NegI(3, 1)] + [NormI(3)], c, [AddI(2, 2, 2), AddI(3, 3, 3)], u);
  }

  /** FP4_xtr_D on a normalised element, also in place: sums reach exactly the largest degree that a chunk can hold, and
      the result is normalised again. */
  lemma XtrDRuns(v: seq<Reg2>, x: nat) returns (u: seq<Reg2>)
    requires |v| == FRAME && x in {0, 4} && Degree(v[x], 1) && Degree(v[x + 1], 1)
    ensures Goes(v, XtrDProg(x), u) && |u| == FRAME
    ensures Degree(u[0], 1) && Degree(u[1], 1) && Elem4(u, 0) == Exact().XtrD(Elem4(v, x))
  {
    var a := ConjRuns(v, x);
    var b := SqrRuns(a, 0);
    var c := SubRuns(b, 0, 0, 2, 2, 1);
    Two(c, ReduceI(0), ReduceI(1));
    u := After2(After2(c, ReduceI(0)), ReduceI(1));
    GoesOn(v, ConjProg(x), a, SqrProg(0), b);
    GoesOn(v, ConjProg(x) + SqrProg(0), b, SubProg(0, 0, 2), c);
    GoesOn(v, ConjProg(x) + SqrProg(0) + SubProg(0, 0, 2), c, [ReduceI(0), ReduceI(1)], u);
  }

  // ---------- FP4_xtr_A ----------

  // r in 0 and 1, w in 2 and 3, x there where r is or in 4 and 5, y in 6 and 7, z in 8 and 9, t1 in 10 and 11, t2 in 12 and 13
  function TimesIProg(): seq<Instr2> {
    [NormI(12), NormI(13)] + [CopyI(17, 13), CopyI(16, 17)] + [TurnI(16), AddI(17, 17, 16)] + [NormI(17), CopyI(13, 12)] + [CopyI(12, 17)]
  }
  function FirstProg(x: nat): seq<Instr2> { [CopyI(0, x), CopyI(1, x + 1)] + SubProg(10, 2, 6) + [MulI(10, 10, 0), MulI(11, 11, 0)] }
  function SecondProg(): seq<Instr2> { [AddI(12, 2, 6), AddI(13, 3, 7)] + [MulI(12, 12, 1), MulI(13, 13, 1)] + TimesIProg() }
  function JoinProg(): seq<Instr2> { [AddI(0, 10, 12), AddI(1, 11, 13)] + [AddI(0, 0, 8), AddI(1, 1, 9)] + [NormI(0), NormI(1)] }
  function XtrAProg(x: nat): seq<Instr2> { FirstProg(x) + SecondProg() + JoinProg() }

  lemma TimesIStart(v: seq<Reg2>) returns (u: seq<Reg2>)
    requires |v| == FRAME
    ensures Goes(v, [NormI(12), NormI(13)] + [CopyI(17, 13), CopyI(16, 17)] + [TurnI(16), AddI(17, 17, 16)], u)
    ensures |u| == FRAME && (forall i :: 0 <= i < 12 ==> u[i] == v[i])
    ensures u[12] == Unit2(v[12].z) && Degree(u[17], 2) && u[17].z == GMul(v[13].z, Gauss(1, 1))
  {
    Two(v, NormI(12), NormI(13));
    var a := After2(After2(v, NormI(12)), NormI(13));
    Two(a, CopyI(17, 13), CopyI(16, 17));
    var b := After2(After2(a, CopyI(17, 13)), CopyI(16, 17));
    assert b[16] == b[17] == Unit2(v[13].z) && b[12] == Unit2(v[12].z);
    Two(b, TurnI(16), AddI(17, 17, 16));
    u := After2(After2(b, TurnI(16)), AddI(17, 17, 16));
    TurnIsIp(v[13].z);
    GoesOn(v, [NormI(12), NormI(13)], a, [CopyI(17, 13), CopyI(16, 17)], b);
    GoesOn(v, [NormI(12), NormI(13)] + [CopyI(17, 13), CopyI(16, 17)], b, [TurnI(16), AddI(17, 17, 16)], u);
  }

  lemma TimesIEnd(v: seq<Reg2>) returns (u: seq<Reg2>)
    requires |v| == FRAME && Degree(v[12], 1)
    ensures Goes(v, [NormI(17), CopyI(13, 12)] + [CopyI(12, 17)], u) && |u| == FRAME && (forall i :: 0 <= i < 12 ==> u[i] == v[i])
    ensures u[12] == Unit2(v[17].z) && u[13] == v[12]
  {
    Two(v, NormI(17), CopyI(13, 12));
    var b := After2(After2(v, NormI(17)), CopyI(13, 12));
    One(b, CopyI(12, 17));
    u := After2(b, CopyI(12, 17));
    GoesOn(v, [NormI(17), CopyI(13, 12)], b, [CopyI(12, 17)], u);
  }

  lemma TimesIRuns(v: seq<Reg2>) returns (u: seq<Reg2>)
    requires |v| == FRAME
    ensures Goes(v, TimesIProg(), u) && |u| == FRAME && (forall i :: 0 <= i < 12 ==> u[i] == v[i])
    ensures Degree(u[12], 1) && Degree(u[13], 1) && Elem4(u, 12) == Exact().TimesI(Elem4(v, 12))
  {
    var p := [NormI(12), NormI(13)] + [CopyI(17, 13), CopyI(16, 17)] + [TurnI(16), AddI(17, 17, 16)];
    var q := [NormI(17), CopyI(13, 12)] + [CopyI(12, 17)];
    var a := TimesIStart(v);
    u := TimesIEnd(a);
    GoesOn(v, p, a, q, u);
    assert p + q == TimesIProg();
  }

  /** The arguments of FP4_xtr_A other than x are normalised. */
  ghost predicate Ready(v: seq<Reg2>) {
    && |v| == FRAME && Degree(v[2], 1) && Degree(v[3], 1) && Degree(v[6], 1) && Degree(v[7], 1) && Degree(v[8], 1) && Degree(v[9], 1)
  }

  lemma PmulRuns(v: seq<Reg2>, t: nat, s: nat) returns (u: seq<Reg2>)
    requires |v| == FRAME && t in {10, 12} && s in {0, 1}
    ensures Goes(v, [MulI(t, t, s), MulI(t + 1, t + 1, s)], u) && |u| == FRAME
    ensures u[s] == Unit2(v[s].z) && (forall i :: 0 <= i < 14 && i != s && i != t && i != t + 1 ==> u[i] == v[i])
    ensures u[t] == Unit2(GMul(v[t].z, v[s].z)) && u[t + 1] == Unit2(GMul(v[t + 1].z, v[s].z))
  {
    Two(v, MulI(t, t, s), MulI(t + 1, t + 1, s));
    u := After2(After2(v, MulI(t, t, s)), MulI(t + 1, t + 1, s));
  }

  lemma CopyRuns(v: seq<Reg2>, x: nat) returns (u: seq<Reg2>)
    requires |v| == FRAME && x in {0, 4}
    ensures Goes(v, [CopyI(0, x), CopyI(1, x + 1)], u) && |u| == FRAME
    ensures u[0] == v[x] && u[1] == v[x + 1] && (forall i :: 2 <= i < FRAME ==> u[i] == v[i])
  {
    Two(v, CopyI(0, x), CopyI(1, x + 1));
    u := After2(After2(v, CopyI(0, x)), CopyI(1, x + 1));
  }

  lemma FirstRuns(v: seq<Reg2>, x: nat) returns (u: seq<Reg2>)
    requires Ready(v) && x in {0, 4}
    ensures Goes(v, FirstProg(x), u) && Ready(u) && (forall i :: 2 <= i < 10 ==> u[i] == v[i]) && u[0].z == v[x].z && u[1].z == v[x + 1].z
    ensures Degree(u[10], 1) && Degree(u[11], 1) && Elem4(u, 10) == Exact().Pmul(Exact().Sub(Elem4(v, 2), Elem4(v, 6)), v[x].z)
  {
    var a := CopyRuns(v, x);
    var b := SubRuns(a, 10, 2, 6, 1, 1);
    u := PmulRuns(b, 10, 0);
    GoesOn(v, [CopyI(0, x), CopyI(1, x + 1)], a, SubProg(10, 2, 6), b);
    GoesOn(v, [CopyI(0, x), CopyI(1, x + 1)] + SubProg(10, 2, 6), b, [MulI(10, 10, 0), MulI(11, 11, 0)], u);
  }

  lemma SumRuns(v: seq<Reg2>) returns (u: seq<Reg2>)
    requires Ready(v)
    ensures Goes(v, [AddI(12, 2, 6), AddI(13, 3, 7)], u) && |u| == FRAME && (forall i :: 0 <= i < 12 ==> u[i] == v[i])
    ensures Elem4(u, 12) == Exact().Add(Elem4(v, 2), Elem4(v, 6))
  {
    Two(v, AddI(12, 2, 6), AddI(13, 3, 7));
    u := After2(After2(v, AddI(12, 2, 6)), AddI(13, 3, 7));
  }

  lemma SecondRuns(v: seq<Reg2>) returns (u: seq<Reg2>)
    requires Ready(v)
    ensures Goes(v, SecondProg(), u) && Ready(u) && u[8] == v[8] && u[9] == v[9] && u[10] == v[10] && u[11] == v[11]
    ensures Degree(u[12], 1) && Degree(u[13], 1) && Elem4(u, 12) == Exact().TimesI(Exact().Pmul(Exact().Add(Elem4(v, 2), Elem4(v, 6)), v[1].z))
  {
    var a := SumRuns(v);
    var b := PmulRuns(a, 12, 1);
    u := TimesIRuns(b);
    GoesOn(v, [AddI(12, 2, 6), AddI(13, 3, 7)], a, [MulI(12, 12, 1), MulI(13, 13, 1)], b);
    GoesOn(v, [AddI(12, 2, 6), AddI(13, 3, 7)] + [MulI(12, 12, 1), MulI(13, 13, 1)], b, TimesIProg(), u);
  }

  lemma JoinRuns(v: seq<Reg2>) returns (u: seq<Reg2>)
    requires Ready(v) && Degree(v[10], 1) && Degree(v[11], 1) && Degree(v[12], 1) && Degree(v[13], 1)
    ensures Goes(v, JoinProg(), u) && |u| == FRAME && Degree(u[0], 1) && Degree(u[1], 1)
    ensures Elem4(u, 0) == Exact().Add(Exact().Add(Elem4(v, 10), Elem4(v, 12)), Elem4(v, 8))
  {
    Two(v, AddI(0, 10, 12), AddI(1, 11, 13));
    var a := After2(After2(v, AddI(0, 10, 12)), AddI(1, 11, 13));
    Two(a, AddI(0, 0, 8), AddI(1, 1, 9));
    var b := After2(After2(a, AddI(0, 0, 8)), AddI(1, 1, 9));
    Two(b, NormI(0), NormI(1));
    u := After2(After2(b, NormI(0)), NormI(1));
    GoesOn(v, [AddI(0, 10, 12), AddI(1, 11, 13)], a, [AddI(0, 0, 8), AddI(1, 1, 9)], b);
    GoesOn(v, [AddI(0, 10, 12), AddI(1, 11, 13)] + [AddI(0, 0, 8), AddI(1, 1, 9)], b, [NormI(0), NormI(1)], u);
  }

  /** FP4_xtr_A on normalised elements, also with r on x: the result is normalised again. */
  lemma XtrARuns(v: seq<Reg2>, x: nat) returns (u: seq<Reg2>)
    requires Ready(v) && x in {0, 4}
    ensures Goes(v, XtrAProg(x), u) && |u| == FRAME && Degree(u[0], 1) && Degree(u[1], 1)
    ensures Elem4(u, 0) == Exact().XtrA(Elem4(v, 2), Elem4(v, x), Elem4(v, 6), Elem4(v, 8))
  {
    var a := FirstRuns(v, x);
    var b := SecondRuns(a);
    u := JoinRuns(b);
    GoesOn(v, FirstProg(x), a, SecondProg(), b);
    GoesOn(v, FirstProg(x) + SecondProg(), b, JoinProg(), u);
  }

  // ---------- on limb arrays ----------

  /** The FP4 element in FP2 registers s and s+1 of a file, and that both are normalised. */
  ghost function ElemAt(g: seq<FpField.Reg>, m: nat, s: nat): F4.Fp4<Gauss>
    requires |g| == 2 * m + 8 && s + 1 < m
  {
    Elem4(View(g, m), s)
  }

  ghost predicate NormalAt(g: seq<FpField.Reg>, m: nat, s: nat)
    requires |g| == 2 * m + 8 && s + 1 < m
  {
    Degree(View(g, m)[s], 1) && Degree(View(g, m)[s + 1], 1)
  }

  /** FP4_mul: the product, for any lazily reduced operands. */
  method Multiply(regs: seq<array<int>>, y: nat, w: nat, ghost g: seq<FpField.Reg>) returns (ghost h: seq<FpField.Reg>)
    requires FpField.File(regs, g) && Layout2(g, 12) && Places(y, w)
    modifies regs
    ensures FpField.File(regs, h) && Layout2(h, 12) && NormalAt(h, 12, w)
    ensures ElemAt(h, 12, w) == Exact().MulSpec(ElemAt(g, 12, 0), ElemAt(g, 12, y))
  {
    ghost var u := MulRuns(View(g, 12), y, w);
    h := Execute2(MulProg(y, w), regs, 12, g);
    GaussIsRing();
    F4.MulCorrect(Exact(), ElemAt(g, 12, 0), ElemAt(g, 12, y));
  }

  /** FP4_sqr: the square, for any lazily reduced operand. */
  method Square(regs: seq<array<int>>, w: nat, ghost g: seq<FpField.Reg>) returns (ghost h: seq<FpField.Reg>)
    requires FpField.File(regs, g) && Layout2(g, 12) && w in {0, 4}
    modifies regs
    ensures FpField.File(regs, h) && Layout2(h, 12) && NormalAt(h, 12, w)
    ensures ElemAt(h, 12, w) == Exact().MulSpec(ElemAt(g, 12, 0), ElemAt(g, 12, 0))
  {
    ghost var u := SqrRuns(View(g, 12), w);
    h := Execute2(SqrProg(w), regs, 12, g);
    GaussIsRing();
    F4.SqrCorrect(Exact(), ElemAt(g, 12, 0));
  }

  /** FP4_xtr_A: x*w - conj(x)*y + z, normalised like its arguments. */
  method XtrA(regs: seq<array<int>>, x: nat, ghost g: seq<FpField.Reg>) returns (ghost h: seq<FpField.Reg>)
    requires FpField.File(regs, g) && Layout2(g, FRAME) && x in {0, 4}
    requires NormalAt(g, FRAME, 2) && NormalAt(g, FRAME, 6) && NormalAt(g, FRAME, 8)
    modifies regs
    ensures FpField.File(regs, h) && Layout2(h, FRAME) && NormalAt(h, FRAME, 0)
    ensures var f, w, y, z := Exact(), ElemAt(g, FRAME, 2), ElemAt(g, FRAME, 6), ElemAt(g, FRAME, 8);
      ElemAt(h, FRAME, 0) == f.Add(f.SubSpec(f.MulSpec(ElemAt(g, FRAME, x), w), f.MulSpec(f.Conj(ElemAt(g, FRAME, x)), y)), z)
  {
    ghost var u := XtrARuns(View(g, FRAME), x);
    h := Execute2(XtrAProg(x), regs, FRAME, g);
    GaussIsRing();
    F4.XtrACorrect(Exact(), ElemAt(g, FRAME, 2), ElemAt(g, FRAME, x), ElemAt(g, FRAME, 6), ElemAt(g, FRAME, 8));
  }

  /** FP4_xtr_D: x*x - 2*conj(x), normalised like its argument. */
  method XtrD(regs: seq<array<int>>, x: nat, ghost g: seq<FpField.Reg>) returns (ghost h: seq<FpField.Reg>)
    requires FpField.File(regs, g) && Layout2(g, FRAME) && x in {0, 4} && NormalAt(g, FRAME, x)
    modifies regs
    ensures FpField.File(regs, h) && Layout2(h, FRAME) && NormalAt(h, FRAME, 0)
    ensures var f, e := Exact(), ElemAt(g, FRAME, x); ElemAt(h, FRAME, 0) == f.SubSpec(f.MulSpec(e, e), f.Add(f.Conj(e), f.Conj(e)))
  {
    ghost var u := XtrDRuns(View(g, FRAME), x);
    h := Execute2(XtrDProg(x), regs, FRAME, g);
    GaussIsRing();
    F4.XtrDCorrect(Exact(), ElemAt(g, FRAME, x));
  }
}
