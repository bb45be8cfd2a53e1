/** FP2 elements a + i*b with i*i = -1 (fp2.c), as chains of field operations on registers: the results are those of
    complex arithmetic for any lazily reduced operands, also when the destination is an operand. */
module Fp2 {
  import opened FpField
  import opened Limbs

  /** The chain p fits and takes g to h. */
  ghost predicate Goes(g: seq<Reg>, p: seq<Instr>, h: seq<Reg>) { AllFit(g, p) && Final(g, p) == h }

  lemma {:induction false} GoesOn(g: seq<Reg>, p: seq<Instr>, h: seq<Reg>, q: seq<Instr>, k: seq<Reg>)
    requires Goes(g, p, h) && Goes(h, q, k)
    ensures Goes(g, p + q, k)
    decreases |p|
  {
    if |p| == 0 {
      assert p + q == q;
    } else {
      GoesOn(After(g, p[0]), p[1..], h, q, k);
      assert (p + q)[1..] == p[1..] + q;
    }
  }

  lemma Two(g: seq<Reg>, i: Instr, j: Instr)
    requires Fits(g, i) && Fits(After(g, i), j)
    ensures Goes(g, [i, j], After(After(g, i), j))
  {
    assert [i, j][1..] == [j] && [j][1..] == [];
    assert Goes(After(g, i), [j], After(After(g, i), j));
  }

  /** Ten registers: x in 0 and 1, another operand in 2 and 3, temporaries in 4 to 7, another result in 8 and 9. */
  ghost predicate Registers(g: seq<Reg>) { |g| == 10 && forall i :: 0 <= i < 10 ==> 1 <= g[i].deg <= NEXCESS }

  /** Where the second operand and the result may be: on their own, or on an operand. */
  predicate Layout(y: nat, w: nat) { (y == 0 || y == 2) && (w == 0 || w == 2 || w == 8) }

  // ---------- FP2_mul ----------

  /** The second operand is y, the result w. */
  function MulBegin(y: nat, w: nat): seq<Instr> {
    [Mul(4, 0, y), Mul(5, 1, y + 1)] + [Add(6, 0, 1), Add(w + 1, y, y + 1)] + [Mul(w + 1, w + 1, 6), Add(7, 4, 5)]
  }

  function MulProg(y: nat, w: nat): seq<Instr> {
    MulBegin(y, w) + [Neg(7, 7), Add(w + 1, w + 1, 7)] + [Add(7, 4, 7), Add(w, 4, 7)] + [Norm(w), Norm(w + 1)]
  }

  /** Both products of halves; the operands are normalised on the way. */
  lemma MulStart(g: seq<Reg>, y: nat) returns (h: seq<Reg>)
    requires Registers(g) && (y == 0 || y == 2)
    ensures Goes(g, [Mul(4, 0, y), Mul(5, 1, y + 1)], h) && Registers(h)
    ensures h[4] == Reg(1, g[0].x * g[y].x) && h[5] == Reg(1, g[1].x * g[y + 1].x)
    ensures h[0] == Reg(1, g[0].x) && h[1] == Reg(1, g[1].x) && h[y] == Reg(1, g[y].x) && h[y + 1] == Reg(1, g[y + 1].x)
  {
    Two(g, Mul(4, 0, y), Mul(5, 1, y + 1));
    h := After(After(g, Mul(4, 0, y)), Mul(5, 1, y + 1));
  }

  lemma MulSums(g: seq<Reg>, y: nat, w: nat) returns (h: seq<Reg>)
    requires Registers(g) && Layout(y, w) && g[0].deg == g[1].deg == g[y].deg == g[y + 1].deg == 1
    ensures Goes(g, [Add(6, 0, 1), Add(w + 1, y, y + 1)], h) && Registers(h) && h[4] == g[4] && h[5] == g[5]
    ensures h[6] == Reg(2, g[0].x + g[1].x) && h[w + 1] == Reg(2, g[y].x + g[y + 1].x)
    ensures forall i :: 0 <= i < 4 && i != w + 1 ==> h[i] == g[i]
  {
    Two(g, Add(6, 0, 1), Add(w + 1, y, y + 1));
    h := After(After(g, Add(6, 0, 1)), Add(w + 1, y, y + 1));
  }

  lemma MulThird(g: seq<Reg>, w: nat) returns (h: seq<Reg>)
    requires Registers(g) && (w == 0 || w == 2 || w == 8) && g[4].deg == g[5].deg == 1
    ensures Goes(g, [Mul(w + 1, w + 1, 6), Add(7, 4, 5)], h) && Registers(h) && h[4] == g[4]
    ensures h[w + 1] == Reg(1, g[w + 1].x * g[6].x) && h[7] == Reg(2, g[4].x + g[5].x)
    ensures forall i :: 0 <= i < 4 && i != w + 1 ==> h[i] == g[i]
  {
    Two(g, Mul(w + 1, w + 1, 6), Add(7, 4, 5));
    h := After(After(g, Mul(w + 1, w + 1, 6)), Add(7, 4, 5));
  }

  /** The three products. */
  lemma MulProducts(g: seq<Reg>, y: nat, w: nat) returns (h: seq<Reg>)
    requires Registers(g) && Layout(y, w)
    ensures Goes(g, MulBegin(y, w), h) && Registers(h) && h[4] == Reg(1, g[0].x * g[y].x)
    ensures h[w + 1] == Reg(1, (g[y].x + g[y + 1].x) * (g[0].x + g[1].x))
    ensures h[7] == Reg(2, g[0].x * g[y].x + g[1].x * g[y + 1].x)
    ensures forall i :: i in {0, 1, y, y + 1} && i != w + 1 ==> h[i] == Reg(1, g[i].x)
  {
    var a, b := [Mul(4, 0, y), Mul(5, 1, y + 1)], [Add(6, 0, 1), Add(w + 1, y, y + 1)];
    var g1 := MulStart(g, y);
    var g2 := MulSums(g1, y, w);
    GoesOn(g, a, g1, b, g2);
    h := MulThird(g2, w);
    GoesOn(g, a + b, g2, [Mul(w + 1, w + 1, 6), Add(7, 4, 5)], h);
  }

  lemma MulCross(g: seq<Reg>, w: nat) returns (h: seq<Reg>)
    requires Registers(g) && (w == 0 || w == 2 || w == 8) && g[w + 1].deg == 1
    ensures Goes(g, [Neg(7, 7), Add(w + 1, w + 1, 7)], h) && Registers(h) && h[4] == g[4]
    ensures h[w + 1] == Reg(2, g[w + 1].x - g[7].x) && h[7] == Reg(1, -g[7].x)
    ensures forall i :: 0 <= i < 4 && i != w + 1 ==> h[i] == g[i]
  {
    Two(g, Neg(7, 7), Add(w + 1, w + 1, 7));
    h := After(After(g, Neg(7, 7)), Add(w + 1, w + 1, 7));
  }

  lemma MulReal(g: seq<Reg>, w: nat) returns (h: seq<Reg>)
    requires Registers(g) && (w == 0 || w == 2 || w == 8) && g[4].deg == g[7].deg == 1
    ensures Goes(g, [Add(7, 4, 7), Add(w, 4, 7)], h) && Registers(h)
    ensures h[w] == Reg(3, g[4].x + (g[4].x + g[7].x)) && h[w + 1] == g[w + 1]
    ensures forall i :: 0 <= i < 4 && i != w ==> h[i] == g[i]
  {
    Two(g, Add(7, 4, 7), Add(w, 4, 7));
    h := After(After(g, Add(7, 4, 7)), Add(w, 4, 7));
  }

  /** FP2_norm */
  lemma NormBoth(g: seq<Reg>, w: nat) returns (h: seq<Reg>)
    requires Registers(g) && (w == 0 || w == 2 || w == 8)
    ensures Goes(g, [Norm(w), Norm(w + 1)], h) && Registers(h)
    ensures h[w] == Reg(1, g[w].x) && h[w + 1] == Reg(1, g[w + 1].x)
    ensures forall i :: 0 <= i < 10 && i != w && i != w + 1 ==> h[i] == g[i]
  {
    Two(g, Norm(w), Norm(w + 1));
    h := After(After(g, Norm(w)), Norm(w + 1));
  }

  /** Everything before FP2_norm. */
  lemma MulMiddle(g: seq<Reg>, y: nat, w: nat) returns (h: seq<Reg>)
    requires Registers(g) && Layout(y, w)
    ensures Goes(g, MulBegin(y, w) + [Neg(7, 7), Add(w + 1, w + 1, 7)] + [Add(7, 4, 7), Add(w, 4, 7)], h) && Registers(h)
    ensures h[w].x == g[0].x * g[y].x - g[1].x * g[y + 1].x && h[w + 1].x == g[0].x * g[y + 1].x + g[1].x * g[y].x
    ensures forall i :: i in {0, 1, y, y + 1} && i != w && i != w + 1 ==> h[i] == Reg(1, g[i].x)
  {
    var a, d := MulBegin(y, w), [Neg(7, 7), Add(w + 1, w + 1, 7)];
    var g3 := MulProducts(g, y, w);
    var g4 := MulCross(g3, w);
    GoesOn(g, a, g3, d, g4);
    h := MulReal(g4, w);
    GoesOn(g, a + d, g4, [Add(7, 4, 7), Add(w, 4, 7)], h);
    Karatsuba(g[0].x, g[1].x, g[y].x, g[y + 1].x);
  }

  /** Three multiplications give (a + ib)(c + id), in registers of degree 1; an operand that is not the destination
      keeps its value and is left normalised. */
  lemma MulFinal(g: seq<Reg>, y: nat, w: nat)
    requires Registers(g) && Layout(y, w)
    ensures AllFit(g, MulProg(y, w))
    ensures var r := Final(g, MulProg(y, w));
      && r[w] == Reg(1, g[0].x * g[y].x - g[1].x * g[y + 1].x)
      && r[w + 1] == Reg(1, g[0].x * g[y + 1].x + g[1].x * g[y].x)
      && (w != 0 ==> r[0] == Reg(1, g[0].x) && r[1] == Reg(1, g[1].x)) && (w != y ==> r[y] == Reg(1, g[y].x) && r[y + 1] == Reg(1, g[y + 1].x))
  {
    var h := MulMiddle(g, y, w);
    var r := NormBoth(h, w);
    GoesOn(g, MulBegin(y, w) + [Neg(7, 7), Add(w + 1, w + 1, 7)] + [Add(7, 4, 7), Add(w, 4, 7)], h, [Norm(w), Norm(w + 1)], r);
  }

  lemma Karatsuba(a: int, b: int, c: int, d: int)
    ensures (c + d) * (a + b) - (a * c + b * d) == a * d + b * c
  {
  }

  /** FP2_mul on arrays. */
  method Multiply(regs: seq<array<int>>, y: nat, w: nat, ghost g: seq<Reg>)
    requires File(regs, g) && Registers(g) && Layout(y, w)
    modifies regs
    ensures Holds(regs[w][..], Reg(1, g[0].x * g[y].x - g[1].x * g[y + 1].x))
    ensures Holds(regs[w + 1][..], Reg(1, g[0].x * g[y + 1].x + g[1].x * g[y].x))
  {
    MulFinal(g, y, w);
    Execute(MulProg(y, w), regs, g);
  }

  // ---------- FP2_sqr ----------

  function SqrProg(w: nat): seq<Instr> {
    [Mul(5, 0, 1), Add(4, 0, 1)] + [Neg(6, 1), Add(w, 0, 6)] + [Mul(w, 4, w), Add(w + 1, 5, 5)] + [Norm(w), Norm(w + 1)]
  }

  /** Two multiplications give (a + ib)^2. */
  lemma SqrFinal(g: seq<Reg>, w: nat)
    requires Registers(g) && (w == 0 || w == 8)
    ensures AllFit(g, SqrProg(w))
    ensures var r := Final(g, SqrProg(w));
      && r[w] == Reg(1, g[0].x * g[0].x - g[1].x * g[1].x) && r[w + 1] == Reg(1, 2 * (g[0].x * g[1].x))
      && (w != 0 ==> r[0] == Reg(1, g[0].x) && r[1] == Reg(1, g[1].x))
  {
    var a, b := [Mul(5, 0, 1), Add(4, 0, 1)], [Neg(6, 1), Add(w, 0, 6)];
    var c, d := [Mul(w, 4, w), Add(w + 1, 5, 5)], [Norm(w), Norm(w + 1)];
    var g1 := SqrStart(g);
    var g2 := SqrDifference(g1, w);
    GoesOn(g, a, g1, b, g2);
    var g3 := SqrProducts(g2, w);
    GoesOn(g, a + b, g2, c, g3);
    var g4 := NormBoth(g3, w);
    GoesOn(g, a + b + c, g3, d, g4);
    TwoSquares(g[0].x, g[1].x);
  }

  lemma SqrStart(g: seq<Reg>) returns (h: seq<Reg>)
    requires Registers(g)
    ensures Goes(g, [Mul(5, 0, 1), Add(4, 0, 1)], h) && Registers(h)
    ensures h[0] == Reg(1, g[0].x) && h[1] == Reg(1, g[1].x) && h[5] == Reg(1, g[0].x * g[1].x) && h[4] == Reg(2, g[0].x + g[1].x)
  {
    Two(g, Mul(5, 0, 1), Add(4, 0, 1));
    h := After(After(g, Mul(5, 0, 1)), Add(4, 0, 1));
  }

  lemma SqrDifference(g: seq<Reg>, w: nat) returns (h: seq<Reg>)
    requires Registers(g) && (w == 0 || w == 8) && g[0].deg == 1
    ensures Goes(g, [Neg(6, 1), Add(w, 0, 6)], h) && Registers(h) && h[4] == g[4] && h[5] == g[5]
    ensures h[w] == Reg(2, g[0].x + -g[1].x) && h[1] == Reg(1, g[1].x) && (w != 0 ==> h[0] == g[0])
  {
    Two(g, Neg(6, 1), Add(w, 0, 6));
    h := After(After(g, Neg(6, 1)), Add(w, 0, 6));
  }

  lemma SqrProducts(g: seq<Reg>, w: nat) returns (h: seq<Reg>)
    requires Registers(g) && (w == 0 || w == 8) && g[5].deg == 1
    ensures Goes(g, [Mul(w, 4, w), Add(w + 1, 5, 5)], h) && Registers(h)
    ensures h[w] == Reg(1, g[4].x * g[w].x) && h[w + 1] == Reg(2, g[5].x + g[5].x) && (w != 0 ==> h[0] == g[0] && h[1] == g[1])
  {
    Two(g, Mul(w, 4, w), Add(w + 1, 5, 5));
    h := After(After(g, Mul(w, 4, w)), Add(w + 1, 5, 5));
  }

  lemma TwoSquares(a: int, b: int)
    ensures (a + b) * (a + -b) == a * a - b * b
  {
  }

  /** FP2_sqr on arrays. */
  method Square(regs: seq<array<int>>, w: nat, ghost g: seq<Reg>)
    requires File(regs, g) && Registers(g) && (w == 0 || w == 8)
    modifies regs
    ensures Holds(regs[w][..], Reg(1, g[0].x * g[0].x - g[1].x * g[1].x))
    ensures Holds(regs[w + 1][..], Reg(1, 2 * (g[0].x * g[1].x)))
  {
    SqrFinal(g, w);
    Execute(SqrProg(w), regs, g);
  }

  // ---------- FP2_neg ----------

  function NegProg(w: nat): seq<Instr> {
    [Norm(0), Norm(1)] + [Add(4, 0, 1), Neg(4, 4)] + [Norm(4), Add(5, 4, 1)] + [Add(w + 1, 4, 0), Copy(w, 5)]
  }

  lemma NegSum(g: seq<Reg>) returns (h: seq<Reg>)
    requires Registers(g) && g[0].deg == g[1].deg == 1
    ensures Goes(g, [Add(4, 0, 1), Neg(4, 4)], h) && Registers(h)
    ensures h[0] == g[0] && h[1] == g[1] && h[4] == Reg(1, -(g[0].x + g[1].x))
  {
    Two(g, Add(4, 0, 1), Neg(4, 4));
    h := After(After(g, Add(4, 0, 1)), Neg(4, 4));
  }

  /** One negation negates both halves. */
  lemma NegFinal(g: seq<Reg>, w: nat)
    requires Registers(g) && (w == 0 || w == 8)
    ensures AllFit(g, NegProg(w))
    ensures var r := Final(g, NegProg(w));
      r[w] == Reg(2, -g[0].x) && r[w + 1] == Reg(2, -g[1].x) && (w != 0 ==> r[0] == Reg(1, g[0].x) && r[1] == Reg(1, g[1].x))
  {
    var a, b := [Norm(0), Norm(1)], [Add(4, 0, 1), Neg(4, 4)];
    var c, d := [Norm(4), Add(5, 4, 1)], [Add(w + 1, 4, 0), Copy(w, 5)];
    var g1 := NormBoth(g, 0);
    var g2 := NegSum(g1);
    GoesOn(g, a, g1, b, g2);
    var g3 := NegFirst(g2);
    GoesOn(g, a + b, g2, c, g3);
    var g4 := NegSecond(g3, w);
    GoesOn(g, a + b + c, g3, d, g4);
  }

  lemma NegFirst(g: seq<Reg>) returns (h: seq<Reg>)
    requires Registers(g) && g[0].deg == g[1].deg == g[4].deg == 1
    ensures Goes(g, [Norm(4), Add(5, 4, 1)], h) && Registers(h)
    ensures h[0] == g[0] && h[1] == g[1] && h[4] == g[4] && h[5] == Reg(2, g[4].x + g[1].x)
  {
    Two(g, Norm(4), Add(5, 4, 1));
    h := After(After(g, Norm(4)), Add(5, 4, 1));
  }

  lemma NegSecond(g: seq<Reg>, w: nat) returns (h: seq<Reg>)
    requires Registers(g) && (w == 0 || w == 8) && g[0].deg == g[4].deg == 1
    ensures Goes(g, [Add(w + 1, 4, 0), Copy(w, 5)], h)
    ensures h[w] == g[5] && h[w + 1] == Reg(2, g[4].x + g[0].x) && (w != 0 ==> h[0] == g[0] && h[1] == g[1])
  {
    Two(g, Add(w + 1, 4, 0), Copy(w, 5));
    h := After(After(g, Add(w + 1, 4, 0)), Copy(w, 5));
  }

  /** FP2_neg on arrays. */
  method Negate(regs: seq<array<int>>, w: nat, ghost g: seq<Reg>)
    requires File(regs, g) && Registers(g) && (w == 0 || w == 8)
    modifies regs
    ensures Holds(regs[w][..], Reg(2, -g[0].x)) && Holds(regs[w + 1][..], Reg(2, -g[1].x))
  {
    NegFinal(g, w);
    Execute(NegProg(w), regs, g);
  }
}
