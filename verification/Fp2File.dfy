/**
 * A file of FP2 registers (fp2.c): every FP2 operation on any of its registers, in any aliasing, is a chain of field
 * operations, and any program of them agrees with exact arithmetic on Gaussian integers.
 */
module Fp2File {
  import opened FpField
  import opened Limbs
  import F2 = Fp2

  // ---------- exact values ----------

  datatype Gauss = Gauss(re: int, im: int)

  function GAdd(x: Gauss, y: Gauss): Gauss { Gauss(x.re + y.re, x.im + y.im) }
  function GNeg(x: Gauss): Gauss { Gauss(-x.re, -x.im) }
  function GMul(x: Gauss, y: Gauss): Gauss { Gauss(x.re * y.re - x.im * y.im, x.re * y.im + x.im * y.re) }
  /** The square root of -1 times x. */
  function GTurn(x: Gauss): Gauss { Gauss(-x.im, x.re) }

  // ---------- registers and operations ----------

  /** The degrees of both halves, and the number. */
  datatype Reg2 = Reg2(da: int, db: int, z: Gauss)

  datatype Op = Mul2 | Sqr2 | Neg2 | Add2 | Copy2 | Norm2 | Reduce2 | Turn2

  /** w = x op y; an operation of one operand has it twice, and the last three work in place. */
  datatype Instr2 = Instr2(op: Op, w: nat, x: nat, y: nat)

  function Normal(r: Reg2): Reg2 { Reg2(1, 1, r.z) }

  /** The result of an operation, and what it leaves of an operand. */
  function Result(op: Op, x: Reg2, y: Reg2): Reg2 {
    match op
    case Mul2 => Reg2(1, 1, GMul(x.z, y.z))
    case Sqr2 => Reg2(1, 1, GMul(x.z, x.z))
    case Neg2 => Reg2(2, 2, GNeg(x.z))
    case Add2 => Reg2(x.da + y.da, x.db + y.db, GAdd(x.z, y.z))
    case Copy2 => x
    case Norm2 => Normal(x)
    case Reduce2 => Normal(x)
    case Turn2 => Reg2(1, x.da, GTurn(x.z))
  }

  function Left(op: Op, x: Reg2): Reg2 { if op in {Mul2, Sqr2, Neg2} then Normal(x) else x }

  predicate Sums(op: Op, x: Reg2, y: Reg2) { op == Add2 ==> x.da + y.da <= NEXCESS && x.db + y.db <= NEXCESS }

  predicate Shape(i: Instr2) { (i.op !in {Mul2, Add2} ==> i.y == i.x) && (i.op in {Norm2, Reduce2, Turn2} ==> i.w == i.x) }

  ghost predicate Fits2(v: seq<Reg2>, i: Instr2) {
    i.w < |v| && i.x < |v| && i.y < |v| && Shape(i) && Sums(i.op, v[i.x], v[i.y])
  }

  ghost function After2(v: seq<Reg2>, i: Instr2): (r: seq<Reg2>)
    requires Fits2(v, i)
    ensures |r| == |v|
  {
    v[i.x := Left(i.op, v[i.x])][i.y := Left(i.op, v[i.y])][i.w := Result(i.op, v[i.x], v[i.y])]
  }

  // ---------- one operation on ten field registers ----------

  ghost function Pair(g: seq<Reg>, s: nat): Reg2
    requires s + 1 < |g|
  {
    Reg2(g[s].deg, g[s + 1].deg, Gauss(g[s].x, g[s + 1].x))
  }

  /** The operands are in 0 and y, the result in w, as in Fp2. */
  function Local(op: Op, y: nat, w: nat): seq<Instr> {
    match op
    case Mul2 => F2.MulProg(y, w)
    case Sqr2 => F2.SqrProg(w)
    case Neg2 => F2.NegProg(w)
    case Add2 => [Add(w, 0, y), Add(w + 1, 1, y + 1)]
    case Copy2 => [Copy(w, 0), Copy(w + 1, 1)]
    case Norm2 => [Norm(0), Norm(1)]
    case Reduce2 => [Reduce(0), Reduce(1)]
    case Turn2 => [Copy(6, 0), Neg(0, 1)] + [Copy(1, 6)]
  }

  predicate Placed(op: Op, y: nat, w: nat) {
    && F2.Layout(y, w) && (y == 0 ==> w != 2)
    && (op !in {Mul2, Add2} ==> y == 0) && (op in {Norm2, Reduce2, Turn2} ==> w == 0)
  }

  /** What the chain of an operation does: as After2 says, wherever the result goes. */
  ghost predicate Does(g: seq<Reg>, op: Op, y: nat, w: nat)
    requires F2.Registers(g) && Placed(op, y, w)
  {
    && AllFit(g, Local(op, y, w))
    && var h, a, b := Final(g, Local(op, y, w)), Pair(g, 0), Pair(g, y);
    Pair(h, w) == Result(op, a, b) && (w != 0 ==> Pair(h, 0) == Left(op, a)) && (w != y ==> Pair(h, y) == Left(op, b))
  }

  lemma TwoDoes(g: seq<Reg>, i: Instr, j: Instr)
    requires Fits(g, i) && Fits(After(g, i), j)
    ensures AllFit(g, [i, j]) && Final(g, [i, j]) == After(After(g, i), j)
  {
    F2.Two(g, i, j);
  }

  lemma AddDoes(g: seq<Reg>, y: nat, w: nat)
    requires F2.Registers(g) && Placed(Add2, y, w) && Sums(Add2, Pair(g, 0), Pair(g, y))
    ensures Does(g, Add2, y, w)
  {
    TwoDoes(g, Add(w, 0, y), Add(w + 1, 1, y + 1));
  }

  lemma CopyDoes(g: seq<Reg>, w: nat)
    requires F2.Registers(g) && Placed(Copy2, 0, w)
    ensures Does(g, Copy2, 0, w)
  {
    TwoDoes(g, Copy(w, 0), Copy(w + 1, 1));
  }

  lemma TidyDoes(g: seq<Reg>, op: Op)
    requires F2.Registers(g) && op in {Norm2, Reduce2}
    ensures Does(g, op, 0, 0)
  {
    if op == Norm2 { TwoDoes(g, Norm(0), Norm(1)); } else { TwoDoes(g, Reduce(0), Reduce(1)); }
  }

  lemma TurnDoes(g: seq<Reg>)
    requires F2.Registers(g)
    ensures Does(g, Turn2, 0, 0)
  {
    var a, b := [Copy(6, 0), Neg(0, 1)], [Copy(1, 6)];
    TwoDoes(g, Copy(6, 0), Neg(0, 1));
    var h := After(After(g, Copy(6, 0)), Neg(0, 1));
    assert b[1..] == [];
    var k := After(h, Copy(1, 6));
    F2.GoesOn(g, a, h, b, k);
  }

  lemma LocalDoes(g: seq<Reg>, op: Op, y: nat, w: nat)
    requires F2.Registers(g) && Placed(op, y, w) && Sums(op, Pair(g, 0), Pair(g, y))
    ensures Does(g, op, y, w)
  {
    match op
    case Mul2 => F2.MulFinal(g, y, w);
    case Sqr2 => F2.SqrFinal(g, w);
    case Neg2 => F2.NegFinal(g, w);
    case Add2 => AddDoes(g, y, w);
    case Copy2 => CopyDoes(g, w);
    case Norm2 => TidyDoes(g, op);
    case Reduce2 => TidyDoes(g, op);
    case Turn2 => TurnDoes(g);
  }

  // ---------- the same chain on other registers ----------

  function At(r: seq<nat>, i: nat): nat { if i < |r| then r[i] else 0 }

  /** An instruction on the registers that r names. */
  function Renamed(i: Instr, r: seq<nat>): Instr {
    match i
    case Mul(d, a, b) => Mul(At(r, d), At(r, a), At(r, b))
    case Sqr(d, a) => Sqr(At(r, d), At(r, a))
    case Add(d, a, b) => Add(At(r, d), At(r, a), At(r, b))
    case Sub(d, a, b) => Sub(At(r, d), At(r, a), At(r, b))
    case Neg(d, a) => Neg(At(r, d), At(r, a))
    case Copy(d, a) => Copy(At(r, d), At(r, a))
    case Norm(a) => Norm(At(r, a))
    case Reduce(a) => Reduce(At(r, a))
  }

  function AllRenamed(p: seq<Instr>, r: seq<nat>): (q: seq<Instr>)
    ensures |q| == |p|
  {
    if |p| == 0 then [] else [Renamed(p[0], r)] + AllRenamed(p[1..], r)
  }

  /** r names different registers of a file of n. */
  ghost predicate Names(r: seq<nat>, n: nat) {
    (forall i :: 0 <= i < |r| ==> r[i] < n) && forall i, j :: 0 <= i < j < |r| ==> r[i] != r[j]
  }

  ghost function Pull(g: seq<Reg>, r: seq<nat>): (h: seq<Reg>)
    requires Names(r, |g|)
    ensures |h| == |r| && forall i :: 0 <= i < |r| ==> h[i] == g[r[i]]
  {
    seq(|r|, i requires 0 <= i < |r| => g[r[i]])
  }

  /** The registers that r does not name are as they were. */
  ghost predicate Others(g: seq<Reg>, h: seq<Reg>, r: seq<nat>) { |h| == |g| && forall j :: 0 <= j < |g| && j !in r ==> h[j] == g[j] }

  lemma PullUpdate(g: seq<Reg>, r: seq<nat>, d: nat, v: Reg)
    requires Names(r, |g|) && d < |r|
    ensures Pull(g[r[d] := v], r) == Pull(g, r)[d := v] && Others(g, g[r[d] := v], r)
  {
    var h := g[r[d] := v];
    forall i | 0 <= i < |r| ensures Pull(h, r)[i] == Pull(g, r)[d := v][i] {
      if i != d { assert r[i] != r[d]; }
    }
  }

  lemma PullTwo(g: seq<Reg>, r: seq<nat>, a: nat, u: Reg, d: nat, w: Reg)
    requires Names(r, |g|) && a < |r| && d < |r|
    ensures var h := g[r[a] := u][r[d] := w]; Pull(h, r) == Pull(g, r)[a := u][d := w] && Others(g, h, r)
  {
    PullUpdate(g, r, a, u);
    PullUpdate(g[r[a] := u], r, d, w);
  }

  lemma PullThree(g: seq<Reg>, r: seq<nat>, a: nat, u: Reg, b: nat, v: Reg, d: nat, w: Reg)
    requires Names(r, |g|) && a < |r| && b < |r| && d < |r|
    ensures var h := g[r[a] := u][r[b] := v][r[d] := w]; Pull(h, r) == Pull(g, r)[a := u][b := v][d := w] && Others(g, h, r)
  {
    PullTwo(g, r, a, u, b, v);
    PullUpdate(g[r[a] := u][r[b] := v], r, d, w);
  }

  /** The instruction i does the same under other names. */
  ghost predicate Same(g: seq<Reg>, r: seq<nat>, i: Instr)
    requires Names(r, |g|) && Fits(Pull(g, r), i)
  {
    && Fits(g, Renamed(i, r)) && Pull(After(g, Renamed(i, r)), r) == After(Pull(g, r), i)
    && Others(g, After(g, Renamed(i, r)), r)
  }

  lemma SameMul(g: seq<Reg>, r: seq<nat>, d: nat, a: nat, b: nat)
    requires Names(r, |g|) && d < |r| && a < |r| && b < |r|
    ensures Same(g, r, Mul(d, a, b))
  {
    PullThree(g, r, a, Reg(1, g[r[a]].x), b, Reg(1, g[r[b]].x), d, Reg(1, g[r[a]].x * g[r[b]].x));
  }

  lemma SameSqr(g: seq<Reg>, r: seq<nat>, d: nat, a: nat)
    requires Names(r, |g|) && d < |r| && a < |r|
    ensures Same(g, r, Sqr(d, a))
  {
    PullTwo(g, r, a, Reg(1, g[r[a]].x), d, Reg(1, g[r[a]].x * g[r[a]].x));
  }

  lemma SameNeg(g: seq<Reg>, r: seq<nat>, d: nat, a: nat)
    requires Names(r, |g|) && d < |r| && a < |r|
    ensures Same(g, r, Neg(d, a))
  {
    PullTwo(g, r, a, Reg(1, g[r[a]].x), d, Reg(1, -g[r[a]].x));
  }

  lemma SameSub(g: seq<Reg>, r: seq<nat>, d: nat, a: nat, b: nat)
    requires Names(r, |g|) && Fits(Pull(g, r), Sub(d, a, b))
    ensures Same(g, r, Sub(d, a, b))
  {
    assert r[a] == r[b] <==> a == b;
    PullTwo(g, r, b, Reg(1, g[r[b]].x), d, Reg((if a == b then 1 else g[r[a]].deg) + 1, g[r[a]].x - g[r[b]].x));
  }

  lemma SameAdd(g: seq<Reg>, r: seq<nat>, d: nat, a: nat, b: nat)
    requires Names(r, |g|) && Fits(Pull(g, r), Add(d, a, b))
    ensures Same(g, r, Add(d, a, b))
  {
    PullUpdate(g, r, d, Reg(g[r[a]].deg + g[r[b]].deg, g[r[a]].x + g[r[b]].x));
  }

  lemma SameCopy(g: seq<Reg>, r: seq<nat>, d: nat, a: nat)
    requires Names(r, |g|) && d < |r| && a < |r|
    ensures Same(g, r, Copy(d, a))
  {
    PullUpdate(g, r, d, g[r[a]]);
  }

  lemma SameTidy(g: seq<Reg>, r: seq<nat>, a: nat)
    requires Names(r, |g|) && a < |r|
    ensures Same(g, r, Norm(a)) && Same(g, r, Reduce(a))
  {
    PullUpdate(g, r, a, Reg(1, g[r[a]].x));
  }

  lemma RenamedStep(g: seq<Reg>, r: seq<nat>, i: Instr)
    requires Names(r, |g|) && Fits(Pull(g, r), i)
    ensures Same(g, r, i)
  {
    match i
    case Mul(d, a, b) => SameMul(g, r, d, a, b);
    case Sqr(d, a) => SameSqr(g, r, d, a);
    case Sub(d, a, b) => SameSub(g, r, d, a, b);
    case Neg(d, a) => SameNeg(g, r, d, a);
    case Add(d, a, b) => SameAdd(g, r, d, a, b);
    case Copy(d, a) => SameCopy(g, r, d, a);
    case Norm(a) => SameTidy(g, r, a);
    case Reduce(a) => SameTidy(g, r, a);
  }

  lemma {:induction false} RenamedRun(g: seq<Reg>, r: seq<nat>, p: seq<Instr>)
    requires Names(r, |g|) && AllFit(Pull(g, r), p)
    ensures AllFit(g, AllRenamed(p, r)) && Pull(Final(g, AllRenamed(p, r)), r) == Final(Pull(g, r), p)
    ensures Others(g, Final(g, AllRenamed(p, r)), r)
    decreases |p|
  {
    if |p| > 0 {
      var i := Renamed(p[0], r);
      RenamedStep(g, r, p[0]);
      RenamedRun(After(g, i), r, p[1..]);
      assert AllRenamed(p, r)[1..] == AllRenamed(p[1..], r);
    }
  }

  // ---------- the file ----------

  /** Field registers 2j and 2j+1 hold FP2 register j; eight more are for temporaries. */
  ghost predicate Layout2(g: seq<Reg>, m: nat) { |g| == 2 * m + 8 && forall i :: 0 <= i < |g| ==> 1 <= g[i].deg <= NEXCESS }

  ghost function View(g: seq<Reg>, m: nat): (v: seq<Reg2>)
    requires |g| == 2 * m + 8
    ensures |v| == m && forall j :: 0 <= j < m ==> v[j] == Pair(g, 2 * j)
  {
    seq(m, j requires 0 <= j < m => Pair(g, 2 * j))
  }

  function Even(j: nat): seq<nat> { [2 * j, 2 * j + 1] }

  /** Where the ten registers of an operation are. */
  function Slots(i: Instr2, m: nat): (r: seq<nat>)
    ensures |r| == 10
  {
    Even(i.x) + (if i.y == i.x then Even(m + 2) else Even(i.y)) + Even(m) + Even(m + 1)
    + (if i.w == i.x || i.w == i.y then Even(m + 3) else Even(i.w))
  }

  function SlotY(i: Instr2): nat { if i.y == i.x then 0 else 2 }
  function SlotW(i: Instr2): nat { if i.w == i.x then 0 else if i.w == i.y then 2 else 8 }

  /** The field operations of an FP2 operation. */
  function Compiled(i: Instr2, m: nat): seq<Instr> { AllRenamed(Local(i.op, SlotY(i), SlotW(i)), Slots(i, m)) }

  lemma SlotsDiffer(i: Instr2, m: nat)
    requires i.w < m && i.x < m && i.y < m
    ensures Names(Slots(i, m), 2 * m + 8)
  {
    var r := Slots(i, m);
    var y, w := if i.y == i.x then m + 2 else i.y, if i.w == i.x || i.w == i.y then m + 3 else i.w;
    assert r == [2 * i.x, 2 * i.x + 1, 2 * y, 2 * y + 1, 2 * m, 2 * m + 1, 2 * m + 2, 2 * m + 3, 2 * w, 2 * w + 1];
    assert i.x != y && i.x != w && y != w;
  }

  /** A pair of the file seen through the slots. */
  lemma PairPulled(g: seq<Reg>, i: Instr2, m: nat)
    requires |g| == 2 * m + 8 && i.w < m && i.x < m && i.y < m
    ensures Names(Slots(i, m), |g|)
    ensures var h := Pull(g, Slots(i, m)); Pair(h, 0) == Pair(g, 2 * i.x) && Pair(h, SlotY(i)) == Pair(g, 2 * i.y) && Pair(h, SlotW(i)) == Pair(g, 2 * i.w)
  {
    SlotsDiffer(i, m);
    var r := Slots(i, m);
    assert r[0] == 2 * i.x && r[1] == 2 * i.x + 1;
    assert r[SlotY(i)] == 2 * i.y && r[SlotY(i) + 1] == 2 * i.y + 1;
    assert r[SlotW(i)] == 2 * i.w && r[SlotW(i) + 1] == 2 * i.w + 1;
  }

  lemma OtherPair(g: seq<Reg>, h: seq<Reg>, i: Instr2, m: nat, j: nat)
    requires |g| == 2 * m + 8 && i.w < m && i.x < m && i.y < m && j < m && j != i.w && j != i.x && j != i.y
    requires Others(g, h, Slots(i, m))
    ensures Pair(h, 2 * j) == Pair(g, 2 * j)
  {
    var r := Slots(i, m);
    var y, w := if i.y == i.x then m + 2 else i.y, if i.w == i.x || i.w == i.y then m + 3 else i.w;
    assert r == [2 * i.x, 2 * i.x + 1, 2 * y, 2 * y + 1, 2 * m, 2 * m + 1, 2 * m + 2, 2 * m + 3, 2 * w, 2 * w + 1];
    assert 2 * j !in r && 2 * j + 1 !in r;
  }

  lemma DegreesKept(g: seq<Reg>, i: Instr)
    requires Fits(g, i) && forall j :: 0 <= j < |g| ==> 1 <= g[j].deg <= NEXCESS
    ensures forall j :: 0 <= j < |g| ==> 1 <= After(g, i)[j].deg <= NEXCESS
  {
  }

  lemma {:induction false} DegreesStay(g: seq<Reg>, p: seq<Instr>)
    requires AllFit(g, p) && forall j :: 0 <= j < |g| ==> 1 <= g[j].deg <= NEXCESS
    ensures forall j :: 0 <= j < |g| ==> 1 <= Final(g, p)[j].deg <= NEXCESS
    decreases |p|
  {
    if |p| > 0 {
      DegreesKept(g, p[0]);
      DegreesStay(After(g, p[0]), p[1..]);
    }
  }

  lemma ViewAfter(v: seq<Reg2>, u: seq<Reg2>, i: Instr2)
    requires Fits2(v, i) && |u| == |v| && u[i.w] == Result(i.op, v[i.x], v[i.y])
    requires (i.w != i.x ==> u[i.x] == Left(i.op, v[i.x])) && (i.w != i.y ==> u[i.y] == Left(i.op, v[i.y]))
    requires forall j :: 0 <= j < |v| && j != i.w && j != i.x && j != i.y ==> u[j] == v[j]
    ensures u == After2(v, i)
  {
  }

  /** One operation through its slots. */
  lemma CompiledPairs(g: seq<Reg>, m: nat, i: Instr2)
    requires Layout2(g, m) && Fits2(View(g, m), i)
    ensures AllFit(g, Compiled(i, m))
    ensures var h, x, y := Final(g, Compiled(i, m)), Pair(g, 2 * i.x), Pair(g, 2 * i.y);
      && Others(g, h, Slots(i, m)) && Pair(h, 2 * i.w) == Result(i.op, x, y)
      && (i.w != i.x ==> Pair(h, 2 * i.x) == Left(i.op, x)) && (i.w != i.y ==> Pair(h, 2 * i.y) == Left(i.op, y))
  {
    var r, p := Slots(i, m), Local(i.op, SlotY(i), SlotW(i));
    PairPulled(g, i, m);
    LocalDoes(Pull(g, r), i.op, SlotY(i), SlotW(i));
    RenamedRun(g, r, p);
    PairPulled(Final(g, AllRenamed(p, r)), i, m);
  }

  /** The field operations of an FP2 operation do what it does, and nothing else. */
  lemma Compiles(g: seq<Reg>, m: nat, i: Instr2)
    requires Layout2(g, m) && Fits2(View(g, m), i)
    ensures AllFit(g, Compiled(i, m)) && Layout2(Final(g, Compiled(i, m)), m)
    ensures View(Final(g, Compiled(i, m)), m) == After2(View(g, m), i)
  {
    CompiledPairs(g, m, i);
    DegreesStay(g, Compiled(i, m));
    var h := Final(g, Compiled(i, m));
    forall j | 0 <= j < m && j != i.w && j != i.x && j != i.y ensures View(h, m)[j] == View(g, m)[j] { OtherPair(g, h, i, m, j); }
    ViewAfter(View(g, m), View(h, m), i);
  }

  // ---------- programs ----------

  ghost predicate AllFit2(v: seq<Reg2>, p: seq<Instr2>)
    decreases |p|
  {
    |p| > 0 ==> Fits2(v, p[0]) && AllFit2(After2(v, p[0]), p[1..])
  }

  ghost function Final2(v: seq<Reg2>, p: seq<Instr2>): (r: seq<Reg2>)
    requires AllFit2(v, p)
    ensures |r| == |v|
    decreases |p|
  {
    if |p| == 0 then v else Final2(After2(v, p[0]), p[1..])
  }

  /** Every program of FP2 operations on limb arrays, with any sharing and aliasing of registers, leaves in all of them
      field elements that stand for the exact Gaussian integers. */
  method Execute2(prog: seq<Instr2>, regs: seq<array<int>>, m: nat, ghost g: seq<Reg>) returns (ghost h: seq<Reg>)
    requires File(regs, g) && Layout2(g, m) && AllFit2(View(g, m), prog)
    modifies regs
    ensures File(regs, h) && Layout2(h, m) && View(h, m) == Final2(View(g, m), prog)
  {
    h := g;
    var i := 0;
    assert prog[0..] == prog;
    while i < |prog|
      invariant 0 <= i <= |prog| && File(regs, h) && Layout2(h, m) && AllFit2(View(h, m), prog[i..])
      invariant Final2(View(h, m), prog[i..]) == Final2(View(g, m), prog)
    {
      Compiles(h, m, prog[i]);
      Execute(Compiled(prog[i], m), regs, h);
      h := Final(h, Compiled(prog[i], m));
      assert prog[i..][1..] == prog[i + 1..];
      i := i + 1;
    }
  }
}
