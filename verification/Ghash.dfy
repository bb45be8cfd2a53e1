/**
 * GHASH as gcm.c computes it: a table of multiples of H, a product by table look-up, and bytes folded
 * into a running state; against sections 6.3 and 6.4 of NIST SP 800-38D.  Bytes, words and blocks are
 * bit strings, leftmost bit first, as in that standard.
 */
module Ghash {
  const BYTE0: seq<bool> := [false, false, false, false, false, false, false, false]
  const WORD0: seq<bool> := BYTE0 + BYTE0 + BYTE0 + BYTE0

  type Byte = s: seq<bool> | |s| == 8 witness BYTE0
  type Word = s: seq<bool> | |s| == 32 witness WORD0
  type Bits = s: seq<bool> | |s| == 128 witness WORD0 + WORD0 + WORD0 + WORD0

  function Xor(a: seq<bool>, b: seq<bool>): (r: seq<bool>)
    requires |a| == |b|
    ensures |r| == |a| && forall i :: 0 <= i < |r| ==> r[i] == (a[i] != b[i])
  {
    seq(|a|, i requires 0 <= i < |a| => a[i] != b[i])
  }

  // ---------- section 6.3 ----------

  function Zero(): (r: Bits)
    ensures forall i :: 0 <= i < 128 ==> !r[i]
  {
    seq(128, i => false)
  }

  /** R = 11100001 || 0^120 */
  predicate Reduction(i: int) { i == 0 || i == 1 || i == 2 || i == 7 }

  /** Multiplication by the indeterminate: one step to the right, reduced by R if a bit falls out. */
  function TimesX(v: Bits): (r: Bits)
    ensures forall i :: 0 <= i < 128 ==> r[i] == ((i > 0 && v[i - 1]) != (v[127] && Reduction(i)))
  {
    seq(128, i requires 0 <= i < 128 => (i > 0 && v[i - 1]) != (v[127] && Reduction(i)))
  }

  /** V_i: h times the i-th power of the indeterminate. */
  function Power(h: Bits, i: nat): Bits {
    if i == 0 then h else TimesX(Power(h, i - 1))
  }

  /** Z_n */
  function MulTo(x: Bits, h: Bits, n: nat): Bits
    requires n <= 128
  {
    if n == 0 then Zero()
    else if x[n - 1] then Xor(MulTo(x, h, n - 1), Power(h, n - 1)) else MulTo(x, h, n - 1)
  }

  // The product and the streamed hash are pinned down rather than defined outright, so that the solver
  // unfolds them only where a proof asks for it.
  ghost predicate Marked(u: int) { true }

  ghost predicate IsMul(x: Bits, h: Bits, v: Bits) {
    forall u {:trigger Marked(u)} :: Marked(u) && u == 0 ==> v == MulTo(x, h, 128)
  }

  /** The product of section 6.3. */
  ghost function Mul(x: Bits, h: Bits): Bits {
    assert IsMul(x, h, MulTo(x, h, 128));
    var v: Bits :| IsMul(x, h, v);
    v
  }

  lemma MulIs(x: Bits, h: Bits)
    ensures Mul(x, h) == MulTo(x, h, 128)
  {
    assert Marked(0);
  }

  // ---------- it is a product: linear in both arguments, and commutative ----------

  lemma XorRules(a: Bits, b: Bits, c: Bits)
    ensures Xor(a, b) == Xor(b, a) && Xor(Xor(a, b), c) == Xor(a, Xor(b, c)) && Xor(a, Zero()) == a && Xor(a, a) == Zero()
  {
  }

  lemma XorSwap(a: Bits, b: Bits, c: Bits, d: Bits)
    ensures Xor(Xor(a, b), Xor(c, d)) == Xor(Xor(a, c), Xor(b, d))
  {
  }

  lemma TimesXLinear(a: Bits, b: Bits)
    ensures TimesX(Xor(a, b)) == Xor(TimesX(a), TimesX(b))
  {
  }

  lemma TimesXZero()
    ensures TimesX(Zero()) == Zero()
  {
  }

  lemma {:induction false} PowerLinear(a: Bits, b: Bits, i: nat)
    ensures Power(Xor(a, b), i) == Xor(Power(a, i), Power(b, i))
  {
    if i > 0 {
      PowerLinear(a, b, i - 1);
      TimesXLinear(Power(a, i - 1), Power(b, i - 1));
    }
  }

  lemma {:induction false} PowerZero(i: nat)
    ensures Power(Zero(), i) == Zero()
  {
    if i > 0 {
      PowerZero(i - 1);
      TimesXZero();
    }
  }

  lemma {:induction false} PowerAdd(h: Bits, i: nat, j: nat)
    ensures Power(Power(h, j), i) == Power(h, i + j)
  {
    if i > 0 { PowerAdd(h, i - 1, j); }
  }

  lemma {:induction false} MulLinearRight(x: Bits, a: Bits, b: Bits, n: nat)
    requires n <= 128
    ensures MulTo(x, Xor(a, b), n) == Xor(MulTo(x, a, n), MulTo(x, b, n))
  {
    if n == 0 {
      XorRules(Zero(), Zero(), Zero());
    } else {
      MulLinearRight(x, a, b, n - 1);
      PowerLinear(a, b, n - 1);
      XorSwap(MulTo(x, a, n - 1), MulTo(x, b, n - 1), Power(a, n - 1), Power(b, n - 1));
    }
  }

  lemma {:induction false} MulLinearLeft(x: Bits, y: Bits, h: Bits, n: nat)
    requires n <= 128
    ensures MulTo(Xor(x, y), h, n) == Xor(MulTo(x, h, n), MulTo(y, h, n))
  {
    if n == 0 {
      XorRules(Zero(), Zero(), Zero());
    } else {
      MulLinearLeft(x, y, h, n - 1);
      var a, b, p := MulTo(x, h, n - 1), MulTo(y, h, n - 1), Power(h, n - 1);
      XorSwap(a, b, p, p);
      XorRules(p, p, Zero());
      XorRules(a, b, p);
      XorRules(a, p, b);
      XorRules(b, p, a);
      XorRules(p, b, a);
      XorRules(Xor(a, b), Zero(), Zero());
    }
  }

  lemma {:induction false} MulByZero(x: Bits, n: nat)
    requires n <= 128
    ensures MulTo(x, Zero(), n) == Zero()
  {
    if n > 0 {
      MulByZero(x, n - 1);
      PowerZero(n - 1);
      XorRules(Zero(), Zero(), Zero());
    }
  }

  /** The i-th unit vector: the i-th power of the indeterminate. */
  function Unit(i: nat): (r: Bits)
    ensures forall j :: 0 <= j < 128 ==> r[j] == (i == j)
  {
    seq(128, j => i == j)
  }

  lemma {:induction false} UnitIsPower(i: nat)
    requires i < 128
    ensures Power(Unit(0), i) == Unit(i)
  {
    if i > 0 {
      UnitIsPower(i - 1);
      assert TimesX(Unit(i - 1)) == Unit(i);
    }
  }

  /** The first n bits of x. */
  function Prefix(x: Bits, n: nat): (r: Bits)
    ensures forall j :: 0 <= j < 128 ==> r[j] == (j < n && x[j])
  {
    seq(128, j requires 0 <= j < 128 => j < n && x[j])
  }

  lemma PrefixNext(x: Bits, n: nat)
    requires 0 < n <= 128
    ensures Prefix(x, n) == if x[n - 1] then Xor(Prefix(x, n - 1), Unit(n - 1)) else Prefix(x, n - 1)
  {
  }

  /** One bit of the left argument selects one power of the right one. */
  lemma {:induction false} MulUnit(i: nat, h: Bits, n: nat)
    requires i < 128 && n <= 128
    ensures MulTo(Unit(i), h, n) == if i < n then Power(h, i) else Zero()
  {
    if n > 0 {
      MulUnit(i, h, n - 1);
      XorRules(Power(h, i), Zero(), Zero());
      XorRules(Zero(), Power(h, i), Zero());
    }
  }

  /** The unit vectors multiply like the powers they are. */
  lemma UnitsCommute(i: nat, j: nat)
    requires i < 128 && j < 128
    ensures MulTo(Unit(i), Unit(j), 128) == MulTo(Unit(j), Unit(i), 128)
  {
    MulUnit(i, Unit(j), 128);
    MulUnit(j, Unit(i), 128);
    UnitIsPower(i);
    UnitIsPower(j);
    PowerAdd(Unit(0), i, j);
    PowerAdd(Unit(0), j, i);
  }

  lemma {:induction false} UnitCommutes(i: nat, y: Bits, n: nat)
    requires i < 128 && n <= 128
    ensures MulTo(Unit(i), Prefix(y, n), 128) == MulTo(Prefix(y, n), Unit(i), 128)
  {
    if n == 0 {
      assert Prefix(y, 0) == Zero();
      MulByZero(Unit(i), 128);
      ZeroTimes(Unit(i), 128);
    } else {
      UnitCommutes(i, y, n - 1);
      PrefixNext(y, n);
      UnitsCommute(i, n - 1);
      MulLinearRight(Unit(i), Prefix(y, n - 1), Unit(n - 1), 128);
      MulLinearLeft(Prefix(y, n - 1), Unit(n - 1), Unit(i), 128);
    }
  }

  lemma {:induction false} ZeroTimes(h: Bits, n: nat)
    requires n <= 128
    ensures MulTo(Zero(), h, n) == Zero()
  {
    if n > 0 { ZeroTimes(h, n - 1); }
  }

  lemma {:induction false} PrefixCommutes(x: Bits, y: Bits, n: nat)
    requires n <= 128
    ensures MulTo(Prefix(x, n), y, 128) == MulTo(y, Prefix(x, n), 128)
  {
    if n == 0 {
      assert Prefix(x, 0) == Zero();
      MulByZero(y, 128);
      ZeroTimes(y, 128);
    } else {
      PrefixCommutes(x, y, n - 1);
      PrefixNext(x, n);
      UnitCommutes(n - 1, y, 128);
      assert Prefix(y, 128) == y;
      MulLinearRight(y, Prefix(x, n - 1), Unit(n - 1), 128);
      MulLinearLeft(Prefix(x, n - 1), Unit(n - 1), y, 128);
    }
  }

  /** The product does not depend on which argument is scanned and which is shifted. */
  lemma MulCommutes(x: Bits, y: Bits)
    ensures Mul(x, y) == Mul(y, x)
  {
    PrefixCommutes(x, y, 128);
    assert Prefix(x, 128) == x;
    MulIs(x, y);
    MulIs(y, x);
  }

  /** Shifting an argument shifts the product. */
  lemma {:induction false} MulShifted(z: Bits, y: Bits, n: nat)
    requires n <= 128
    ensures MulTo(z, TimesX(y), n) == TimesX(MulTo(z, y, n))
  {
    if n == 0 {
      TimesXZero();
    } else {
      MulShifted(z, y, n - 1);
      assert Power(y, 1) == TimesX(Power(y, 0));
      PowerAdd(y, n - 1, 1);
      TimesXLinear(MulTo(z, y, n - 1), Power(y, n - 1));
    }
  }

  lemma {:induction false} MulPower(y: Bits, z: Bits, i: nat)
    ensures Mul(Power(y, i), z) == Power(Mul(y, z), i)
  {
    if i > 0 {
      var p := Power(y, i - 1);
      MulPower(y, z, i - 1);
      MulCommutes(TimesX(p), z);
      MulCommutes(p, z);
      MulIs(z, TimesX(p));
      MulIs(z, p);
      MulShifted(z, p, 128);
    }
  }

  lemma {:induction false} PrefixAssociates(x: Bits, y: Bits, z: Bits, n: nat)
    requires n <= 128
    ensures Mul(Mul(Prefix(x, n), y), z) == Mul(Prefix(x, n), Mul(y, z))
  {
    if n == 0 {
      assert Prefix(x, 0) == Zero();
      ZeroMul(y);
      ZeroMul(z);
      ZeroMul(Mul(y, z));
    } else {
      PrefixAssociates(x, y, z, n - 1);
      PrefixNext(x, n);
      var p, u := Prefix(x, n - 1), Unit(n - 1);
      UnitMul(n - 1, y);
      UnitMul(n - 1, Mul(y, z));
      MulPower(y, z, n - 1);
      MulSum(p, u, y);
      MulSum(p, u, Mul(y, z));
      MulSum(Mul(p, y), Mul(u, y), z);
    }
  }

  lemma ZeroMul(h: Bits)
    ensures Mul(Zero(), h) == Zero()
  {
    MulIs(Zero(), h);
    ZeroTimes(h, 128);
  }

  lemma UnitMul(i: nat, h: Bits)
    requires i < 128
    ensures Mul(Unit(i), h) == Power(h, i)
  {
    MulIs(Unit(i), h);
    MulUnit(i, h, 128);
  }

  lemma MulSum(x: Bits, y: Bits, h: Bits)
    ensures Mul(Xor(x, y), h) == Xor(Mul(x, h), Mul(y, h))
  {
    MulIs(Xor(x, y), h);
    MulIs(x, h);
    MulIs(y, h);
    MulLinearLeft(x, y, h, 128);
  }

  lemma MulAssociates(x: Bits, y: Bits, z: Bits)
    ensures Mul(Mul(x, y), z) == Mul(x, Mul(y, z))
  {
    PrefixAssociates(x, y, z, 128);
    assert Prefix(x, 128) == x;
  }

  /** With the linear, commutative and associative product, bit i is the i-th power of the indeterminate, and the 128th
      power is 1 + x + x^2 + x^7: it is the product modulo x^128 + x^7 + x^2 + x + 1. */
  lemma Polynomial(h: Bits, i: nat)
    requires i < 127
    ensures Mul(Unit(0), h) == h && Mul(Unit(1), Unit(i)) == Unit(i + 1)
    ensures forall j :: 0 <= j < 128 ==> (Mul(Unit(1), Unit(127))[j] <==> j in {0, 1, 2, 7})
  {
    UnitMul(0, h);
    UnitMul(1, Unit(i));
    UnitMul(1, Unit(127));
    assert Power(Unit(i), 1) == TimesX(Power(Unit(i), 0));
    assert Power(Unit(127), 1) == TimesX(Power(Unit(127), 0));
    assert TimesX(Unit(i)) == Unit(i + 1);
  }

  // ---------- words, bytes, blocks ----------

  function RowBits(r: seq<Word>): (v: Bits)
    requires |r| == 4
    ensures forall i :: 0 <= i < 128 ==> v[i] == r[i / 32][i % 32]
  {
    seq(128, i requires 0 <= i < 128 => r[i / 32][i % 32])
  }

  function BlockBits(s: seq<Byte>): (v: Bits)
    requires |s| == 16
    ensures forall i :: 0 <= i < 128 ==> v[i] == s[i / 8][i % 8]
  {
    seq(128, i requires 0 <= i < 128 => s[i / 8][i % 8])
  }

  /** unpack: the bytes of a word. */
  function Unpack(w: Word): (r: seq<Byte>)
    ensures |r| == 4
  {
    [w[0..8], w[8..16], w[16..24], w[24..32]]
  }

  /** pack: the word of four bytes. */
  function Pack(b: seq<Byte>): Word
    requires |b| == 4
  {
    var a: seq<bool> := b[0];
    a + b[1] + b[2] + b[3]
  }

  /** last[j] >> 1 with the bit that left last[j-1] carried in. */
  function ShiftIn(c: bool, w: Word): Word { [c] + w[..31] }

  /** 0xE1000000 */
  function ReductionWord(): (r: Word)
    ensures forall i :: 0 <= i < 32 ==> r[i] == Reduction(i)
  {
    seq(32, i => Reduction(i))
  }

  /** One row of the table from the one before, as precompute does it word by word. */
  function NextRow(last: seq<Word>): (next: seq<Word>)
    requires |last| == 4
    ensures |next| == 4
  {
    var r0 := ShiftIn(false, last[0]);
    [if last[3][31] then Xor(r0, ReductionWord()) else r0,
     ShiftIn(last[0][31], last[1]), ShiftIn(last[1][31], last[2]), ShiftIn(last[2][31], last[3])]
  }

  lemma NextRowIsTimesX(last: seq<Word>)
    requires |last| == 4
    ensures RowBits(NextRow(last)) == TimesX(RowBits(last))
  {
    forall i | 0 <= i < 128 ensures RowBits(NextRow(last))[i] == TimesX(RowBits(last))[i] {
      NextRowAt(last, i, i / 32, i % 32);
    }
  }

  lemma NextRowAt(last: seq<Word>, i: nat, k: nat, j: nat)
    requires |last| == 4 && k < 4 && j < 32 && i == 32 * k + j
    ensures RowBits(NextRow(last))[i] == TimesX(RowBits(last))[i]
  {
    assert i / 32 == k && i % 32 == j;
    if k == 0 { FirstWord(last, i); } else { LaterWord(last, i, k, j); }
  }

  lemma FirstWord(last: seq<Word>, i: nat)
    requires |last| == 4 && i < 32
    ensures NextRow(last)[0][i] == TimesX(RowBits(last))[i]
  {
    if i > 0 { assert RowBits(last)[i - 1] == last[0][i - 1]; }
    assert RowBits(last)[127] == last[3][31];
  }

  lemma LaterWord(last: seq<Word>, i: nat, k: nat, j: nat)
    requires |last| == 4 && 0 < k < 4 && j < 32 && i == 32 * k + j
    ensures NextRow(last)[k][j] == TimesX(RowBits(last))[i]
  {
    var v := RowBits(last);
    LaterShift(last, k, j);
    BitBefore(last, i, k, j);
    assert TimesX(v)[i] == v[i - 1];
  }

  lemma LaterShift(last: seq<Word>, k: nat, j: nat)
    requires |last| == 4 && 0 < k < 4 && j < 32
    ensures NextRow(last)[k][j] == if j > 0 then last[k][j - 1] else last[k - 1][31]
  {
    if k == 1 {
      assert NextRow(last)[1] == ShiftIn(last[0][31], last[1]);
    } else if k == 2 {
      assert NextRow(last)[2] == ShiftIn(last[1][31], last[2]);
    } else {
      assert NextRow(last)[3] == ShiftIn(last[2][31], last[3]);
    }
  }

  lemma BitBefore(last: seq<Word>, i: nat, k: nat, j: nat)
    requires |last| == 4 && 0 < k < 4 && j < 32 && i == 32 * k + j
    ensures RowBits(last)[i - 1] == if j > 0 then last[k][j - 1] else last[k - 1][31]
  {
    assert RowBits(last)[i - 1] == last[(i - 1) / 32][(i - 1) % 32];
    if j > 0 {
      assert (i - 1) / 32 == k && (i - 1) % 32 == j - 1;
    } else {
      assert (i - 1) / 32 == k - 1 && (i - 1) % 32 == 31;
    }
  }

  /** P[k] ^= table[i][k] & b, for a mask b of all ones. */
  function XorRows(a: seq<Word>, b: seq<Word>): (r: seq<Word>)
    requires |a| == |b| == 4
    ensures |r| == 4
  {
    [Xor(a[0], b[0]), Xor(a[1], b[1]), Xor(a[2], b[2]), Xor(a[3], b[3])]
  }

  lemma XorRowsBits(a: seq<Word>, b: seq<Word>)
    requires |a| == |b| == 4
    ensures RowBits(XorRows(a, b)) == Xor(RowBits(a), RowBits(b))
  {
  }

  function UnpackRow(r: seq<Word>): (s: seq<Byte>)
    requires |r| == 4
    ensures |s| == 16
  {
    Unpack(r[0]) + Unpack(r[1]) + Unpack(r[2]) + Unpack(r[3])
  }

  lemma UnpackRowBits(r: seq<Word>)
    requires |r| == 4
    ensures BlockBits(UnpackRow(r)) == RowBits(r)
  {
    forall i | 0 <= i < 128 ensures BlockBits(UnpackRow(r))[i] == RowBits(r)[i] {
      var k := i / 32;
      var b := i - 32 * k;
      UnpackRowAt(r, i, k, b / 8, b % 8);
    }
  }

  lemma UnpackRowAt(r: seq<Word>, i: nat, k: nat, m: nat, j: nat)
    requires |r| == 4 && k < 4 && m < 4 && j < 8 && i == 32 * k + 8 * m + j
    ensures BlockBits(UnpackRow(r))[i] == RowBits(r)[i]
  {
    assert i / 8 == 4 * k + m && i % 8 == j && i / 32 == k && i % 32 == 8 * m + j;
    UnpackAt(r[k], m, j);
    assert UnpackRow(r)[4 * k + m] == Unpack(r[k])[m];
  }

  lemma UnpackAt(w: Word, m: nat, j: nat)
    requires m < 4 && j < 8
    ensures Unpack(w)[m][j] == w[8 * m + j]
  {
  }

  // ---------- section 6.4, and the streamed form ----------

  function ZeroBytes(n: nat): (r: seq<Byte>)
    ensures |r| == n && forall i :: 0 <= i < n ==> r[i] == BYTE0
  {
    seq(n, i => BYTE0)
  }

  /** s with as many zero bytes as complete its last block. */
  function Pad(s: seq<Byte>): (r: seq<Byte>)
    ensures |r| % 16 == 0
  {
    s + ZeroBytes((16 - |s| % 16) % 16)
  }

  /** GHASH of whole blocks, from the intermediate value x. */
  ghost function Fold(h: Bits, x: Bits, s: seq<Byte>): Bits
    requires |s| % 16 == 0
    decreases |s|
  {
    if |s| == 0 then x else Fold(h, Mul(Xor(x, BlockBits(s[..16])), h), s[16..])
  }

  /** h to the n-th power, for the product of section 6.3. */
  ghost function Raised(h: Bits, n: nat): Bits { if n == 0 then Unit(0) else Mul(h, Raised(h, n - 1)) }

  /** The sum of the blocks, the last one times h, the one before it times the square of h, and so on. */
  ghost function Weighted(h: Bits, s: seq<Byte>): Bits
    requires |s| % 16 == 0
    decreases |s|
  {
    if |s| == 0 then Zero() else Xor(Mul(BlockBits(s[..16]), Raised(h, |s| / 16)), Weighted(h, s[16..]))
  }

  lemma MulOne(x: Bits)
    ensures Mul(x, Unit(0)) == x
  {
    UnitMul(0, x);
    MulCommutes(x, Unit(0));
  }

  /** GHASH is a polynomial in the subkey, whose coefficients are the blocks. */
  lemma {:induction false} FoldIsWeighted(h: Bits, x: Bits, s: seq<Byte>)
    requires |s| % 16 == 0
    ensures Fold(h, x, s) == Xor(Mul(x, Raised(h, |s| / 16)), Weighted(h, s))
    decreases |s|
  {
    if |s| == 0 {
      MulOne(x);
      XorRules(x, Zero(), Zero());
    } else {
      var b, n := BlockBits(s[..16]), |s| / 16;
      var r := Raised(h, n - 1);
      FoldIsWeighted(h, Mul(Xor(x, b), h), s[16..]);
      MulAssociates(Xor(x, b), h, r);
      MulSum(x, b, Raised(h, n));
      XorRules(Mul(x, Raised(h, n)), Mul(b, Raised(h, n)), Weighted(h, s[16..]));
    }
  }

  ghost predicate IsTurn(h: Bits, x: Bits, s: seq<Byte>, v: Bits)
    requires |s| <= 16
  {
    forall u {:trigger Marked(u)} :: Marked(u) && u == 2 ==> v == Mul(Xor(x, BlockBits(s + ZeroBytes(16 - |s|))), h)
  }

  /** One turn of the byte loops of gcm.c: up to 16 bytes are added to the state, then it is multiplied. */
  ghost function Turn(h: Bits, x: Bits, s: seq<Byte>): Bits
    requires |s| <= 16
  {
    assert IsTurn(h, x, s, Mul(Xor(x, BlockBits(s + ZeroBytes(16 - |s|))), h));
    var v: Bits :| IsTurn(h, x, s, v);
    v
  }

  lemma TurnIs(h: Bits, x: Bits, s: seq<Byte>)
    requires |s| <= 16
    ensures Turn(h, x, s) == Mul(Xor(x, BlockBits(s + ZeroBytes(16 - |s|))), h)
  {
    assert Marked(2);
  }

  ghost function AbsorbTo(h: Bits, x: Bits, s: seq<Byte>): Bits
    decreases |s|
  {
    if |s| == 0 then x
    else if |s| <= 16 then Turn(h, x, s)
    else AbsorbTo(h, Turn(h, x, s[..16]), s[16..])
  }

  ghost predicate IsAbsorb(h: Bits, x: Bits, s: seq<Byte>, v: Bits) {
    forall u {:trigger Marked(u)} :: Marked(u) && u == 1 ==> v == AbsorbTo(h, x, s)
  }

  /** The byte loops as a whole. */
  ghost function Absorb(h: Bits, x: Bits, s: seq<Byte>): Bits {
    assert IsAbsorb(h, x, s, AbsorbTo(h, x, s));
    var v: Bits :| IsAbsorb(h, x, s, v);
    v
  }

  lemma AbsorbIs(h: Bits, x: Bits, s: seq<Byte>)
    ensures Absorb(h, x, s) == AbsorbTo(h, x, s)
  {
    assert Marked(1);
  }

  lemma AbsorbNone(h: Bits, x: Bits)
    ensures Absorb(h, x, []) == x
  {
    AbsorbIs(h, x, []);
  }

  lemma AbsorbShort(h: Bits, x: Bits, s: seq<Byte>)
    requires 0 < |s| <= 16
    ensures Absorb(h, x, s) == Turn(h, x, s)
  {
    AbsorbIs(h, x, s);
  }

  lemma AbsorbLong(h: Bits, x: Bits, s: seq<Byte>)
    requires |s| >= 16
    ensures Absorb(h, x, s) == Absorb(h, Turn(h, x, s[..16]), s[16..])
  {
    AbsorbIs(h, x, s);
    if |s| == 16 { assert s[..16] == s && s[16..] == []; }
    AbsorbIs(h, Turn(h, x, s[..16]), s[16..]);
  }

  lemma TurnOfBlock(h: Bits, x: Bits, s: seq<Byte>)
    requires |s| == 16
    ensures Turn(h, x, s) == Mul(Xor(x, BlockBits(s)), h)
  {
    TurnIs(h, x, s);
    assert s + ZeroBytes(0) == s;
  }

  /** The streamed state is GHASH of the padded bytes. */
  lemma {:induction false} AbsorbIsFold(h: Bits, x: Bits, s: seq<Byte>)
    ensures Absorb(h, x, s) == Fold(h, x, Pad(s))
    decreases |s|
  {
    if |s| == 0 {
      assert Pad(s) == s == [];
      AbsorbNone(h, x);
    } else if |s| <= 16 {
      AbsorbShort(h, x, s);
      TurnIs(h, x, s);
      PadShort(s);
      FoldBlock(h, x, Pad(s));
    } else {
      AbsorbLong(h, x, s);
      AbsorbIsFold(h, Turn(h, x, s[..16]), s[16..]);
      TurnOfBlock(h, x, s[..16]);
      PadLong(s);
    }
  }

  lemma PadShort(s: seq<Byte>)
    requires 0 < |s| <= 16
    ensures Pad(s) == s + ZeroBytes(16 - |s|)
  {
  }

  lemma PadLong(s: seq<Byte>)
    requires |s| > 16
    ensures |Pad(s)| > 16 && Pad(s)[..16] == s[..16] && Pad(s)[16..] == Pad(s[16..])
  {
  }

  lemma FoldBlock(h: Bits, x: Bits, t: seq<Byte>)
    requires |t| == 16
    ensures Fold(h, x, t) == Mul(Xor(x, BlockBits(t)), h)
  {
    assert t[..16] == t && t[16..] == [];
  }

  lemma {:induction false} FoldSplit(h: Bits, x: Bits, s: seq<Byte>, t: seq<Byte>)
    requires |s| % 16 == 0 && |t| % 16 == 0
    ensures Fold(h, x, s + t) == Fold(h, Fold(h, x, s), t)
    decreases |s|
  {
    if |s| == 0 {
      assert s + t == t;
    } else {
      assert (s + t)[..16] == s[..16] && (s + t)[16..] == s[16..] + t;
      FoldSplit(h, Mul(Xor(x, BlockBits(s[..16])), h), s[16..], t);
    }
  }

  /** Bytes may arrive in any pieces that are whole blocks, except the last. */
  lemma {:induction false} AbsorbSplit(h: Bits, x: Bits, s: seq<Byte>, t: seq<Byte>)
    requires |s| % 16 == 0
    ensures Absorb(h, x, s + t) == Absorb(h, Absorb(h, x, s), t)
    decreases |s|
  {
    if |s| == 0 {
      assert s + t == t && s == [];
      AbsorbNone(h, x);
    } else {
      assert (s + t)[..16] == s[..16] && (s + t)[16..] == s[16..] + t;
      AbsorbLong(h, x, s);
      AbsorbLong(h, x, s + t);
      AbsorbSplit(h, Turn(h, x, s[..16]), s[16..], t);
    }
  }

  // ---------- numbers as bit strings ----------

  function NatBits(n: nat, k: nat): (r: seq<bool>)
    ensures |r| == k
  {
    if k == 0 then [] else NatBits(n / 2, k - 1) + [n % 2 == 1]
  }

  function BitsNat(b: seq<bool>): nat {
    if |b| == 0 then 0 else 2 * BitsNat(b[..|b| - 1]) + (if b[|b| - 1] then 1 else 0)
  }

  lemma {:induction false} BitsNatBits(b: seq<bool>)
    ensures NatBits(BitsNat(b), |b|) == b
  {
    if |b| > 0 {
      var c, n := b[..|b| - 1], BitsNat(b);
      BitsNatBits(c);
      assert n / 2 == BitsNat(c) && (n % 2 == 1) == b[|b| - 1];
      assert NatBits(n, |b|) == NatBits(n / 2, |c|) + [n % 2 == 1];
      assert b == c + [b[|b| - 1]];
    }
  }

  function Two(n: nat): (r: nat)
    ensures r > 0
  {
    if n == 0 then 1 else 2 * Two(n - 1)
  }

  lemma {:induction false} NatBitsBack(n: nat, k: nat)
    requires n < Two(k)
    ensures BitsNat(NatBits(n, k)) == n
    decreases k
  {
    if k > 0 {
      NatBitsBack(n / 2, k - 1);
      var r := NatBits(n, k);
      assert r[..|r| - 1] == NatBits(n / 2, k - 1);
    }
  }

  lemma {:induction false} BitsNatBound(b: seq<bool>)
    ensures BitsNat(b) < Two(|b|)
  {
    if |b| > 0 { BitsNatBound(b[..|b| - 1]); }
  }

  lemma Doubled(x: int, y: int)
    ensures x * (2 * y) == 2 * (x * y)
  {
  }

  lemma {:induction false} BitsNatConcat(a: seq<bool>, b: seq<bool>)
    ensures BitsNat(a + b) == BitsNat(a) * Two(|b|) + BitsNat(b)
    decreases |b|
  {
    if |b| == 0 {
      assert a + b == a;
    } else {
      var c, n := b[..|b| - 1], Two(|b| - 1);
      BitsNatConcat(a, c);
      assert (a + b)[..|a + b| - 1] == a + c;
      Doubled(BitsNat(a), n);
    }
  }

  lemma LastBit(n: nat, e: nat, lo: nat, k: nat)
    requires n == 2 * e + lo && k > 0
    ensures NatBits(n, k) == NatBits(e + lo / 2, k - 1) + [lo % 2 == 1]
  {
    assert n / 2 == e + lo / 2 && n % 2 == lo % 2;
  }

  lemma {:induction false} NatBitsConcat(hi: nat, lo: nat, k: nat, m: nat)
    requires lo < Two(m)
    ensures NatBits(hi * Two(m) + lo, k + m) == NatBits(hi, k) + NatBits(lo, m)
    decreases m
  {
    if m > 0 {
      var n, e := hi * Two(m) + lo, hi * Two(m - 1);
      Doubled(hi, Two(m - 1));
      NatBitsConcat(hi, lo / 2, k, m - 1);
      LastBit(n, e, lo, k + m);
    }
  }

  // ---------- the length block ----------

  const TWO32: int := 0x1_0000_0000
  const TWO64: int := 0x1_0000_0000_0000_0000

  function WORD_BITS(): nat { 32 }

  /** [len(A)]64 || [len(C)]64, for lengths given in bytes. */
  function LenBits(a: nat, c: nat): Bits {
    NatBits((8 * a) % TWO64, 2 * WORD_BITS()) + NatBits((8 * c) % TWO64, 2 * WORD_BITS())
  }

  /** A block cut into its bytes. */
  function Chop(v: Bits): (r: seq<Byte>)
    ensures |r| == 16
  {
    seq(16, i requires 0 <= i < 16 => v[8 * i..8 * i + 8])
  }

  lemma ChopBits(v: Bits)
    ensures BlockBits(Chop(v)) == v
  {
    forall i | 0 <= i < 128 ensures BlockBits(Chop(v))[i] == v[i] {
      assert Chop(v)[i / 8] == v[8 * (i / 8)..8 * (i / 8) + 8];
    }
  }

  /** The two words that GCM_wrap makes of a two-word byte counter. */
  function LengthWords(hi: nat, lo: nat): (int, int) { ((hi * 8) % TWO32 + lo / 0x2000_0000, (lo * 8) % TWO32) }

  lemma LengthWordsValue(hi: nat, lo: nat, n: nat)
    requires hi < TWO32 && lo < TWO32 && hi * TWO32 + lo == n % TWO64
    ensures var (f, g) := LengthWords(hi, lo);
      0 <= f < TWO32 && 0 <= g < TWO32 && f * TWO32 + g == (8 * n) % TWO64
  {
    var (f, g) := LengthWords(hi, lo);
    var q := n / 0x1_0000_0000_0000_0000;
    assert n == q * 0x1_0000_0000_0000_0000 + hi * 0x1_0000_0000 + lo;
    var h := hi / 0x2000_0000;
    assert hi * 8 == h * 0x1_0000_0000 + (hi * 8) % 0x1_0000_0000;
    assert lo * 8 == (lo / 0x2000_0000) * 0x1_0000_0000 + (lo * 8) % 0x1_0000_0000;
    assert 8 * n == (8 * q + h) * 0x1_0000_0000_0000_0000 + (f * 0x1_0000_0000 + g);
  }

  lemma {:induction false} TwoIs()
    ensures Two(32) == TWO32
  {
    assert Two(8) == 256;
    assert Two(16) == 0x1_0000;
    assert Two(24) == 0x100_0000;
  }

  /** The length block as four words. */
  lemma LenRow(f0: nat, f1: nat, a: nat, f2: nat, f3: nat, c: nat)
    requires f1 < TWO32 && f0 * TWO32 + f1 == (8 * a) % TWO64
    requires f3 < TWO32 && f2 * TWO32 + f3 == (8 * c) % TWO64
    ensures RowBits([NatBits(f0, WORD_BITS()), NatBits(f1, WORD_BITS()), NatBits(f2, WORD_BITS()), NatBits(f3, WORD_BITS())]) == LenBits(a, c)
  {
    TwoWords(f0, f1, (8 * a) % TWO64);
    TwoWords(f2, f3, (8 * c) % TWO64);
    FourWords(NatBits(f0, WORD_BITS()), NatBits(f1, WORD_BITS()), NatBits(f2, WORD_BITS()), NatBits(f3, WORD_BITS()));
  }

  lemma TwoWords(f: nat, g: nat, n: nat)
    requires g < TWO32 && f * TWO32 + g == n
    ensures NatBits(n, 2 * WORD_BITS()) == NatBits(f, WORD_BITS()) + NatBits(g, WORD_BITS())
  {
    TwoIs();
    NatBitsConcat(f, g, WORD_BITS(), WORD_BITS());
  }

  lemma FourWords(a: Word, b: Word, c: Word, d: Word)
    ensures var x: seq<bool> := a; var y: seq<bool> := c; RowBits([a, b, c, d]) == (x + b) + (y + d)
  {
  }

  // ---------- counter mode ----------

  type Block = s: seq<Byte> | |s| == 16
    witness [BYTE0, BYTE0, BYTE0, BYTE0, BYTE0, BYTE0, BYTE0, BYTE0, BYTE0, BYTE0, BYTE0, BYTE0, BYTE0, BYTE0, BYTE0, BYTE0]

  /** A 32-bit counter, incremented modulo 2^32. */
  function IncWord(w: Word): Word { NatBits((BitsNat(w) + 1) % TWO32, WORD_BITS()) }

  function IncBytes(b: Block): Block { b[..12] + Unpack(IncWord(Pack(b[12..16]))) }

  ghost predicate IsInc(b: Block, v: Block) {
    forall u {:trigger Marked(u)} :: Marked(u) && u == 3 ==> v == IncBytes(b)
  }

  /** inc32 of section 6.2: the last four bytes of the block count. */
  ghost function Inc(b: Block): Block {
    assert IsInc(b, IncBytes(b));
    var v: Block :| IsInc(b, v);
    v
  }

  lemma IncIs(b: Block)
    ensures Inc(b) == IncBytes(b)
  {
    assert Marked(3);
  }

  function XorBytes(a: seq<Byte>, b: seq<Byte>): (r: seq<Byte>)
    requires |a| <= |b|
    ensures |r| == |a|
  {
    seq(|a|, i requires 0 <= i < |a| => Xor(a[i], b[i]))
  }

  /** The counter block after n blocks. */
  ghost function After(c: Block, n: nat): Block {
    if n == 0 then c else Inc(After(c, n - 1))
  }

  /** Block i of the key stream: the first one uses the counter after c. */
  ghost function KeyStream(e: Block -> Block, c: Block): nat -> Block { i => e(After(c, i + 1)) }

  ghost function CtrTo(ks: nat -> Block, i: nat, s: seq<Byte>): (r: seq<Byte>)
    ensures |r| == |s|
    decreases |s|
  {
    if |s| == 0 then []
    else if |s| <= 16 then XorBytes(s, ks(i))
    else XorBytes(s[..16], ks(i)) + CtrTo(ks, i + 1, s[16..])
  }

  ghost predicate IsCtr(ks: nat -> Block, i: nat, s: seq<Byte>, v: seq<Byte>) {
    |v| == |s| && forall u {:trigger Marked(u)} :: Marked(u) && u == 5 ==> v == CtrTo(ks, i, s)
  }

  /** GCTR of section 6.5, from block i of the key stream on. */
  ghost function Ctr(ks: nat -> Block, i: nat, s: seq<Byte>): (r: seq<Byte>)
    ensures |r| == |s|
  {
    assert IsCtr(ks, i, s, CtrTo(ks, i, s));
    var v :| IsCtr(ks, i, s, v);
    v
  }

  lemma CtrIs(ks: nat -> Block, i: nat, s: seq<Byte>)
    ensures Ctr(ks, i, s) == CtrTo(ks, i, s)
  {
    assert Marked(5);
  }

  lemma CtrShort(ks: nat -> Block, i: nat, s: seq<Byte>)
    requires 0 < |s| <= 16
    ensures Ctr(ks, i, s) == XorBytes(s, ks(i))
  {
    CtrIs(ks, i, s);
  }

  lemma CtrBlock(ks: nat -> Block, i: nat, s: seq<Byte>, t: seq<Byte>)
    requires |s| == 16
    ensures Ctr(ks, i, s + t) == XorBytes(s, ks(i)) + Ctr(ks, i + 1, t)
  {
    CtrIs(ks, i, s + t);
    CtrIs(ks, i + 1, t);
    assert (s + t)[..16] == s && (s + t)[16..] == t;
    if |t| == 0 { assert s + t == s; }
  }

  lemma XorTwice(a: seq<Byte>, b: seq<Byte>)
    requires |a| <= |b|
    ensures XorBytes(XorBytes(a, b), b) == a
  {
    forall i | 0 <= i < |a| ensures XorBytes(XorBytes(a, b), b)[i] == a[i] {
      assert Xor(Xor(a[i], b[i]), b[i]) == a[i];
    }
  }

  /** Byte k of the text meets byte k % 16 of block k / 16 of the key stream. */
  lemma {:induction false} CtrAt(ks: nat -> Block, i: nat, s: seq<Byte>, k: nat)
    requires k < |s|
    ensures CtrTo(ks, i, s)[k] == Xor(s[k], ks(i + k / 16)[k % 16])
    decreases k
  {
    if k >= 16 {
      CtrAt(ks, i + 1, s[16..], k - 16);
      assert (k - 16) / 16 == k / 16 - 1 && (k - 16) % 16 == k % 16;
    }
  }

  /** Decryption undoes encryption. */
  lemma {:induction false} CtrTwice(ks: nat -> Block, i: nat, s: seq<Byte>)
    ensures Ctr(ks, i, Ctr(ks, i, s)) == s
    decreases |s|
  {
    if |s| == 0 {
    } else if |s| <= 16 {
      CtrShort(ks, i, s);
      CtrShort(ks, i, XorBytes(s, ks(i)));
      XorTwice(s, ks(i));
    } else {
      var a, b := s[..16], s[16..];
      assert a + b == s;
      XorTwice(a, ks(i));
      CtrTwice(ks, i + 1, b);
      CtrBlock(ks, i, a, b);
      CtrBlock(ks, i, XorBytes(a, ks(i)), Ctr(ks, i + 1, b));
    }
  }

  lemma Regroup(ks: nat -> Block, i: nat, s: seq<Byte>, t: seq<Byte>, a: seq<Byte>, b: seq<Byte>,
                x: seq<Byte>, y: seq<Byte>, z: seq<Byte>)
    requires s == a + b && Ctr(ks, i, a + b) == x + y && Ctr(ks, i, a + (b + t)) == x + (y + z)
    ensures Ctr(ks, i, s + t) == Ctr(ks, i, s) + z
  {
    assert a + (b + t) == s + t;
    assert x + (y + z) == (x + y) + z;
  }

  /** Text may arrive in pieces of whole blocks. */
  lemma {:induction false} CtrSplit(ks: nat -> Block, i: nat, s: seq<Byte>, t: seq<Byte>, n: nat)
    requires |s| == 16 * n
    ensures Ctr(ks, i, s + t) == Ctr(ks, i, s) + Ctr(ks, i + n, t)
    decreases n
  {
    if n == 0 {
      assert s + t == t;
    } else {
      var a, b := s[..16], s[16..];
      CtrSplit(ks, i + 1, b, t, n - 1);
      CtrBlock(ks, i, a, b);
      CtrBlock(ks, i, a, b + t);
      Regroup(ks, i, s, t, a, b, XorBytes(a, ks(i)), Ctr(ks, i + 1, b), Ctr(ks, i + n, t));
    }
  }
}
