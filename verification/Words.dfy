/** Machine words: the masks and bit tricks that the sources use instead of branches.  A word is the string of its bits,
    lowest first, in two's complement. */
module Words {
  import opened Arith

  type Word = seq<bool>

  function Size(): nat { 32 }

  /** The last n bits of x: the quotient rounds down, so a negative number comes out in two's complement. */
  function Bits(x: int, n: nat): (w: Word)
    ensures |w| == n
    decreases n
  {
    if n == 0 then [] else [x % 2 == 1] + Bits(x / 2, n - 1)
  }

  /** The number a word stands for: its top bit counts negatively. */
  function Signed(w: Word): int {
    if |w| == 0 then 0 else if |w| == 1 then (if w[0] then -1 else 0)
    else (if w[0] then 1 else 0) + 2 * Signed(w[1..])
  }

  function Xor(a: Word, b: Word): (r: Word)
    requires |a| == |b|
    ensures |r| == |a|
  {
    seq(|a|, i requires 0 <= i < |a| => a[i] != b[i])
  }

  function And(a: Word, b: Word): (r: Word)
    requires |a| == |b|
    ensures |r| == |a|
  {
    seq(|a|, i requires 0 <= i < |a| => a[i] && b[i])
  }

  function Or(a: Word, b: Word): (r: Word)
    requires |a| == |b|
    ensures |r| == |a|
  {
    seq(|a|, i requires 0 <= i < |a| => a[i] || b[i])
  }

  /** A value of a signed type of n bits. */
  ghost predicate Fits(x: int, n: nat) { n > 0 && -Pow(2, n - 1) <= x < Pow(2, n - 1) }

  lemma {:induction false} RoundTrip(x: int, n: nat)
    requires Fits(x, n)
    ensures Signed(Bits(x, n)) == x && (Bits(x, n)[n - 1] <==> x < 0)
    decreases n
  {
    if n > 1 {
      RoundTrip(x / 2, n - 1);
      assert Bits(x, n)[1..] == Bits(x / 2, n - 1);
    }
  }

  lemma ChunkFits(x: int)
    requires -0x8000_0000 <= x < 0x8000_0000
    ensures Fits(x, Size())
  {
    assert Pow(2, 1) == 2 && Pow(2, 2) == 4 && Pow(2, 3) == 8;
    PowAdd(2, 2, 2);
    PowAdd(2, 4, 4);
    PowAdd(2, 8, 8);
    PowAdd(2, 16, 8);
    PowAdd(2, 24, 4);
    PowAdd(2, 28, 3);
  }

  /** -1 is all ones and 0 all zeros. */
  lemma {:induction false} Mask(x: int, n: nat)
    requires x == 0 || x == -1
    ensures forall i :: 0 <= i < n ==> Bits(x, n)[i] == (x == -1)
  {
    if n > 0 {
      Mask(x, n - 1);
      assert x / 2 == x && x % 2 == -x;
      assert Bits(x, n) == [x == -1] + Bits(x, n - 1);
    }
  }

  // ---------- masked moves ----------

  /** f ^ ((f ^ g) & -d) */
  function Masked(f: Word, g: Word, d: int): Word
    requires |f| == |g|
  {
    Xor(f, And(Xor(f, g), Bits(-d, |f|)))
  }

  lemma MaskedIs(f: Word, g: Word, d: int)
    requires |f| == |g| && (d == 0 || d == 1)
    ensures Masked(f, g, d) == if d == 1 then g else f
  {
    var x := -d;
    Mask(x, |f|);
    assert forall i :: 0 <= i < |f| ==> Bits(x, |f|)[i] == (d == 1);
  }

  /** A chunk moved under a mask, as in BIG_cmove. */
  method Move(f: int, g: int, d: int) returns (r: int)
    requires -0x8000_0000 <= f < 0x8000_0000 && -0x8000_0000 <= g < 0x8000_0000 && (d == 0 || d == 1)
    ensures r == if d == 1 then g else f
  {
    r := Signed(Masked(Bits(f, Size()), Bits(g, Size()), d));
    MaskedIs(Bits(f, Size()), Bits(g, Size()), d);
    ChunkFits(f);
    ChunkFits(g);
    RoundTrip(f, Size());
    RoundTrip(g, Size());
  }

  /** Two chunks swapped under a mask, as in BIG_cswap: t = (f ^ g) & -d is added to both. */
  method Swap(f: int, g: int, d: int) returns (f': int, g': int)
    requires -0x8000_0000 <= f < 0x8000_0000 && -0x8000_0000 <= g < 0x8000_0000 && (d == 0 || d == 1)
    ensures (f', g') == if d == 1 then (g, f) else (f, g)
  {
    var a, b := Bits(f, Size()), Bits(g, Size());
    var t := And(Bits(-d, Size()), Xor(a, b));
    f', g' := Signed(Xor(a, t)), Signed(Xor(b, t));
    SwapIs(a, b, d);
    ChunkFits(f);
    ChunkFits(g);
    RoundTrip(f, Size());
    RoundTrip(g, Size());
  }

  lemma SwapIs(a: Word, b: Word, d: int)
    requires |a| == |b| && (d == 0 || d == 1)
    ensures var t := And(Bits(-d, |a|), Xor(a, b)); Xor(a, t) == (if d == 1 then b else a) && Xor(b, t) == (if d == 1 then a else b)
  {
    var x := -d;
    Mask(x, |a|);
    assert forall i :: 0 <= i < |a| ==> Bits(x, |a|)[i] == (d == 1);
  }

  // ---------- pieces put together ----------

  lemma {:induction false} OrIsSum(a: int, b: int, k: nat, n: nat)
    requires Fits(a + b, n) && Pow(2, k) > 0 && a % Pow(2, k) == 0 && 0 <= b < Pow(2, k) && a >= 0
    ensures Signed(Or(Bits(a, n), Bits(b, n))) == a + b
    decreases n
  {
    var w := Or(Bits(a, n), Bits(b, n));
    if k == 0 {
      Mask(0, n);
      assert w == Bits(a, n);
      RoundTrip(a, n);
    } else if n > 1 {
      Halves(a, b, k);
      OrIsSum(a / 2, b / 2, k - 1, n - 1);
      assert w[1..] == Or(Bits(a / 2, n - 1), Bits(b / 2, n - 1));
    }
  }

  lemma Halves(a: int, b: int, k: nat)
    requires k > 0 && Pow(2, k) > 0 && a % Pow(2, k) == 0 && 0 <= b < Pow(2, k) && a >= 0
    ensures Pow(2, k - 1) > 0 && a % 2 == 0 && (a / 2) % Pow(2, k - 1) == 0 && 0 <= b / 2 < Pow(2, k - 1) && a / 2 + b / 2 == (a + b) / 2
  {
    var p, q := Pow(2, k - 1), a / Pow(2, k);
    PowPositive(2, k - 1);
    assert a == q * (2 * p);
    assert q * (2 * p) == 2 * (q * p);
    DivModUnique(a / 2, p, q, 0);
  }

  /** Two pieces that share no bits, or-ed. */
  method Join(a: int, b: int, ghost k: nat) returns (r: int)
    requires Pow(2, k) > 0 && 0 <= a && a % Pow(2, k) == 0 && 0 <= b < Pow(2, k) && a + b < 0x8000_0000
    ensures r == a + b
  {
    r := Signed(Or(Bits(a, Size()), Bits(b, Size())));
    ChunkFits(a + b);
    OrIsSum(a, b, k, Size());
  }

  // ---------- signs ----------

  /** (x >> 31) & 1 */
  function TopBit(x: int): int { if Bits(x, Size())[Size() - 1] then 1 else 0 }

  /** The sign of a chunk, as in 1 - ((x >> (CHUNK-1)) & 1): 1 exactly if it is not negative. */
  method NotSign(x: int) returns (d: int)
    requires -0x8000_0000 <= x < 0x8000_0000
    ensures d == if x >= 0 then 1 else 0
  {
    d := 1 - TopBit(x);
    ChunkFits(x);
    RoundTrip(x, Size());
  }

  lemma {:induction false} Complement(x: int, n: nat)
    requires Fits(x, n)
    ensures Signed(Xor(Bits(x, n), Bits(-1, n))) == -x - 1
    decreases n
  {
    var w := Xor(Bits(x, n), Bits(-1, n));
    if n > 1 {
      Complement(x / 2, n - 1);
      assert w[1..] == Xor(Bits(x / 2, n - 1), Bits(-1, n - 1));
    }
  }

  lemma XorZero(w: Word, n: nat)
    requires |w| == n
    ensures Xor(w, Bits(0, n)) == w
  {
    Mask(0, n);
  }

  /** (b ^ m) - m for m = b >> 31: the magnitude of a chunk, and m & 1, whether it is negative. */
  method Magnitude(b: int) returns (babs: int, sign: int)
    requires -0x8000_0000 < b < 0x8000_0000
    ensures babs == (if b < 0 then -b else b) && sign == if b < 0 then 1 else 0
  {
    var m := -TopBit(b);
    babs := Signed(Xor(Bits(b, Size()), Bits(m, Size()))) - m;
    sign := -m;
    ChunkFits(b);
    RoundTrip(b, Size());
    Complement(b, Size());
    XorZero(Bits(b, Size()), Size());
  }

  lemma {:induction false} XorSign(a: Word, b: Word)
    requires |a| == |b| > 0 && a[|a| - 1] == b[|a| - 1]
    ensures Signed(Xor(a, b)) >= 0 && (Signed(Xor(a, b)) == 0 <==> a == b)
    ensures Signed(Xor(a, b)) < Pow(2, |a| - 1)
  {
    var w := Xor(a, b);
    if |a| == 1 {
      assert a == [a[0]] && b == [b[0]];
    } else {
      XorSign(a[1..], b[1..]);
      assert w[1..] == Xor(a[1..], b[1..]);
      assert a == [a[0]] + a[1..] && b == [b[0]] + b[1..];
    }
  }

  /** teq: 1 exactly if two small numbers are equal, as the sign of (b ^ c) - 1. */
  method Teq(b: int, c: int) returns (r: int)
    requires 0 <= b < 0x8000_0000 && 0 <= c < 0x8000_0000
    ensures r == if b == c then 1 else 0
  {
    var x := Signed(Xor(Bits(b, Size()), Bits(c, Size())));
    x := x - 1;
    r := TopBit(x);
    ChunkFits(b);
    ChunkFits(c);
    XorOf(b, c, Size());
    RoundTrip(x, Size());
  }

  lemma XorOf(b: int, c: int, n: nat)
    requires Fits(b, n) && Fits(c, n) && 0 <= b && 0 <= c
    ensures var x := Signed(Xor(Bits(b, n), Bits(c, n))); 0 <= x < Pow(2, n - 1) && (x == 0 <==> b == c)
  {
    RoundTrip(b, n);
    RoundTrip(c, n);
    XorSign(Bits(b, n), Bits(c, n));
  }

  // ---------- logb2 ----------

  /** The 32-bit word with these low bits. */
  function Word7(w: Word): bv32
    requires |w| == 7
  {
    (if w[0] then 1 else 0) | (if w[1] then 2 else 0) | (if w[2] then 4 else 0) | (if w[3] then 8 else 0)
    | (if w[4] then 16 else 0) | (if w[5] then 32 else 0) | (if w[6] then 64 else 0)
  }

  /** First half: smear the leading one downwards. */
  function Smear(v: bv32): bv32 {
    var v := v | (v >> 1);
    var v := v | (v >> 2);
    var v := v | (v >> 4);
    var v := v | (v >> 8);
    v | (v >> 16)
  }

  /** Second half: count the ones, plus one. */
  function CountPlusOne(v: bv32): bv32 {
    var v := v - ((v >> 1) & 0x5555_5555);
    var v := (v & 0x3333_3333) + ((v >> 2) & 0x3333_3333);
    ((((v + (v >> 4)) & 0x0F0F_0F0F) * 0x0101_0101) >> 24) + 1
  }

  lemma LogB2Word(v: bv32)
    requires v < 128
    ensures CountPlusOne(Smear(v)) ==
      if v == 0 then 1 else if v < 2 then 2 else if v < 4 then 3 else if v < 8 then 4
      else if v < 16 then 5 else if v < 32 then 6 else if v < 64 then 7 else 8
  {
    assert Smear(v) ==
      if v == 0 then 0 else if v < 2 then 1 else if v < 4 then 3 else if v < 8 then 7
      else if v < 16 then 15 else if v < 32 then 31 else if v < 64 then 63 else 127;
  }

  /** k is the number of bits of the word w. */
  ghost predicate Leads(w: Word, k: int) { 0 <= k <= |w| && (forall j :: k <= j < |w| ==> !w[j]) && (k > 0 ==> w[k - 1]) }

  /** The word k + 1. */
  ghost predicate IsNext(r: bv32, k: int) {
    && (k == 0 ==> r == 1) && (k == 1 ==> r == 2) && (k == 2 ==> r == 3) && (k == 3 ==> r == 4)
    && (k == 4 ==> r == 5) && (k == 5 ==> r == 6) && (k == 6 ==> r == 7) && (k == 7 ==> r == 8)
  }

  lemma LogB2Bits(w: Word, k: int)
    requires |w| == 7 && Leads(w, k)
    ensures IsNext(CountPlusOne(Smear(Word7(w))), k)
  {
    assert (k <= 6 ==> !w[6]) && (k <= 5 ==> !w[5]) && (k <= 4 ==> !w[4]) && (k <= 3 ==> !w[3]);
    assert (k <= 2 ==> !w[2]) && (k <= 1 ==> !w[1]) && (k <= 0 ==> !w[0]);
    LogB2Word(Word7(w));
  }

  function Seven(): nat { 7 }

  /** A number below 2^i has no bits from i on; if it is at least 2^(i-1), the one before is set. */
  lemma {:induction false} LeadingBit(v: int, n: nat, i: nat)
    requires i <= n && 0 <= v < Pow(2, i)
    ensures forall j :: i <= j < n ==> !Bits(v, n)[j]
    ensures i > 0 && v >= Pow(2, i - 1) ==> Leads(Bits(v, n), i)
    decreases n
  {
    var w := Bits(v, n);
    if n > 0 {
      var h := v / 2;
      var u := Bits(h, n - 1);
      assert w == [v % 2 == 1] + u;
      LeadingBit(h, n - 1, if i == 0 then 0 else i - 1);
      forall j | i <= j < n ensures !w[j] {
        if j > 0 { assert w[j] == u[j - 1]; }
      }
    }
  }

  /** The number of bits of v. */
  function BitCount(v: int): (k: int)
    requires 0 <= v < 128
    ensures 0 <= k <= 7
  {
    if v == 0 then 0 else if v < 2 then 1 else if v < 4 then 2 else if v < 8 then 3
    else if v < 16 then 4 else if v < 32 then 5 else if v < 64 then 6 else 7
  }

  lemma CountIs(v: int)
    requires 0 <= v < 128
    ensures v < Pow(2, BitCount(v)) && (v > 0 ==> v >= Pow(2, BitCount(v) - 1))
  {
    assert Pow(2, 0) == 1 && Pow(2, 1) == 2 && Pow(2, 2) == 4 && Pow(2, 3) == 8;
    PowAdd(2, 2, 2);
    PowAdd(2, 4, 1);
    PowAdd(2, 4, 2);
    PowAdd(2, 4, 3);
  }

  /** logb2 of a number below 128: one more than its number of bits. */
  method LogB2(v: int) returns (r: int)
    requires 0 <= v < 128
    ensures r == BitCount(v) + 1
  {
    var w := Bits(v, Seven());
    var k := CountPlusOne(Smear(Word7(w)));
    CountIs(v);
    LeadingBit(v, Seven(), BitCount(v));
    LogB2Bits(w, BitCount(v));
    r := Small(k, BitCount(v));
  }

  /** A small word as a number. */
  method Small(w: bv32, ghost k: int) returns (r: int)
    requires 0 <= k <= 7 && IsNext(w, k)
    ensures r == k + 1
  {
    r := w as int;
  }
}
