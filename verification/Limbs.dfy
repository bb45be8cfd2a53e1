/** Multi-precision integers as arrays of limbs in radix 2^29 (big.c with 32-bit chunks).
    Limbs are signed and need not be normalised; the integer a limb sequence stands for is its
    `Value`.  The radix is written as the literal 0x2000_0000, which keeps the solver's arithmetic
    linear. */
module Limbs {
  import opened Arith

  /** Largest limb count for which the column sums are claimed to fit 64 bits. */
  const MAX_NLEN := 16
  const NEXCESS := 4

  /** A value of type chunk (int32_t). */
  ghost predicate Chunk(x: int) { -0x8000_0000 <= x < 0x8000_0000 }
  /** A value of type dchunk (int64_t). */
  ghost predicate Dchunk(x: int) { -0x8000_0000_0000_0000 <= x < 0x8000_0000_0000_0000 }

  /** Identity functions that oblige the caller to show that an intermediate result fits. */
  function C32(x: int): int requires Chunk(x) { x }
  function C64(x: int): int requires Dchunk(x) { x }

  // ---------- weights ----------
  // W(i) and Term(x, i) are pinned down through marked quantifiers: the solver treats them as
  // unknown numbers, and products with powers of the radix enter a proof only where it calls one
  // of the lemmas below.

  ghost predicate Marked(i: nat) { true }
  ghost predicate MarkedTerm(x: int, i: nat) { true }

  ghost predicate IsWeight(i: nat, w: int) {
    w > 0 && forall j: nat {:trigger Marked(j)} :: Marked(j) && j == i ==> w == Pow(0x2000_0000, j)
  }

  /** The weight of limb i: the radix to the power i. */
  ghost function W(i: nat): (w: int)
    ensures w > 0
  {
    PowPositive(0x2000_0000, i);
    assert IsWeight(i, Pow(0x2000_0000, i));
    var w :| IsWeight(i, w);
    w
  }

  lemma WIsPower(i: nat)
    ensures W(i) == Pow(0x2000_0000, i)
  {
    assert Marked(i);
  }

  lemma WZero()
    ensures W(0) == 1
  {
    WIsPower(0);
  }

  lemma WNext(i: nat)
    ensures W(i + 1) == 0x2000_0000 * W(i)
  {
    WIsPower(i);
    WIsPower(i + 1);
  }

  lemma WAdd(i: nat, j: nat, k: nat)
    requires i + j == k
    ensures W(k) == W(i) * W(j)
  {
    WIsPower(i);
    WIsPower(j);
    WIsPower(k);
    PowAdd(0x2000_0000, i, j);
  }

  ghost predicate IsTerm(x: int, i: nat, t: int) {
    forall y: int, j: nat {:trigger MarkedTerm(y, j)} :: MarkedTerm(y, j) && y == x && j == i ==> t == y * W(j)
  }

  /** What x is worth in limb position i. */
  ghost function Term(x: int, i: nat): int {
    assert IsTerm(x, i, x * W(i));
    var t :| IsTerm(x, i, t);
    t
  }

  lemma TermIs(x: int, i: nat)
    ensures Term(x, i) == x * W(i)
  {
    assert MarkedTerm(x, i);
  }

  lemma TermZero(i: nat)
    ensures Term(0, i) == 0
  {
    TermIs(0, i);
  }

  lemma TermLow(x: int)
    ensures Term(x, 0) == x
  {
    TermIs(x, 0);
    WZero();
  }

  lemma TermAdd(x: int, y: int, i: nat)
    ensures Term(x + y, i) == Term(x, i) + Term(y, i)
  {
    TermIs(x, i);
    TermIs(y, i);
    TermIs(x + y, i);
    assert (x + y) * W(i) == x * W(i) + y * W(i);
  }

  lemma TermScale(x: int, y: int, i: nat)
    ensures Term(x * y, i) == x * Term(y, i)
  {
    TermIs(y, i);
    TermIs(x * y, i);
    assert (x * y) * W(i) == x * (y * W(i));
  }

  lemma TermNest(x: int, i: nat, j: nat, k: nat)
    requires i + j == k
    ensures Term(Term(x, i), j) == Term(x, k)
  {
    TermIs(x, i);
    TermIs(Term(x, i), j);
    TermIs(x, k);
    WAdd(i, j, k);
    assert (x * W(i)) * W(j) == x * (W(i) * W(j));
  }

  /** A limb keeps its low bits and passes the rest on to the next limb. */
  lemma TermCarry(d: int, i: nat)
    ensures Term(d % 0x2000_0000, i) + Term(d / 0x2000_0000, i + 1) == Term(d, i)
  {
    var q, r, w := d / 0x2000_0000, d % 0x2000_0000, W(i);
    TermIs(d, i);
    TermIs(r, i);
    TermIs(q, i + 1);
    WNext(i);
    assert d == q * 0x2000_0000 + r;
    assert (q * 0x2000_0000 + r) * w == q * (0x2000_0000 * w) + r * w;
  }

  lemma TermMono(x: int, y: int, i: nat)
    requires x <= y
    ensures Term(x, i) <= Term(y, i)
  {
    TermIs(x, i);
    TermIs(y, i);
    MulMono(x, y, W(i));
  }

  // ---------- values ----------

  /** The integer represented by the first k limbs. */
  ghost function ValueTo(s: seq<int>, k: nat): int
    requires k <= |s|
  {
    if k == 0 then 0 else ValueTo(s, k - 1) + Term(s[k - 1], k - 1)
  }

  ghost function Value(s: seq<int>): int { ValueTo(s, |s|) }

  /** All limbs but the top one are reduced; the top one keeps sign and overflow. */
  ghost predicate Normed(s: seq<int>) { forall i :: 0 <= i < |s| - 1 ==> 0 <= s[i] < 0x2000_0000 }

  /** All limbs, the top one included, are reduced. */
  ghost predicate Reduced(s: seq<int>) { forall i :: 0 <= i < |s| ==> 0 <= s[i] < 0x2000_0000 }

  /** Limbs that the carry loop can absorb without leaving a chunk. */
  ghost predicate Loose(x: int) { -NEXCESS * 0x1FFF_FFFF <= x <= NEXCESS * 0x1FFF_FFFF }

  lemma {:induction false} ValueToFrame(s: seq<int>, t: seq<int>, k: nat)
    requires k <= |s| && k <= |t| && forall i :: 0 <= i < k ==> s[i] == t[i]
    ensures ValueTo(s, k) == ValueTo(t, k)
  {
    if k > 0 { ValueToFrame(s, t, k - 1); }
  }

  lemma ValuePrefix(s: seq<int>, k: nat)
    requires k <= |s|
    ensures ValueTo(s, k) == Value(s[..k])
  {
    ValueToFrame(s, s[..k], k);
  }

  lemma {:induction false} ValueToBounds(s: seq<int>, k: nat)
    requires k <= |s| && forall i :: 0 <= i < k ==> 0 <= s[i] < 0x2000_0000
    ensures 0 <= ValueTo(s, k) < W(k)
  {
    if k == 0 {
      WZero();
    } else {
      ValueToBounds(s, k - 1);
      TermZero(k - 1);
      TermMono(0, s[k - 1], k - 1);
      TermMono(s[k - 1], 0x1FFF_FFFF, k - 1);
      TermIs(0x1FFF_FFFF, k - 1);
      WNext(k - 1);
    }
  }

  /** A number of k reduced limbs plus x at position k is x*W(k) with a remainder below W(k). */
  lemma SplitTop(s: seq<int>, k: nat, x: int)
    requires k <= |s| && forall i :: 0 <= i < k ==> 0 <= s[i] < 0x2000_0000
    ensures (ValueTo(s, k) + Term(x, k)) / W(k) == x
    ensures (ValueTo(s, k) + Term(x, k)) % W(k) == ValueTo(s, k)
  {
    ValueToBounds(s, k);
    TermIs(x, k);
    DivModUnique(ValueTo(s, k) + Term(x, k), W(k), x, ValueTo(s, k));
  }

  /** A normalised number and its value determine each other. */
  lemma {:induction false} UniqueTo(s: seq<int>, t: seq<int>, k: nat)
    requires k <= |s| && k <= |t| && ValueTo(s, k) == ValueTo(t, k)
    requires forall i :: 0 <= i < k - 1 ==> 0 <= s[i] < 0x2000_0000 && 0 <= t[i] < 0x2000_0000
    ensures forall i :: 0 <= i < k ==> s[i] == t[i]
  {
    if k > 0 {
      SplitTop(s, k - 1, s[k - 1]);
      SplitTop(t, k - 1, t[k - 1]);
      UniqueTo(s, t, k - 1);
    }
  }

  lemma Unique(s: seq<int>, t: seq<int>)
    requires |s| == |t| && Normed(s) && Normed(t) && Value(s) == Value(t)
    ensures s == t
  {
    UniqueTo(s, t, |s|);
  }

  /** The normalised n-limb representation of v. */
  ghost function Digits(v: int, n: nat): seq<int>
    decreases n
  {
    if n == 0 then [] else Digits(v % W(n - 1), n - 1) + [v / W(n - 1)]
  }

  lemma {:induction false} DigitsSpec(v: int, n: nat)
    ensures |Digits(v, n)| == n && Normed(Digits(v, n))
    ensures n > 0 ==> Value(Digits(v, n)) == v
    ensures n > 0 && 0 <= v < W(n) ==> Reduced(Digits(v, n))
    decreases n
  {
    if n > 0 {
      var m := n - 1;
      var low := Digits(v % W(m), m);
      DigitsSpec(v % W(m), m);
      ValuePrefix(Digits(v, n), m);
      assert Digits(v, n)[..m] == low;
      TermIs(v / W(m), m);
      assert v / W(m) * W(m) + v % W(m) == v;
      if m == 0 {
        WZero();
      }
      WNext(m);
      if 0 <= v < W(n) {
        QuotientBelow(v, W(m));
      }
    }
  }

  lemma QuotientBelow(v: int, w: int)
    requires w > 0 && 0 <= v < 0x2000_0000 * w
    ensures 0 <= v / w < 0x2000_0000
  {
    assert v / w * w + v % w == v;
    if v / w >= 0x2000_0000 { MulMono(0x2000_0000, v / w, w); }
    if v / w < 0 { MulMono(v / w, -1, w); }
  }

  lemma IsDigits(s: seq<int>)
    requires |s| > 0 && Normed(s)
    ensures s == Digits(Value(s), |s|)
  {
    DigitsSpec(Value(s), |s|);
    Unique(s, Digits(Value(s), |s|));
  }

  lemma {:induction false} ValueToUpdate(s: seq<int>, k: nat, i: nat, x: int)
    requires k <= |s| && i < |s|
    ensures ValueTo(s[i := x], k) == ValueTo(s, k) + (if i < k then Term(x, i) - Term(s[i], i) else 0)
  {
    if k > 0 { ValueToUpdate(s, k - 1, i, x); }
  }

  /** The sign and size of a normalised number can be read off its top limb. */
  lemma TopLimb(s: seq<int>)
    requires |s| > 0 && Normed(s)
    ensures s[|s| - 1] == Value(s) / W(|s| - 1)
    ensures Term(s[|s| - 1], |s| - 1) <= Value(s) < Term(s[|s| - 1] + 1, |s| - 1)
    ensures s[|s| - 1] < 0 <==> Value(s) < 0
  {
    var n := |s| - 1;
    SplitTop(s, n, s[n]);
    ValueToBounds(s, n);
    TermAdd(s[n], 1, n);
    TermIs(1, n);
    TermZero(n);
    if s[n] < 0 {
      TermMono(s[n] + 1, 0, n);
    } else {
      TermMono(0, s[n], n);
    }
  }

  /** A normalised number in [0, W(n)) has a reduced top limb. */
  lemma FitsTop(c: seq<int>)
    requires |c| > 0 && Normed(c) && 0 <= Value(c) < W(|c|)
    ensures Reduced(c)
  {
    var n := |c| - 1;
    TopLimb(c);
    if c[n] >= 0x2000_0000 {
      TermMono(0x2000_0000, c[n], n);
      TermIs(0x2000_0000, n);
      WNext(n);
      assert false;
    }
  }

  lemma {:induction false} ValueToSum(s: seq<int>, t: seq<int>, u: seq<int>, k: nat)
    requires k <= |s| && k <= |t| && k <= |u|
    requires forall i :: 0 <= i < k ==> u[i] == s[i] + t[i]
    ensures ValueTo(u, k) == ValueTo(s, k) + ValueTo(t, k)
  {
    if k > 0 {
      ValueToSum(s, t, u, k - 1);
      TermAdd(s[k - 1], t[k - 1], k - 1);
    }
  }

  lemma {:induction false} ValueToZero(s: seq<int>, k: nat)
    requires k <= |s| && forall j :: 0 <= j < k ==> s[j] == 0
    ensures ValueTo(s, k) == 0
  {
    if k > 0 {
      ValueToZero(s, k - 1);
      TermZero(k - 1);
    }
  }

  // ---------- limb-wise addition and subtraction, and the carry loop ----------

  method BigAdd(c: array<int>, a: array<int>, b: array<int>)
    requires a.Length == b.Length == c.Length
    requires forall i :: 0 <= i < a.Length ==> Chunk(a[i] + b[i])
    modifies c
    ensures forall i :: 0 <= i < c.Length ==> c[i] == old(a[i] + b[i])
    ensures Value(c[..]) == old(Value(a[..]) + Value(b[..]))
  {
    ghost var s, t := a[..], b[..];
    var i := 0;
    while i < c.Length
      invariant 0 <= i <= c.Length
      invariant forall j :: 0 <= j < i ==> c[j] == s[j] + t[j]
      invariant forall j :: i <= j < c.Length ==> a[j] == s[j] && b[j] == t[j]
    {
      c[i] := C32(a[i] + b[i]);
      i := i + 1;
    }
    ValueToSum(s, t, c[..], |s|);
  }

  method BigSub(c: array<int>, a: array<int>, b: array<int>)
    requires a.Length == b.Length == c.Length
    requires forall i :: 0 <= i < a.Length ==> Chunk(a[i] - b[i])
    modifies c
    ensures forall i :: 0 <= i < c.Length ==> c[i] == old(a[i] - b[i])
    ensures Value(c[..]) == old(Value(a[..]) - Value(b[..]))
  {
    ghost var s, t := a[..], b[..];
    var i := 0;
    while i < c.Length
      invariant 0 <= i <= c.Length
      invariant forall j :: 0 <= j < i ==> c[j] == s[j] - t[j]
      invariant forall j :: i <= j < c.Length ==> a[j] == s[j] && b[j] == t[j]
    {
      c[i] := C32(a[i] - b[i]);
      i := i + 1;
    }
    ValueToSum(c[..], t, s, |s|);
  }

  /** State of the carry loop: i limbs of s are done, and carry is what they owe to limb i. */
  ghost predicate Carried(a: seq<int>, s: seq<int>, i: nat, carry: int) {
    && i <= |a| == |s|
    && (forall j :: 0 <= j < i ==> 0 <= a[j] < 0x2000_0000)
    && (forall j :: i <= j < |s| ==> a[j] == s[j])
    && ValueTo(a, i) + Term(carry, i) == ValueTo(s, i)
  }

  lemma CarriedStep(a: seq<int>, s: seq<int>, i: nat, carry: int, d: int)
    requires Carried(a, s, i, carry) && i < |a| && d == a[i] + carry
    ensures Carried(a[i := d % 0x2000_0000], s, i + 1, d / 0x2000_0000)
  {
    ValueToFrame(a, a[i := d % 0x2000_0000], i);
    TermCarry(d, i);
    TermAdd(a[i], carry, i);
  }

  lemma CarriedLast(a: seq<int>, s: seq<int>, i: nat, carry: int)
    requires Carried(a, s, i, carry) && i == |a| - 1
    ensures Value(a[i := a[i] + carry]) == Value(s)
  {
    ValueToFrame(a, a[i := a[i] + carry], i);
    TermAdd(a[i], carry, i);
  }

  /** BIG_norm and BIG_dnorm: carries ripple upwards, the top limb keeps the rest. */
  method BigNorm(a: array<int>)
    requires a.Length > 0
    requires forall i :: 0 <= i < a.Length - 1 ==> Loose(a[i])
    requires Chunk(a[a.Length - 1] - NEXCESS) && Chunk(a[a.Length - 1] + NEXCESS)
    modifies a
    ensures Normed(a[..]) && Value(a[..]) == Value(old(a[..]))
    ensures Chunk(a[a.Length - 1])
  {
    ghost var s := a[..];
    TermZero(0);
    var carry := 0;
    var i := 0;
    while i < a.Length - 1
      invariant 0 <= i <= a.Length - 1
      invariant -NEXCESS <= carry < NEXCESS
      invariant Carried(a[..], s, i, carry)
    {
      ghost var before := a[..];
      assert a[i] == s[i];
      var d := C32(a[i] + carry);
      a[i] := d % 0x2000_0000;
      assert a[..] == before[i := d % 0x2000_0000];
      CarriedStep(before, s, i, carry, d);
      carry := d / 0x2000_0000;
      i := i + 1;
    }
    ghost var before := a[..];
    a[i] := C32(a[i] + carry);
    assert a[..] == before[i := before[i] + carry];
    CarriedLast(before, s, i, carry);
  }
}
