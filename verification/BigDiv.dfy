/** Shifts, comparison, masked moves and the shift-and-subtract divisions of big.c: BIG_mod,
    BIG_dmod, BIG_sdiv and BIG_ddiv.  Single and double length numbers are both limb arrays, and
    shifting by one bit is the same loop for both. */
module BigDiv {
  import opened Arith
  import opened Limbs
  import Words

  // ---------- comparison and conditional move ----------

  /** BIG_comp and BIG_dcomp. */
  method BigComp(a: array<int>, b: array<int>) returns (r: int)
    requires a.Length == b.Length && Normed(a[..]) && Normed(b[..])
    ensures r == -1 || r == 0 || r == 1
    ensures r > 0 <==> Value(a[..]) > Value(b[..])
    ensures r < 0 <==> Value(a[..]) < Value(b[..])
  {
    ghost var x, y := a[..], b[..];
    var i := a.Length;
    while i > 0
      invariant 0 <= i <= a.Length
      invariant Value(x) - Value(y) == ValueTo(x, i) - ValueTo(y, i)
    {
      i := i - 1;
      if a[i] > b[i] {
        TopDecides(y, x, i);
        return 1;
      } else if a[i] < b[i] {
        TopDecides(x, y, i);
        return -1;
      }
    }
    return 0;
  }

  lemma TopDecides(x: seq<int>, y: seq<int>, i: nat)
    requires i < |x| == |y| && x[i] < y[i]
    requires forall j :: 0 <= j < i ==> 0 <= x[j] < 0x2000_0000 && 0 <= y[j] < 0x2000_0000
    ensures ValueTo(x, i + 1) < ValueTo(y, i + 1)
  {
    ValueToBounds(x, i);
    ValueToBounds(y, i);
    TermMono(x[i] + 1, y[i], i);
    TermAdd(x[i], 1, i);
    TermIs(1, i);
  }

  ghost predicate Chunks(s: seq<int>) { forall i :: 0 <= i < |s| ==> Chunk(s[i]) }

  /** BIG_cmove and BIG_dcmove: every limb moved under the mask -d. */
  method BigCmove(f: array<int>, g: array<int>, d: int)
    requires f.Length == g.Length && (d == 0 || d == 1) && Chunks(f[..]) && Chunks(g[..])
    modifies f
    ensures f[..] == if d == 1 then old(g[..]) else old(f[..])
  {
    ghost var x, y := f[..], g[..];
    var i := 0;
    while i < f.Length
      invariant 0 <= i <= f.Length
      invariant forall j :: 0 <= j < i ==> f[j] == if d == 1 then y[j] else x[j]
      invariant forall j :: i <= j < f.Length ==> f[j] == x[j] && g[j] == y[j]
    {
      assert Chunk(x[i]) && Chunk(y[i]);
      f[i] := Words.Move(f[i], g[i], d);
      i := i + 1;
    }
  }

  /** BIG_cswap: every pair of limbs swapped under the mask -d. */
  method BigCswap(a: array<int>, b: array<int>, d: int)
    requires a.Length == b.Length && a != b && (d == 0 || d == 1) && Chunks(a[..]) && Chunks(b[..])
    modifies a, b
    ensures a[..] == (if d == 1 then old(b[..]) else old(a[..])) && b[..] == if d == 1 then old(a[..]) else old(b[..])
  {
    ghost var x, y := a[..], b[..];
    var i := 0;
    while i < a.Length
      invariant 0 <= i <= a.Length
      invariant forall j :: 0 <= j < i ==> a[j] == (if d == 1 then y[j] else x[j]) && b[j] == if d == 1 then x[j] else y[j]
      invariant forall j :: i <= j < a.Length ==> a[j] == x[j] && b[j] == y[j]
    {
      assert Chunk(x[i]) && Chunk(y[i]);
      var u, v := Words.Swap(a[i], b[i], d);
      a[i], b[i] := u, v;
      i := i + 1;
    }
  }

  /** BIG_copy. */
  method BigCopy(f: array<int>, g: array<int>)
    requires f.Length == g.Length
    modifies f
    ensures f[..] == old(g[..])
  {
    ghost var y := g[..];
    var i := 0;
    while i < f.Length
      invariant 0 <= i <= f.Length
      invariant forall j :: 0 <= j < i ==> f[j] == y[j]
      invariant forall j :: i <= j < f.Length ==> g[j] == y[j]
    {
      f[i] := g[i];
      i := i + 1;
    }
  }

  // ---------- shifts ----------

  /** Two powers of two whose product is the radix. */
  ghost predicate ShiftPair(p: int, q: int) { p > 0 && q > 0 && p * q == 0x2000_0000 }

  /** Shifting a limb left by k bits: what stays and what moves up. */
  lemma LimbShift(x: int, p: int, q: int)
    requires ShiftPair(p, q) && 0 <= x < 0x2000_0000
    ensures x * p / 0x2000_0000 == x / q && 0 <= x / q < p
    ensures 0 <= x * p % 0x2000_0000 <= 0x2000_0000 - p && (x * p % 0x2000_0000) % p == 0
  {
    var h, r := x / q, x % q;
    assert x == h * q + r;
    assert x * p == h * (p * q) + r * p by {
      assert (h * q + r) * p == h * (p * q) + r * p;
    }
    MulMono(0, r, p);
    MulMono(r, q - 1, p);
    assert (q - 1) * p == 0x2000_0000 - p;
    DivModUnique(x * p, 0x2000_0000, h, r * p);
    DivModUnique(r * p, p, r, 0);
    if h >= p { MulMono(p, h, q); }
    if h < 0 { MulMono(h, -1, q); }
  }

  ghost predicate ShiftedLeft(s: seq<int>, t: seq<int>, p: int, q: int, k: nat)
    requires k <= |s| == |t| && q > 0
  {
    forall i :: k <= i < |s| ==>
      t[i] == (if i == |s| - 1 then Prod(p, s[i]) else Prod(p, s[i]) % 0x2000_0000) + (if i == 0 then 0 else s[i - 1] / q)
  }

  lemma {:induction false} ShiftedLeftValue(s: seq<int>, t: seq<int>, p: int, q: int, k: nat)
    requires 0 < |s| == |t| && k <= |s| && Normed(s) && ShiftPair(p, q) && ShiftedLeft(s, t, p, q, 0)
    ensures ValueTo(t, k) + (if 0 < k < |s| then Term(s[k - 1] / q, k) else 0) == p * ValueTo(s, k)
  {
    if k > 0 {
      ShiftedLeftValue(s, t, p, q, k - 1);
      var x := s[k - 1];
      var y := Prod(p, x);
      ProdIs(p, x);
      var below := if k == 1 then 0 else s[k - 2] / q;
      TermAdd(if k == |s| then y else y % 0x2000_0000, below, k - 1);
      TermCarry(y, k - 1);
      TermScale(p, x, k - 1);
      TermZero(k - 1);
      if k < |s| { LimbShift(x, p, q); }
      assert p * (ValueTo(s, k - 1) + Term(x, k - 1)) == p * ValueTo(s, k - 1) + p * Term(x, k - 1);
    }
  }

  lemma ShiftedLeftNormed(s: seq<int>, t: seq<int>, p: int, q: int)
    requires 0 < |s| == |t| && Normed(s) && ShiftPair(p, q) && ShiftedLeft(s, t, p, q, 0)
    ensures Normed(t)
  {
    forall i | 0 <= i < |t| - 1 ensures 0 <= t[i] < 0x2000_0000 {
      LimbShift(s[i], p, q);
      ProdIs(p, s[i]);
      if i > 0 { LimbShift(s[i - 1], p, q); }
      assert t[i] == Prod(p, s[i]) % 0x2000_0000 + (if i == 0 then 0 else s[i - 1] / q);
    }
  }

  /** BIG_fshl by fewer than 29 bits: p is 2^k, the factor, and q is 2^(29-k). */
  method BigShl(a: array<int>, p: int, q: int, ghost k: nat)
    requires a.Length > 1 && Normed(a[..]) && ShiftPair(p, q) && p == Pow(2, k)
    requires a[a.Length - 1] >= 0 && Chunk(Prod(p, a[a.Length - 1]) + p - 1)
    modifies a
    ensures Normed(a[..]) && Value(a[..]) == p * Value(old(a[..]))
    ensures a[a.Length - 1] <= Prod(p, old(a[a.Length - 1])) + p - 1 && Chunk(a[a.Length - 1])
  {
    ghost var s := a[..];
    var i := a.Length - 1;
    ProdIs(p, a[i]);
    MulMono(0, a[i], p);
    LimbShift(a[i - 1], p, q);
    DivModUnique(p * a[i], p, a[i], 0);
    a[i] := Words.Join(C32(p * a[i]), a[i - 1] / q, k);
    i := i - 1;
    while i > 0
      invariant 0 <= i < a.Length - 1 && a[a.Length - 1] == Prod(p, s[a.Length - 1]) + s[a.Length - 2] / q
      invariant forall j :: 0 <= j <= i ==> a[j] == s[j]
      invariant ShiftedLeft(s, a[..], p, q, i + 1)
    {
      ProdIs(p, a[i]);
      LimbShift(a[i], p, q);
      LimbShift(a[i - 1], p, q);
      assert a[i] * p == p * a[i];
      a[i] := Words.Join(p * a[i] % 0x2000_0000, a[i - 1] / q, k);
      i := i - 1;
    }
    ProdIs(p, a[0]);
    a[0] := p * a[0] % 0x2000_0000;
    assert ShiftedLeft(s, a[..], p, q, 0);
    ShiftedLeftValue(s, a[..], p, q, a.Length);
    ShiftedLeftNormed(s, a[..], p, q);
  }

  /** The same by one bit. */
  method BigDouble(a: array<int>)
    requires a.Length > 1 && Normed(a[..]) && 0 <= a[a.Length - 1] < 0x4000_0000
    modifies a
    ensures Normed(a[..]) && Value(a[..]) == 2 * Value(old(a[..]))
    ensures Chunk(a[a.Length - 1])
  {
    ProdIs(2, a[a.Length - 1]);
    assert Pow(2, 1) == 2;
    BigShl(a, 2, 0x1000_0000, 1);
  }

  /** What a shift to the right moves down into limb i. */
  ghost function FromAbove(s: seq<int>, i: nat, p: int, q: int): int
    requires i < |s| && p > 0
  {
    if i == |s| - 1 then 0 else Prod(s[i + 1] % p, q)
  }

  ghost predicate ShiftedRight(s: seq<int>, t: seq<int>, p: int, q: int, k: nat)
    requires k <= |s| == |t| && p > 0
  {
    forall i :: 0 <= i < k ==> t[i] == s[i] / p + FromAbove(s, i, p, q)
  }

  /** A limb shifted right, with the low bits of the next one above it. */
  lemma LimbShiftDown(x: int, above: int, p: int, q: int)
    requires ShiftPair(p, q) && 0 <= above < p
    ensures p * (x / p + Prod(above, q)) + x % p == x + above * 0x2000_0000
    ensures 0 <= x < 0x2000_0000 ==> 0 <= x / p < q
    ensures 0 <= Prod(above, q) <= 0x2000_0000 - q && Prod(above, q) % q == 0
  {
    ProdIs(above, q);
    assert p * (x / p + above * q) == p * (x / p) + above * (p * q);
    MulMono(0, above, q);
    MulMono(above, p - 1, q);
    assert (p - 1) * q == 0x2000_0000 - q;
    DivModUnique(above * q, q, above, 0);
    if 0 <= x < 0x2000_0000 {
      if x / p >= q { MulMono(q, x / p, p); }
    }
  }

  lemma ShiftedRightAt(s: seq<int>, t: seq<int>, p: int, q: int, k: nat, above: int)
    requires 0 < k <= |s| == |t| && p > 0 && ShiftedRight(s, t, p, q, |s|) && above == if k == |s| then 0 else s[k] % p
    ensures t[k - 1] == s[k - 1] / p + Prod(above, q)
  {
    assert t[k - 1] == s[k - 1] / p + FromAbove(s, k - 1, p, q);
    ProdIs(0, q);
  }

  lemma {:induction false} ShiftedRightValue(s: seq<int>, t: seq<int>, p: int, q: int, k: nat)
    requires 0 < k <= |s| == |t| && ShiftPair(p, q) && ShiftedRight(s, t, p, q, |s|)
    ensures p * ValueTo(t, k) + s[0] % p == ValueTo(s, k) + (if k < |s| then Term(s[k] % p, k) else 0)
    decreases k
  {
    var x := s[k - 1];
    var above := if k == |s| then 0 else s[k] % p;
    LimbShiftDown(x, above, p, q);
    ShiftedRightAt(s, t, p, q, k, above);
    assert p * t[k - 1] + x % p == x + above * 0x2000_0000;
    TermScale(p, t[k - 1], k - 1);
    TermAdd(p * t[k - 1], x % p, k - 1);
    TermAdd(x, above * 0x2000_0000, k - 1);
    TermCarry(above * 0x2000_0000, k - 1);
    TermZero(k - 1);
    if k == 1 {
      TermLow(x % p);
    } else {
      ShiftedRightValue(s, t, p, q, k - 1);
    }
    assert p * (ValueTo(t, k - 1) + Term(t[k - 1], k - 1)) == p * ValueTo(t, k - 1) + p * Term(t[k - 1], k - 1);
  }

  lemma ShiftedRightNormed(s: seq<int>, t: seq<int>, p: int, q: int)
    requires 0 < |s| == |t| && Normed(s) && ShiftPair(p, q) && ShiftedRight(s, t, p, q, |s|)
    ensures Normed(t)
  {
    forall i | 0 <= i < |t| - 1 ensures 0 <= t[i] < 0x2000_0000 {
      LimbShiftDown(s[i], s[i + 1] % p, p, q);
      assert t[i] == s[i] / p + FromAbove(s, i, p, q);
    }
  }

  /** BIG_fshr by fewer than 29 bits: p is the divisor 2^(29-k), and q is 2^k.  The bits shifted out are returned. */
  method BigShr(a: array<int>, p: int, q: int, ghost k: nat) returns (r: int)
    requires a.Length > 1 && Normed(a[..]) && a[a.Length - 1] >= 0 && ShiftPair(p, q) && q == Pow(2, k)
    modifies a
    ensures Normed(a[..]) && a[a.Length - 1] == old(a[a.Length - 1]) / p
    ensures Value(a[..]) == Value(old(a[..])) / p && r == Value(old(a[..])) % p
  {
    ghost var s := a[..];
    r := a[0] % p;
    var i := 0;
    while i < a.Length - 1
      invariant 0 <= i <= a.Length - 1
      invariant forall j :: i <= j < a.Length ==> a[j] == s[j]
      invariant ShiftedRight(s, a[..], p, q, i)
    {
      a[i] := ShrLimb(a[i], a[i + 1], p, q, k);
      i := i + 1;
    }
    a[i] := a[i] / p;
    ShiftedRightWhole(s, a[..], p, q);
  }

  method ShrLimb(x: int, y: int, p: int, q: int, ghost k: nat) returns (r: int)
    requires ShiftPair(p, q) && q == Pow(2, k) && 0 <= x < 0x2000_0000
    ensures r == x / p + Prod(y % p, q)
  {
    LimbShiftDown(x, y % p, p, q);
    LowBitsUp(y, p, q);
    r := Words.Join(y * q % 0x2000_0000, x / p, k);
  }

  lemma ShiftedRightWhole(s: seq<int>, t: seq<int>, p: int, q: int)
    requires 0 < |s| == |t| && Normed(s) && ShiftPair(p, q) && ShiftedRight(s, t, p, q, |s|)
    ensures Normed(t) && Value(t) == Value(s) / p && s[0] % p == Value(s) % p
  {
    ShiftedRightValue(s, t, p, q, |s|);
    ShiftedRightNormed(s, t, p, q);
    assert Value(s) == Value(t) * p + s[0] % p;
    DivModUnique(Value(s), p, Value(t), s[0] % p);
  }

  /** (x << (29-k)) & BMASK: only the low k bits of x are left. */
  lemma LowBitsUp(x: int, p: int, q: int)
    requires ShiftPair(p, q)
    ensures x * q % 0x2000_0000 == Prod(x % p, q)
  {
    ProdIs(x % p, q);
    LimbShiftDown(x, x % p, p, q);
    var h := x / p;
    assert (h * p + x % p) * q == h * (p * q) + (x % p) * q;
    DivModUnique(x * q, 0x2000_0000, h, (x % p) * q);
  }

  /** The same by one bit. */
  method BigHalve(a: array<int>)
    requires a.Length > 1 && Normed(a[..]) && a[a.Length - 1] >= 0
    modifies a
    ensures Normed(a[..]) && a[a.Length - 1] == old(a[a.Length - 1]) / 2
    ensures Value(a[..]) == Value(old(a[..])) / 2
  {
    TwoTo28();
    var r := BigShr(a, 2, 0x1000_0000, 28);
  }

  lemma TwoTo28()
    ensures Pow(2, 28) == 0x1000_0000
  {
    assert Pow(2, 2) == 4 && Pow(2, 3) == 8;
    PowAdd(2, 2, 2);
    PowAdd(2, 4, 4);
    PowAdd(2, 8, 8);
    PowAdd(2, 16, 8);
    PowAdd(2, 24, 4);
  }

  // ---------- shift-and-subtract division ----------

  /** Numbers that the division loops accept: normalised, non-negative, with room for a doubling. */
  ghost predicate Dividend(s: seq<int>) { |s| > 1 && Normed(s) && 0 <= s[|s| - 1] < 0x4000_0000 }

  ghost predicate Divisor(s: seq<int>) { |s| > 1 && Normed(s) && Value(s) > 0 && s[|s| - 1] < 0x4000_0000 }

  /** A number not above a dividend has a top limb not above its top limb. */
  lemma TopBelow(x: seq<int>, y: seq<int>)
    requires 0 < |x| == |y| && Normed(x) && Normed(y) && Value(x) <= Value(y)
    ensures x[|x| - 1] <= y[|y| - 1]
  {
    var n := |x| - 1;
    TopLimb(x);
    TopLimb(y);
    if x[n] > y[n] { TermMono(y[n] + 1, x[n], n); }
  }

  /** State of the quotient loops: e is 2^k, m is c*2^k, and a*c + b has not moved from v. */
  ghost predicate Dividing(v: int, c: int, a: int, b: int, m: int, e: int, k: nat) {
    e == Pow(2, k) && m == Prod(c, e) && v == Prod(c, a) + b && 0 <= a && 0 <= b
  }

  lemma DividingUp(v: int, c: int, b: int, m: int, e: int, k: nat)
    requires Dividing(v, c, 0, b, m, e, k) && c > 0
    ensures Dividing(v, c, 0, b, 2 * m, 2 * e, k + 1)
    ensures e > 0 && m > 0 && (b >= m ==> e <= v / c)
  {
    ProdIs(c, e);
    ProdIs(c, 2 * e);
    ProdIs(c, 0);
    assert c * (2 * e) == 2 * (c * e);
    PowPositive(2, k);
    MulMono(1, c, e);
    if b >= m { QuotientAtLeast(v, c, e); }
  }

  lemma DividingDown(v: int, c: int, a: int, b: int, m: int, e: int, k: nat)
    requires Dividing(v, c, a, b, m, e, k) && k > 0 && c > 0 && b < m
    ensures m / 2 + m / 2 == m && e / 2 + e / 2 == e && m / 2 > 0 && e / 2 > 0
    ensures Dividing(v, c, a, b, m / 2, e / 2, k - 1)
    ensures b >= m / 2 ==> Dividing(v, c, a + e / 2, b - m / 2, m / 2, e / 2, k - 1) && a + e / 2 <= v / c
  {
    PowPositive(2, k - 1);
    var h := e / 2;
    assert e == 2 * Pow(2, k - 1) && h == Pow(2, k - 1);
    ProdIs(c, e);
    ProdIs(c, h);
    ProdIs(c, a);
    ProdIs(c, a + h);
    assert c * (2 * h) == 2 * (c * h);
    MulMono(1, c, h);
    assert c * (a + h) == c * a + c * h;
    if b >= m / 2 { QuotientAtLeast(v, c, a + h); }
  }

  lemma DividingEnd(v: int, c: int, a: int, b: int, m: int, e: int)
    requires Dividing(v, c, a, b, m, e, 0) && c > 0 && b < m
    ensures a == v / c && b == v % c
  {
    ProdIs(c, e);
    ProdIs(c, a);
    DivModUnique(v, c, a, b);
  }

  /** First loop of the divisions: double m until it exceeds b. */
  method ScaleUp(b: array<int>, m: array<int>, ghost v: int, ghost c: int) returns (k: nat)
    requires b.Length == m.Length && b != m && Dividend(b[..]) && Divisor(m[..])
    requires c > 0 && Dividing(v, c, 0, Value(b[..]), Value(m[..]), 1, 0)
    modifies m
    ensures Normed(m[..]) && Chunk(m[m.Length - 1])
    ensures Dividing(v, c, 0, Value(b[..]), Value(m[..]), Pow(2, k), k)
    ensures Value(b[..]) < Value(m[..])
  {
    ghost var x, e := b[..], 1;
    k := 0;
    TopLimb(m[..]);
    var r := BigComp(b, m);
    while r >= 0
      invariant b[..] == x && Normed(m[..]) && Chunk(m[m.Length - 1]) && Value(m[..]) > 0
      invariant Dividing(v, c, 0, Value(x), Value(m[..]), e, k)
      invariant r >= 0 <==> Value(x) >= Value(m[..])
      decreases Value(x) - Value(m[..])
    {
      DividingUp(v, c, Value(x), Value(m[..]), e, k);
      TopBelow(m[..], x);
      TopLimb(m[..]);
      BigDouble(m);
      e := 2 * e;
      k := k + 1;
      r := BigComp(b, m);
    }
  }

  /** One masked step: subtract m from b if the result is not negative. */
  method SubtractIfFits(b: array<int>, m: array<int>, r: array<int>) returns (d: int)
    requires b.Length == m.Length == r.Length && b != m && r != b && r != m
    requires Dividend(b[..]) && Normed(m[..]) && 0 <= m[m.Length - 1] < 0x4000_0000
    modifies b, r
    ensures d == if old(Value(b[..])) >= Value(m[..]) then 1 else 0
    ensures Value(b[..]) == old(Value(b[..])) - (if d == 1 then Value(m[..]) else 0)
    ensures Dividend(b[..])
  {
    ghost var x := b[..];
    BigSub(r, b, m);
    BigNorm(r);
    TopLimb(r[..]);
    d := Words.NotSign(r[r.Length - 1]);
    BigCmove(b, r, d);
    if d == 1 {
      TopLimb(m[..]);
      TermZero(m.Length - 1);
      TermMono(0, m[m.Length - 1], m.Length - 1);
      TopBelow(b[..], x);
      TopLimb(b[..]);
    }
  }

  /** A non-negative number with limbs that may still need normalising. */
  ghost predicate LooseDividend(s: seq<int>) {
    && |s| > 1 && (forall i :: 0 <= i < |s| - 1 ==> Loose(s[i]))
    && Chunk(s[|s| - 1] - NEXCESS) && Chunk(s[|s| - 1] + NEXCESS)
    && 0 <= Value(s) < Term(0x4000_0000, |s| - 1)
  }

  /** BIG_norm of such a number is a dividend. */
  lemma NormedDividend(s: seq<int>)
    requires |s| > 1 && Normed(s) && 0 <= Value(s) < Term(0x4000_0000, |s| - 1)
    ensures Dividend(s)
  {
    var n := |s| - 1;
    TopLimb(s);
    if s[n] >= 0x4000_0000 { TermMono(0x4000_0000, s[n], n); }
  }

  /** BIG_mod: b becomes b mod c, and c is shifted up and back down to where it was. */
  method BigMod(b: array<int>, c: array<int>)
    requires b.Length == c.Length && b != c && LooseDividend(b[..]) && Divisor(c[..])
    modifies b, c
    ensures Value(b[..]) == old(Value(b[..])) % old(Value(c[..]))
    ensures c[..] == old(c[..])
    ensures Dividend(b[..])
  {
    ghost var v, m, s := Value(b[..]), Value(c[..]), c[..];
    BigNorm(b);
    NormedDividend(b[..]);
    ProdIs(m, 1);
    ProdIs(m, 0);
    var k := ScaleUp(b, c, v, m);
    var r := new int[b.Length];
    ghost var q, e := 0, Pow(2, k);
    while k > 0
      invariant Dividend(b[..]) && Normed(c[..]) && Chunk(c[c.Length - 1])
      invariant Dividing(v, m, q, Value(b[..]), Value(c[..]), e, k)
      invariant Value(b[..]) < Value(c[..])
    {
      DividingDown(v, m, q, Value(b[..]), Value(c[..]), e, k);
      TopLimb(c[..]);
      BigHalve(c);
      e := e / 2;
      var d := SubtractIfFits(b, c, r);
      if d == 1 { q := q + e; }
      k := k - 1;
    }
    DividingEnd(v, m, q, Value(b[..]), Value(c[..]), e);
    assert Value(c[..]) == m by { ProdIs(m, 1); }
    Unique(c[..], s);
  }

  /** A number below W(n) has a reduced top limb, hence room for a doubling or an addition. */
  lemma SmallTop(s: seq<int>)
    requires |s| > 1 && Normed(s) && 0 <= Value(s) < W(|s|)
    ensures Reduced(s) && Dividend(s)
  {
    FitsTop(s);
  }

  /** The quotient loops of BIG_sdiv and BIG_ddiv: a (initially 0) becomes the quotient of b by m and
      b the remainder; e (initially 1) follows the shifts of m. */
  method Divide(a: array<int>, b: array<int>, m: array<int>, e: array<int>)
    requires b.Length == m.Length && a.Length == e.Length > 1
    requires a != b && a != m && a != e && b != m && b != e && m != e
    requires Dividend(b[..]) && Divisor(m[..])
    requires Reduced(a[..]) && Value(a[..]) == 0 && Reduced(e[..]) && Value(e[..]) == 1
    requires Value(b[..]) / Value(m[..]) < W(a.Length)
    modifies a, b, m, e
    ensures Reduced(a[..]) && Value(a[..]) == old(Value(b[..])) / old(Value(m[..]))
    ensures Dividend(b[..]) && Value(b[..]) == old(Value(b[..])) % old(Value(m[..]))
  {
    ghost var v, c := Value(b[..]), Value(m[..]);
    ProdIs(c, 1);
    ProdIs(c, 0);
    TopLimb(b[..]);
    var k := DivideUp(a, b, m, e, v, c);
    var r := new int[a.Length];
    var dr := new int[b.Length];
    while k > 0
      invariant Dividend(b[..]) && Normed(m[..]) && Chunk(m[m.Length - 1]) && Reduced(a[..])
      invariant Normed(e[..]) && Chunk(e[e.Length - 1])
      invariant Dividing(v, c, Value(a[..]), Value(b[..]), Value(m[..]), Value(e[..]), k)
      invariant Value(b[..]) < Value(m[..]) && Value(a[..]) <= v / c
    {
      DividingDown(v, c, Value(a[..]), Value(b[..]), Value(m[..]), Value(e[..]), k);
      TopLimb(m[..]);
      TopLimb(e[..]);
      BigHalve(m);
      BigHalve(e);
      var d := SubtractIfFits(b, m, dr);
      AddIfFits(a, e, r, d, v / c);
      k := k - 1;
      TopLimb(b[..]);
    }
    DividingEnd(v, c, Value(a[..]), Value(b[..]), Value(m[..]), Value(e[..]));
  }

  method DivideUp(a: array<int>, b: array<int>, m: array<int>, e: array<int>, ghost v: int, ghost c: int) returns (k: nat)
    requires b.Length == m.Length && a.Length == e.Length > 1
    requires a != m && a != e && b != m && b != e && m != e
    requires Dividend(b[..]) && Divisor(m[..]) && Reduced(e[..]) && Value(e[..]) == 1 && Value(a[..]) == 0
    requires c > 0 && v / c < W(a.Length) && Dividing(v, c, 0, Value(b[..]), Value(m[..]), 1, 0)
    modifies m, e
    ensures Normed(m[..]) && Chunk(m[m.Length - 1]) && Normed(e[..]) && Chunk(e[e.Length - 1])
    ensures Dividing(v, c, 0, Value(b[..]), Value(m[..]), Value(e[..]), k)
    ensures Value(b[..]) < Value(m[..])
  {
    ghost var x := b[..];
    k := 0;
    TopLimb(m[..]);
    var r := BigComp(b, m);
    while r >= 0
      invariant b[..] == x && Normed(m[..]) && Chunk(m[m.Length - 1]) && Value(m[..]) > 0
      invariant Normed(e[..]) && Chunk(e[e.Length - 1])
      invariant Dividing(v, c, 0, Value(x), Value(m[..]), Value(e[..]), k)
      invariant r >= 0 <==> Value(x) >= Value(m[..])
      decreases Value(x) - Value(m[..])
    {
      DividingUp(v, c, Value(x), Value(m[..]), Value(e[..]), k);
      TopBelow(m[..], x);
      TopLimb(m[..]);
      SmallTop(e[..]);
      BigDouble(e);
      BigDouble(m);
      k := k + 1;
      r := BigComp(b, m);
    }
  }

  /** r = a + e, moved into a if d is 1. */
  method AddIfFits(a: array<int>, e: array<int>, r: array<int>, d: int, ghost limit: int)
    requires a.Length == e.Length == r.Length > 1 && r != a && r != e && a != e
    requires Reduced(a[..]) && Normed(e[..]) && 0 <= e[e.Length - 1] < 0x4000_0000 && (d == 0 || d == 1)
    requires limit < W(a.Length) && (d == 1 ==> 0 <= Value(a[..]) + Value(e[..]) <= limit)
    modifies a, r
    ensures Value(a[..]) == old(Value(a[..])) + (if d == 1 then Value(e[..]) else 0)
    ensures Reduced(a[..])
  {
    BigAdd(r, a, e);
    BigNorm(r);
    BigCmove(a, r, d);
    if d == 1 { FitsTop(a[..]); }
  }

  // ---------- the entry points that copy their arguments ----------

  /** BIG_zero. */
  method BigZero(a: array<int>)
    modifies a
    ensures Reduced(a[..]) && Value(a[..]) == 0
  {
    var i := 0;
    while i < a.Length
      invariant 0 <= i <= a.Length
      invariant forall j :: 0 <= j < i ==> a[j] == 0
    {
      a[i] := 0;
      i := i + 1;
    }
    ValueToZero(a[..], a.Length);
  }

  /** BIG_zero and BIG_inc(1). */
  method BigOne(n: nat) returns (e: array<int>)
    requires n > 1
    ensures fresh(e) && e.Length == n && Reduced(e[..]) && Value(e[..]) == 1
  {
    e := new int[n];
    BigZero(e);
    ghost var s := e[..];
    e[0] := 1;
    assert e[..] == s[0 := 1];
    ValueToUpdate(s, n, 0, 1);
    TermLow(1);
    TermLow(s[0]);
    AllZero(s);
  }

  lemma AllZero(s: seq<int>)
    requires Reduced(s) && Value(s) == 0
    ensures forall i :: 0 <= i < |s| ==> s[i] == 0
  {
    var z := seq(|s|, _ => 0);
    ValueToZero(z, |s|);
    Unique(s, z);
  }

  /** BIG_dscopy: a reduced number in the lower half of a double-length one. */
  method LowerCopy(c: array<int>) returns (m: array<int>)
    requires c.Length > 1 && Reduced(c[..])
    ensures fresh(m) && m.Length == 2 * c.Length && Reduced(m[..]) && Value(m[..]) == Value(c[..])
    ensures m[m.Length - 1] == 0
  {
    m := new int[2 * c.Length];
    var i := 0;
    while i < m.Length
      invariant 0 <= i <= m.Length
      invariant forall j :: 0 <= j < i ==> m[j] == if j < c.Length then c[j] else 0
    {
      m[i] := if i < c.Length then c[i] else 0;
      i := i + 1;
    }
    ValueToPadded(c[..], m[..], m.Length);
  }

  lemma {:induction false} ValueToPadded(s: seq<int>, t: seq<int>, k: nat)
    requires |s| <= k <= |t|
    requires forall i :: 0 <= i < |t| ==> t[i] == if i < |s| then s[i] else 0
    ensures ValueTo(t, k) == Value(s)
  {
    if k == |s| {
      ValueToFrame(s, t, k);
    } else {
      ValueToPadded(s, t, k - 1);
      TermZero(k - 1);
    }
  }

  /** BIG_sdcopy of a number that fits the lower half. */
  method LowerHalf(a: array<int>, b: array<int>)
    requires b.Length == 2 * a.Length && a != b && a.Length > 1
    requires Normed(b[..]) && 0 <= Value(b[..]) < W(a.Length)
    modifies a
    ensures Reduced(a[..]) && Value(a[..]) == Value(b[..])
  {
    var i := 0;
    while i < a.Length
      invariant 0 <= i <= a.Length
      invariant forall j :: 0 <= j < i ==> a[j] == b[j]
    {
      a[i] := b[i];
      i := i + 1;
    }
    LowerHalfValue(a[..], b[..]);
  }

  lemma LowerHalfValue(a: seq<int>, b: seq<int>)
    requires |b| == 2 * |a| && |a| > 1 && Normed(b) && 0 <= Value(b) < W(|a|)
    requires forall i :: 0 <= i < |a| ==> a[i] == b[i]
    ensures Reduced(a) && Value(a) == Value(b)
  {
    var v := Value(b);
    DigitsSpec(v, |a|);
    var lo := Digits(v, |a|);
    var padded := lo + seq(|a|, _ => 0);
    ValueToPadded(lo, padded, |b|);
    Unique(b, padded);
    assert a == lo;
  }

  /** BIG_dmod: a = b mod c; b is destroyed. */
  method BigDmod(a: array<int>, b: array<int>, c: array<int>)
    requires b.Length == 2 * c.Length && a.Length == c.Length > 1
    requires a != b && b != c && LooseDividend(b[..])
    requires Reduced(c[..]) && Value(c[..]) > 0
    modifies a, b
    ensures Reduced(a[..]) && Value(a[..]) == old(Value(b[..])) % old(Value(c[..]))
  {
    var m := LowerCopy(c);
    ValueToBounds(c[..], c.Length);
    BigMod(b, m);
    LowerHalf(a, b);
  }

  /** BIG_sdiv: a = a / c for numbers of one length. */
  method BigSdiv(a: array<int>, c: array<int>)
    requires a.Length == c.Length > 1 && a != c && LooseDividend(a[..]) && Divisor(c[..])
    requires Value(a[..]) / Value(c[..]) < W(a.Length)
    modifies a
    ensures Reduced(a[..]) && Value(a[..]) == old(Value(a[..])) / Value(c[..])
  {
    BigNorm(a);
    NormedDividend(a[..]);
    var b, m := new int[a.Length], new int[a.Length];
    BigCopy(b, a);
    BigCopy(m, c);
    BigZero(a);
    var e := BigOne(a.Length);
    Divide(a, b, m, e);
  }

  /** BIG_ddiv: a = b / c for a double-length dividend; b is destroyed. */
  method BigDdiv(a: array<int>, b: array<int>, c: array<int>)
    requires b.Length == 2 * c.Length && a.Length == c.Length > 1
    requires a != b && a != c && b != c && LooseDividend(b[..])
    requires Reduced(c[..]) && Value(c[..]) > 0
    requires Value(b[..]) / Value(c[..]) < W(a.Length)
    modifies a, b
    ensures Reduced(a[..]) && Value(a[..]) == old(Value(b[..])) / Value(c[..])
    ensures Value(b[..]) == old(Value(b[..])) % Value(c[..])
  {
    BigNorm(b);
    NormedDividend(b[..]);
    var m := LowerCopy(c);
    BigZero(a);
    var e := BigOne(a.Length);
    Divide(a, b, m, e);
  }
}
