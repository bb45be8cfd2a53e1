/** Montgomery reduction (FP_mod for a modulus of no special form) in both of its branches, and
    the conversions FP_nres and FP_redc. */
module Montgomery {
  import opened Arith
  import opened Limbs
  import opened BigProduct

  /** Bound on every column sum below. */
  const TMAX: int := 0x4_0000_0000 + 18 * 0x3FF_FFFF_C000_0001

  /** r is d/R modulo p: the one number with r*R == d + v*p for a v below R. */
  ghost predicate Reduces(r: int, d: int, p: int, n: nat) {
    exists v :: Quotient(v, r, d, p, n)
  }

  ghost predicate Quotient(v: int, r: int, d: int, p: int, n: nat) {
    0 <= v < W(n) && r * W(n) == d + v * p
  }

  /** The constant MConst: -1/p modulo the radix, which only depends on the lowest limb of p. */
  ghost predicate MontgomeryConstant(mc: int, p0: int) { (mc * p0 + 1) % 0x2000_0000 == 0 }

  /** (chunk)t*MConst & BMASK, computed in 32-bit arithmetic that wraps around. */
  function LowProduct(t: int, mc: int): int {
    ((t % 0x1_0000_0000) * mc) % 0x1_0000_0000 % 0x2000_0000
  }

  lemma LowProductExact(t: int, mc: int)
    ensures LowProduct(t, mc) == (t * mc) % 0x2000_0000
  {
    var m := 0x1_0000_0000;
    CongMod(t, m);
    CongMul(t % m, t, mc, mc, m);
    CongMod((t % m) * mc, m);
    CongDivisor((t % m) * mc % m, t * mc, 0x2000_0000, 8);
  }

  /** Adding v*p0 clears the lowest limb. */
  lemma ClearsLimb(t: int, mc: int, p0: int)
    requires MontgomeryConstant(mc, p0)
    ensures (t + LowProduct(t, mc) * p0) % 0x2000_0000 == 0
  {
    LowProductExact(t, mc);
    var v := (t * mc) % 0x2000_0000;
    CongMod(t * mc, 0x2000_0000);
    CongMul(v, t * mc, p0, p0, 0x2000_0000);
    CongAdd(t, t, v * p0, (t * mc) * p0, 0x2000_0000);
    assert t + (t * mc) * p0 == t * (mc * p0 + 1);
    CongMul(t, t, mc * p0 + 1, 0, 0x2000_0000);
  }

  // ---------- column bookkeeping ----------

  lemma {:induction false} ColSumFrame(x: seq<int>, x': seq<int>, y: seq<int>, cols: nat)
    requires |x| == |x'| && cols <= |x|
    requires forall j :: 0 <= j < cols ==> x[j] == x'[j]
    ensures ColSum(x, y, |x|, cols) == ColSum(x', y, |x|, cols)
  {
    if cols > 0 {
      ColSumFrame(x, x', y, cols - 1);
      ConvWindow(x, y, cols - 1, 0, cols);
      ConvWindow(x', y, cols - 1, 0, cols);
      ConvFrame(x, x', y, cols - 1, 0, cols);
    }
  }

  /** The result limbs known before column k, worth their place above limb n. */
  ghost function Out(a: seq<int>, n: nat, k: nat): int
    requires k - n <= |a|
  {
    Term(if k <= n then 0 else ValueTo(a, k - n), n)
  }

  /** The carry c before column k, with the digits of the quotient in x and k-n result limbs in a. */
  ghost predicate Pending(c: int, a: seq<int>, x: seq<int>, d: seq<int>, y: seq<int>, k: nat) {
    && 0 < |x| == |y| && |a| == |x| && |d| == 2 * |x| && k < 2 * |x|
    && 0 <= c <= 0x4_0000_0000
    && Term(c, k) + Out(a, |x|, k) == ValueTo(d, k + 1) + ColSum(x, y, |x|, k)
    && forall j :: 0 <= j < k - |x| ==> 0 <= a[j] < 0x2000_0000
  }

  lemma LowColumnDone(c: int, a: seq<int>, x: seq<int>, x': seq<int>, d: seq<int>, y: seq<int>, k: nat, t: int)
    requires k < |x| == |x'| && x' == x[k := x'[k]] && Pending(c, a, x, d, y, k) && Reduced(d)
    requires t == c + Conv(x', y, k, 0, |x|) && t % 0x2000_0000 == 0
    requires 0 <= t <= TMAX
    ensures Pending(t / 0x2000_0000 + d[k + 1], a, x', d, y, k + 1)
  {
    ColSumFrame(x, x', y, k);
    TermCarry(t, k);
    TermZero(k);
    TermAdd(c, t - c, k);
    TermAdd(t / 0x2000_0000, d[k + 1], k + 1);
    CarryBound(t, d[k + 1]);
  }

  lemma OutNext(a: seq<int>, a': seq<int>, n: nat, k: nat)
    requires n <= k < n + |a| && |a'| == |a| && a' == a[k - n := a'[k - n]]
    ensures Out(a', n, k + 1) == Out(a, n, k) + Term(a'[k - n], k)
  {
    var r := a'[k - n];
    ValueToFrame(a, a', k - n);
    assert ValueTo(a', k - n + 1) == ValueTo(a, k - n) + Term(r, k - n);
    TermAdd(ValueTo(a, k - n), Term(r, k - n), n);
    TermNest(r, k - n, n, k);
    if k == n { TermZero(n); }
  }

  lemma HighColumnDone(c: int, a: seq<int>, a': seq<int>, x: seq<int>, d: seq<int>, y: seq<int>, k: nat, t: int)
    requires |x| <= k < 2 * |x| - 1 && Pending(c, a, x, d, y, k) && Reduced(d)
    requires t == c + Conv(x, y, k, 0, |x|)
    requires 0 <= t <= TMAX
    requires a' == a[k - |x| := t % 0x2000_0000]
    ensures Pending(t / 0x2000_0000 + d[k + 1], a', x, d, y, k + 1)
  {
    var q, r := t / 0x2000_0000, t % 0x2000_0000;
    OutNext(a, a', |x|, k);
    TermCarry(t, k);
    TermAdd(c, t - c, k);
    TermAdd(q, d[k + 1], k + 1);
    CarryBound(t, d[k + 1]);
  }

  lemma CarryBound(t: int, d: int)
    requires 0 <= t <= TMAX && 0 <= d < 0x2000_0000
    ensures 0 <= t / 0x2000_0000 + d <= 0x4_0000_0000
  {
  }

  /** The input and modulus bounds of FP_mod: d below M*R and p at most M, with 2M at most R. */
  ghost predicate InRange(d: int, p: int, m: int, n: nat) {
    0 <= d < m * W(n) && 0 < p <= m && 2 * m <= W(n)
  }

  lemma ResultBounds(r: int, v: int, d: int, p: int, m: int, n: nat)
    requires InRange(d, p, m, n) && Quotient(v, r, d, p, n)
    ensures 0 <= r < 2 * m
  {
    MulMono(v, W(n), p);
    MulMono(p, m, W(n));
    MulMono(0, v, p);
    assert r * W(n) < (2 * m) * W(n);
    if r >= 2 * m { MulMono(2 * m, r, W(n)); }
    if r < 0 { MulMono(r, -1, W(n)); }
  }

  // ---------- FP_mod, column by column ----------

  /** One turn of the first loop: column k without its last product, and then the digit v[k]
      that clears it. */
  method LowColumn(v: array<int>, md: array<int>, mc: int, k: nat, c: int, s: int) returns (t: int)
    requires k < md.Length == v.Length <= MAX_NLEN && v != md
    requires Reduced(v[..]) && Reduced(md[..]) && MontgomeryConstant(mc, md[0])
    requires 0 <= c <= 0x4_0000_0000 && s == Diag(v[..], md[..], 1, k)
    modifies v
    ensures Reduced(v[..]) && v[..] == old(v[..])[k := v[k]]
    ensures t == c + Conv(v[..], md[..], k, 0, md.Length) && t % 0x2000_0000 == 0
    ensures 0 <= t <= TMAX
  {
    ghost var x, y := v[..], md[..];
    t := c;
    if k > 0 {
      DiagBounds(x, y, 1, k);
      ProductBound(v[0], md[k]);
      t := Column(v, md, k, k - 1, C64(c + s + v[0] * md[k]), c + v[0] * md[k]);
      assert Conv(x, y, k, 0, 0) == 0 && Conv(x, y, k, 0, 1) == x[0] * y[k];
      ConvSplit(x, y, k, 0, 1, k);
    }
    ClearsLimb(t, mc, md[0]);
    v[k] := LowProduct(t, mc);
    assert v[..] == x[k := v[k]];
    ConvFrame(x, v[..], y, k, 0, k);
    ProductBound(v[k], md[0]);
    t := C64(t + v[k] * md[0]);
    ConvWindow(v[..], y, k, 0, k + 1);
  }

  /** First loop: the quotient digits v[0..n), one column at a time. */
  method LowColumns(d: array<int>, md: array<int>, mc: int, ghost a: seq<int>)
    returns (v: array<int>, dd: array<int>, c: int, s: int)
    requires 0 < md.Length <= MAX_NLEN && d.Length == 2 * md.Length && |a| == md.Length
    requires Reduced(d[..]) && Reduced(md[..]) && MontgomeryConstant(mc, md[0])
    ensures fresh(v) && fresh(dd) && v.Length == dd.Length == md.Length && Reduced(v[..])
    ensures forall j :: 1 <= j < md.Length ==> dd[j] == v[j] * md[j]
    ensures s == Diag(v[..], md[..], 1, md.Length)
    ensures Pending(c, a, v[..], d[..], md[..], md.Length)
  {
    var n := md.Length;
    ghost var y, dv := md[..], d[..];
    v := new int[n](_ => 0);
    dd := new int[n];
    c, s := d[0], 0;
    var k := 0;
    PendingStart(a, v[..], dv, y);
    while k < n
      invariant 0 <= k <= n && md[..] == y && d[..] == dv && Reduced(v[..])
      invariant forall j :: 1 <= j < k ==> dd[j] == v[j] * md[j]
      invariant s == Diag(v[..], y, 1, k)
      invariant Pending(c, a, v[..], dv, y, k)
    {
      c, s := LowTurn(v, dd, d, md, mc, k, c, s, a);
      k := k + 1;
    }
  }

  /** One turn of the first loop. */
  method LowTurn(v: array<int>, dd: array<int>, d: array<int>, md: array<int>, mc: int, k: nat, c: int, s: int, ghost a: seq<int>)
    returns (c': int, s': int)
    requires k < md.Length == v.Length == dd.Length <= MAX_NLEN && d.Length == 2 * md.Length && |a| == md.Length
    requires v != md && v != dd && v != d && dd != md && dd != d
    requires Reduced(v[..]) && Reduced(d[..]) && Reduced(md[..]) && MontgomeryConstant(mc, md[0])
    requires s == Diag(v[..], md[..], 1, k) && Pending(c, a, v[..], d[..], md[..], k)
    modifies v, dd
    ensures Reduced(v[..]) && v[..] == old(v[..])[k := v[k]]
    ensures dd[..] == if k == 0 then old(dd[..]) else old(dd[..])[k := v[k] * md[k]]
    ensures s' == Diag(v[..], md[..], 1, k + 1) && Pending(c', a, v[..], d[..], md[..], k + 1)
  {
    ghost var x := v[..];
    var t := LowColumn(v, md, mc, k, c, s);
    LowColumnDone(c, a, x, v[..], d[..], md[..], k, t);
    DiagFrame(x, v[..], md[..], 1, k);
    c', s' := C64(t / 0x2000_0000 + d[k + 1]), s;
    if k > 0 {
      s' := NextDiagonal(v, md, dd, k, s);
    }
  }

  /** dd[k] = v[k]*md[k], added to the running sum. */
  method NextDiagonal(v: array<int>, md: array<int>, dd: array<int>, k: nat, s: int) returns (s': int)
    requires 0 < k < md.Length == v.Length == dd.Length <= MAX_NLEN && dd != v && dd != md
    requires Reduced(v[..]) && Reduced(md[..]) && s == Diag(v[..], md[..], 1, k)
    modifies dd
    ensures dd[..] == old(dd[..])[k := v[k] * md[k]]
    ensures s' == Diag(v[..], md[..], 1, k + 1)
  {
    ProductBound(v[k], md[k]);
    dd[k] := C64(v[k] * md[k]);
    DiagBounds(v[..], md[..], 1, k + 1);
    s' := C64(s + dd[k]);
  }

  lemma PendingStart(a: seq<int>, x: seq<int>, d: seq<int>, y: seq<int>)
    requires 0 < |x| == |y| == |a| && |d| == 2 * |x| && Reduced(d)
    ensures Pending(d[0], a, x, d, y, 0)
  {
    TermZero(|x|);
    assert ValueTo(d, 1) == ValueTo(d, 0) + Term(d[0], 0);
  }

  lemma {:induction false} DiagFrame(x: seq<int>, x': seq<int>, y: seq<int>, lo: int, hi: int)
    requires 0 <= lo && hi <= |x| == |x'| && forall j :: lo <= j < hi ==> x[j] == x'[j]
    ensures Diag(x, y, lo, hi) == Diag(x', y, lo, hi)
    decreases hi - lo
  {
    if lo < hi { DiagFrame(x, x', y, lo, hi - 1); }
  }

  /** One turn of the second loop: column k of the quotient times p, and the running sum for the
      next column. */
  method HighColumn(v: array<int>, md: array<int>, dd: array<int>, k: nat, c: int, s: int) returns (t: int, s': int)
    requires 1 < md.Length == v.Length == dd.Length <= MAX_NLEN && md.Length <= k < 2 * md.Length - 1
    requires Reduced(v[..]) && Reduced(md[..])
    requires forall j :: 1 <= j < md.Length ==> dd[j] == v[j] * md[j]
    requires 0 <= c <= 0x4_0000_0000 && s == Diag(v[..], md[..], k - md.Length + 1, md.Length)
    ensures t == c + Conv(v[..], md[..], k, 0, md.Length) && 0 <= t <= TMAX
    ensures s' == Diag(v[..], md[..], k - md.Length + 2, md.Length)
  {
    var n := md.Length;
    ghost var x, y := v[..], md[..];
    DiagBounds(x, y, k - n + 1, n);
    t := Column(v, md, k, n - 1, C64(c + s), c);
    ConvWindow(x, y, k, k - n + 1, n);
    DiagSplit(x, y, k - n + 1, k - n + 2, n);
    assert Diag(x, y, k - n + 1, k - n + 1) == 0;
    DiagBounds(x, y, k - n + 2, n);
    s' := C64(s - dd[k - n + 1]);
  }

  /** Second loop: the result limbs a[0..n-1). */
  method HighColumns(a: array<int>, d: array<int>, md: array<int>, v: array<int>, dd: array<int>, c0: int, s0: int)
    returns (c: int)
    requires 1 < md.Length == v.Length == dd.Length == a.Length <= MAX_NLEN && d.Length == 2 * md.Length
    requires a != d && a != md && a != v && a != dd
    requires Reduced(d[..]) && Reduced(md[..]) && Reduced(v[..])
    requires forall j :: 1 <= j < md.Length ==> dd[j] == v[j] * md[j]
    requires s0 == Diag(v[..], md[..], 1, md.Length)
    requires Pending(c0, a[..], v[..], d[..], md[..], md.Length)
    modifies a
    ensures Pending(c, a[..], v[..], d[..], md[..], 2 * md.Length - 1)
  {
    var n := md.Length;
    ghost var x, y, dv := v[..], md[..], d[..];
    c := c0;
    var s, k := s0, n;
    while k < 2 * n - 1
      invariant n <= k <= 2 * n - 1 && md[..] == y && d[..] == dv && v[..] == x
      invariant dd[..] == old(dd[..])
      invariant s == Diag(x, y, k - n + 1, n)
      invariant Pending(c, a[..], x, dv, y, k)
    {
      var t;
      t, s := HighColumn(v, md, dd, k, c, s);
      ghost var before := a[..];
      a[k - n] := t % 0x2000_0000;
      assert a[..] == before[k - n := t % 0x2000_0000];
      HighColumnDone(c, before, a[..], x, dv, y, k, t);
      c := C64(t / 0x2000_0000 + d[k + 1]);
      k := k + 1;
    }
  }

  /** FP_mod with COMBA: a = d/R modulo p. */
  method FpMod(a: array<int>, d: array<int>, md: array<int>, mc: int, ghost m: int)
    requires 1 < md.Length <= MAX_NLEN && d.Length == 2 * md.Length && a.Length == md.Length
    requires a != d && a != md
    requires Reduced(d[..]) && Reduced(md[..]) && MontgomeryConstant(mc, md[0])
    requires InRange(Value(d[..]), Value(md[..]), m, md.Length)
    modifies a
    ensures Reduced(a[..])
    ensures Reduces(Value(a[..]), Value(d[..]), Value(md[..]), md.Length)
    ensures 0 <= Value(a[..]) < 2 * m
  {
    var n := md.Length;
    ghost var y, dv := md[..], d[..];
    var v, dd, c, s := LowColumns(d, md, mc, a[..]);
    ghost var x := v[..];
    c := HighColumns(a, d, md, v, dd, c, s);
    TopFits(c, a[..], x, dv, y, m);
    ghost var before := a[..];
    a[n - 1] := c % 0x2000_0000;
    assert a[..] == before[n - 1 := c];
    TopWritten(c, before, x, dv, y, m);
  }

  lemma TopWritten(c: int, a: seq<int>, x: seq<int>, d: seq<int>, y: seq<int>, m: int)
    requires 1 < |x| && Pending(c, a, x, d, y, 2 * |x| - 1) && Reduced(x) && Reduced(d) && Reduced(y)
    requires InRange(Value(d), Value(y), m, |x|)
    ensures var r := a[|x| - 1 := c];
      Reduced(r) && Reduces(Value(r), Value(d), Value(y), |x|) && 0 <= Value(r) < 2 * m
  {
    var n := |x|;
    var r := a[n - 1 := c];
    TopFits(c, a, x, d, y, m);
    ValueToFrame(a, r, n - 1);
    assert Quotient(Value(x), Value(r), Value(d), Value(y), n);
    ResultBounds(Value(r), Value(x), Value(d), Value(y), m, n);
  }

  /** The last carry is a limb, so masking it loses nothing. */
  lemma TopFits(c: int, a: seq<int>, x: seq<int>, d: seq<int>, y: seq<int>, m: int)
    requires 1 < |x| && Pending(c, a, x, d, y, 2 * |x| - 1) && Reduced(x) && Reduced(d) && Reduced(y)
    requires InRange(Value(d), Value(y), m, |x|)
    ensures c < 0x2000_0000
    ensures 0 <= Value(x) < W(|x|)
    ensures (ValueTo(a, |x| - 1) + Term(c, |x| - 1)) * W(|x|) == Value(d) + Value(x) * Value(y)
  {
    var n := |x|;
    LastColumn(x, y, n);
    ColumnsAreProduct(x, y, n, 2 * n);
    ValueToBounds(x, n);
    ValueToBounds(a, n - 1);
    var low := ValueTo(a, n - 1);
    var r := low + Term(c, n - 1);
    TermAdd(low, Term(c, n - 1), n);
    TermNest(c, n - 1, n, 2 * n - 1);
    TermIs(r, n);
    assert Quotient(Value(x), r, Value(d), Value(y), n);
    ResultBounds(r, Value(x), Value(d), Value(y), m, n);
    if c >= 0x2000_0000 {
      TermMono(0x2000_0000, c, n - 1);
      TermIs(0x2000_0000, n - 1);
      WNext(n - 1);
      assert false;
    }
  }

  // ---------- FP_mod, row by row ----------

  /** d += mult * p at limb position i.  The limbs below i+n come out reduced; the carry is added to
      limb i+n, which may therefore hold up to two limbs' worth. */
  method AddMultiple(d: array<int>, mult: int, md: array<int>, i: nat)
    requires 0 < md.Length && i + md.Length < d.Length && d != md
    requires 0 <= mult < 0x2000_0000 && Reduced(md[..])
    requires forall j :: 0 <= j < d.Length && j != i + md.Length - 1 ==> 0 <= d[j] < 0x2000_0000
    requires 0 <= d[i + md.Length - 1] < 0x4000_0000
    modifies d
    ensures Value(d[..]) == Value(old(d[..])) + Prod(mult, Term(Value(md[..]), i))
    ensures forall j :: 0 <= j < d.Length && j != i + md.Length ==> 0 <= d[j] < 0x2000_0000
    ensures 0 <= d[i + md.Length] < 0x4000_0000
    ensures forall j :: 0 <= j < i ==> d[j] == old(d[j])
    ensures d[i] == (old(d[i]) + mult * md[0]) % 0x2000_0000
  {
    ghost var s, y := d[..], md[..];
    var n := md.Length;
    var carry, j := 0, 0;
    TermZero(i);
    ProdIs(mult, 0);
    while j < n
      invariant 0 <= j <= n && md[..] == y
      invariant 0 <= carry <= (if j == n then 0x2000_0000 else 0x1FFF_FFFF)
      invariant forall m :: 0 <= m < i || i + j <= m < d.Length ==> d[m] == s[m]
      invariant forall m :: i <= m < i + j ==> 0 <= d[m] < 0x2000_0000
      invariant if j == 0 then carry == 0 else d[i] == (s[i] + mult * y[0]) % 0x2000_0000
      invariant Value(d[..]) + Term(carry, i + j) == Value(s) + Prod(mult, Term(ValueTo(y, j), i))
    {
      ghost var before, r, old_carry := d[..], d[i + j], carry;
      ProductBound(mult, md[j]);
      var prod := C64(mult * md[j] + carry + d[i + j]);
      d[i + j], carry := prod % 0x2000_0000, prod / 0x2000_0000;
      assert d[..] == before[i + j := prod % 0x2000_0000];
      ValueToUpdate(before, |before|, i + j, prod % 0x2000_0000);
      RowCell(prod % 0x2000_0000, carry, mult, md[j], old_carry, r, i, j, ValueTo(y, j));
      j := j + 1;
    }
    ghost var before := d[..];
    d[i + n] := C32(d[i + n] + carry);
    assert d[..] == before[i + n := before[i + n] + carry];
    ValueToUpdate(before, |before|, i + n, before[i + n] + carry);
    TermAdd(before[i + n], carry, i + n);
  }

  /** When the lowest n limbs are zero, the rest is the number divided by W(n). */
  lemma {:induction false} UpperHalf(d: seq<int>, n: nat, k: nat)
    requires n + k <= |d| && forall j :: 0 <= j < n ==> d[j] == 0
    ensures ValueTo(d, n + k) == Term(ValueTo(d[n..], k), n)
  {
    if k == 0 {
      ValueToZero(d, n);
      TermZero(n);
    } else {
      UpperHalf(d, n, k - 1);
      var x := d[n + k - 1];
      assert d[n..][k - 1] == x;
      TermNest(x, k - 1, n, n + k - 1);
      TermAdd(ValueTo(d[n..], k - 1), Term(x, k - 1), n);
    }
  }

  /** i rows are done: d has become d0 + v*p for the i quotient digits v, and its lowest i limbs
      are clear. */
  ghost predicate RowsDone(d: seq<int>, d0: seq<int>, v: seq<int>, y: seq<int>, i: nat) {
    && 0 < |y| && |d| == 2 * |y| && i <= |y| && |v| == i && Reduced(v)
    && (forall j :: 0 <= j < i ==> d[j] == 0)
    && (forall j :: 0 <= j < |d| && j != i + |y| - 1 ==> 0 <= d[j] < 0x2000_0000)
    && 0 <= d[i + |y| - 1] < 0x4000_0000
    && Value(d) == Value(d0) + Value(v) * Value(y)
  }

  lemma RowDone(d: seq<int>, d': seq<int>, d0: seq<int>, v: seq<int>, y: seq<int>, i: nat, mult: int)
    requires RowsDone(d, d0, v, y, i) && i < |y| && |d'| == |d| && 0 <= mult < 0x2000_0000
    requires Value(d') == Value(d) + Prod(mult, Term(Value(y), i))
    requires forall j :: 0 <= j < |d'| && j != i + |y| ==> 0 <= d'[j] < 0x2000_0000
    requires 0 <= d'[i + |y|] < 0x4000_0000
    requires forall j :: 0 <= j <= i ==> d'[j] == 0
    ensures RowsDone(d', d0, v + [mult], y, i + 1)
  {
    ValueToFrame(v + [mult], v, i);
    FactorOut(Value(v), mult, i, Value(y));
  }

  /** BIG_sducopy: the upper half of d. */
  method UpperCopy(a: array<int>, d: array<int>)
    requires a != d && d.Length == 2 * a.Length
    modifies a
    ensures a[..] == d[a.Length..]
  {
    var i := 0;
    while i < a.Length
      invariant 0 <= i <= a.Length
      invariant forall j :: 0 <= j < i ==> a[j] == d[a.Length + j]
    {
      a[i] := d[i + a.Length];
      i := i + 1;
    }
  }

  lemma RowsAreQuotient(d: seq<int>, d0: seq<int>, v: seq<int>, y: seq<int>, m: int)
    requires RowsDone(d, d0, v, y, |y|) && InRange(Value(d0), Value(y), m, |y|)
    ensures Reduces(Value(d[|y|..]), Value(d0), Value(y), |y|)
    ensures 0 <= Value(d[|y|..]) < 2 * m
  {
    var n := |y|;
    UpperHalf(d, n, n);
    var r := Value(d[n..]);
    TermIs(r, n);
    ValueToBounds(v, n);
    assert Quotient(Value(v), r, Value(d0), Value(y), n);
    ResultBounds(r, Value(v), Value(d0), Value(y), m, n);
  }

  /** FP_mod without COMBA.  d is destroyed. */
  method FpModRows(a: array<int>, d: array<int>, md: array<int>, mc: int, ghost m: int)
    requires 0 < md.Length && d.Length == 2 * md.Length && a.Length == md.Length
    requires a != d && a != md && d != md
    requires Reduced(d[..]) && Reduced(md[..]) && MontgomeryConstant(mc, md[0])
    requires InRange(Value(d[..]), Value(md[..]), m, md.Length)
    modifies a, d
    ensures Reduced(a[..])
    ensures Reduces(Value(a[..]), Value(old(d[..])), Value(md[..]), md.Length)
    ensures 0 <= Value(a[..]) < 2 * m
  {
    var n := md.Length;
    ghost var d0, y := d[..], md[..];
    ghost var v: seq<int> := [];
    var i := 0;
    while i < n
      invariant 0 <= i <= n && md[..] == y && RowsDone(d[..], d0, v, y, i)
    {
      ghost var before := d[..];
      var mult := LowProduct(d[i], mc);
      ClearsLimb(d[i], mc, md[0]);
      AddMultiple(d, mult, md, i);
      RowDone(before, d[..], d0, v, y, i, mult);
      v := v + [mult];
      i := i + 1;
    }
    RowsAreQuotient(d[..], d0, v, y, m);
    UpperCopy(a, d);
    BigNorm(a);
    FitsTop(a[..]);
  }

  // ---------- what the reduction means ----------

  /** A modulus with a Montgomery constant is coprime to every power of the radix. */
  lemma ModulusCoprime(mc: int, md: seq<int>, n: nat)
    requires 0 < |md| && MontgomeryConstant(mc, md[0])
    ensures Coprime(W(n), Value(md))
  {
    var p, p0 := Value(md), md[0];
    var h := HighPart(md, 1, |md|);
    TermLow(p0);
    TermIs(h, 1);
    WNext(0);
    WZero();
    assert p == p0 + h * 0x2000_0000;
    var k := (mc * p0 + 1) / 0x2000_0000;
    assert (k + mc * h) * 0x2000_0000 + (-mc) * p == 1 by {
      assert (mc * h) * 0x2000_0000 == mc * (h * 0x2000_0000);
      assert mc * p == mc * p0 + mc * (h * 0x2000_0000);
    }
    CoprimeIntro(0x2000_0000, p, k + mc * h, -mc);
    CoprimePow(0x2000_0000, n, p);
    WIsPower(n);
  }

  /** There is only one such quotient, so both branches of FP_mod return the same integer. */
  lemma ReducesUnique(r: int, r': int, d: int, p: int, n: nat)
    requires p > 0 && Coprime(W(n), p) && Reduces(r, d, p, n) && Reduces(r', d, p, n)
    ensures r == r'
  {
    var v :| Quotient(v, r, d, p, n);
    var v' :| Quotient(v', r', d, p, n);
    var w := W(n);
    CoprimeFlip(w, p);
    assert p * v - p * v' == (r - r') * w by {
      assert (r - r') * w == r * w - r' * w;
    }
    CongIntro(p * v, p * v', r - r', w);
    CongCancel(p, v, v', w);
    CongSmall(v, v', w);
    MulCancel(r, r', w);
  }

  /** FP_mod divides by R modulo p. */
  lemma ReducesCong(r: int, d: int, p: int, n: nat)
    requires p > 0 && Reduces(r, d, p, n)
    ensures Cong(r * W(n), d, p)
  {
    var v :| Quotient(v, r, d, p, n);
    CongIntro(r * W(n), d, v, p);
  }

  /** Converting to Montgomery form and back reduces modulo p, and nothing else. */
  lemma RedcNres(a: int, r: int, p: int, n: nat)
    requires p > 0 && Coprime(W(n), p)
    requires Reduces(r, (a * W(n)) % p, p, n)
    ensures r == a % p
  {
    var w := W(n);
    var x := (a * w) % p;
    ReducesCong(r, x, p, n);
    CongMod(a * w, p);
    assert w * r == r * w && w * a == a * w;
    CongCancel(w, r, a, p);
    ReducesBelow(r, x, p, n);
    CongMod(a, p);
    CongSmall(r, a % p, p);
  }

  lemma ReducesBelow(r: int, x: int, p: int, n: nat)
    requires 0 <= x < p && Reduces(r, x, p, n)
    ensures 0 <= r < p
  {
    var v :| Quotient(v, r, x, p, n);
    var w := W(n);
    MulMono(v, w - 1, p);
    MulMono(0, v, p);
    assert (w - 1) * p + p == p * w;
    if r >= p { MulMono(p, r, w); }
    if r < 0 { MulMono(r, -1, w); }
  }

  /** The product of two numbers in Montgomery form is the Montgomery form of their product. */
  lemma MontgomeryProduct(a: int, b: int, r: int, x: int, y: int, p: int, n: nat)
    requires p > 0 && Coprime(W(n), p)
    requires Cong(a, x * W(n), p) && Cong(b, y * W(n), p) && Reduces(r, a * b, p, n)
    ensures Cong(r, (x * y) * W(n), p)
  {
    ReducesCong(r, a * b, p, n);
    ScaledForm(a, b, r, x, y, W(n), p);
  }
}
