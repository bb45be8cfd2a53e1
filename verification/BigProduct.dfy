/** Multiplication of limb arrays: the pseudo-Karatsuba column method of BIG_mul against the
    schoolbook branch built on muladd, and the truncated product BIG_smul. */
module BigProduct {
  import opened Arith
  import opened Limbs

  // ---------- columns of a product ----------

  ghost function At(s: seq<int>, i: int): int { if 0 <= i < |s| then s[i] else 0 }

  /** The part of column k of x*y that comes from x[lo..hi]. */
  ghost function Conv(x: seq<int>, y: seq<int>, k: int, lo: int, hi: int): int
    decreases hi - lo
  {
    if lo >= hi then 0 else Conv(x, y, k, lo, hi - 1) + At(x, hi - 1) * At(y, k - (hi - 1))
  }

  /** x[lo]*y[lo] + ... + x[hi-1]*y[hi-1] */
  ghost function Diag(x: seq<int>, y: seq<int>, lo: int, hi: int): int
    decreases hi - lo
  {
    if lo >= hi then 0 else Diag(x, y, lo, hi - 1) + At(x, hi - 1) * At(y, hi - 1)
  }

  /** The integer carried by the first `cols` columns of x[..m] * y. */
  ghost function ColSum(x: seq<int>, y: seq<int>, m: int, cols: nat): int {
    if cols == 0 then 0 else ColSum(x, y, m, cols - 1) + Term(Conv(x, y, cols - 1, 0, m), cols - 1)
  }

  lemma {:induction false} ConvSplit(x: seq<int>, y: seq<int>, k: int, lo: int, mid: int, hi: int)
    requires lo <= mid <= hi
    ensures Conv(x, y, k, lo, hi) == Conv(x, y, k, lo, mid) + Conv(x, y, k, mid, hi)
    decreases hi - mid
  {
    if mid < hi { ConvSplit(x, y, k, lo, mid, hi - 1); }
  }

  lemma {:induction false} DiagSplit(x: seq<int>, y: seq<int>, lo: int, mid: int, hi: int)
    requires lo <= mid <= hi
    ensures Diag(x, y, lo, hi) == Diag(x, y, lo, mid) + Diag(x, y, mid, hi)
    decreases hi - mid
  {
    if mid < hi { DiagSplit(x, y, lo, mid, hi - 1); }
  }

  lemma {:induction false} ConvZero(x: seq<int>, y: seq<int>, k: int, lo: int, hi: int)
    requires lo >= hi || k < lo || k - hi + 1 >= |y| || lo >= |x|
    ensures Conv(x, y, k, lo, hi) == 0
    decreases hi - lo
  {
    if lo < hi { ConvZero(x, y, k, lo, hi - 1); }
  }

  lemma {:induction false} ConvFrame(x: seq<int>, x': seq<int>, y: seq<int>, k: int, lo: int, hi: int)
    requires 0 <= lo && hi <= |x| && hi <= |x'| && forall j :: lo <= j < hi ==> x[j] == x'[j]
    ensures Conv(x, y, k, lo, hi) == Conv(x', y, k, lo, hi)
    decreases hi - lo
  {
    if lo < hi { ConvFrame(x, x', y, k, lo, hi - 1); }
  }

  /** Only the rows that meet column k contribute to it. */
  lemma ConvWindow(x: seq<int>, y: seq<int>, k: int, lo: int, hi: int)
    requires 0 <= lo <= hi <= |x|
    requires lo == 0 || lo == k - |y| + 1
    requires hi == |x| || hi == k + 1
    ensures Conv(x, y, k, 0, |x|) == Conv(x, y, k, lo, hi)
  {
    ConvSplit(x, y, k, 0, lo, |x|);
    ConvSplit(x, y, k, lo, hi, |x|);
    ConvZero(x, y, k, 0, lo);
    ConvZero(x, y, k, hi, |x|);
  }

  lemma ProductBound(p: int, q: int)
    requires 0 <= p < 0x2000_0000 && 0 <= q < 0x2000_0000
    ensures 0 <= p * q <= 0x3FF_FFFF_C000_0001
  {
    MulMono(p, 0x2000_0000 - 1, q);
    MulMono(q, 0x2000_0000 - 1, 0x2000_0000 - 1);
    MulMono(0, p, q);
  }

  lemma {:induction false} ConvBounds(x: seq<int>, y: seq<int>, k: int, lo: int, hi: int)
    requires lo <= hi && Reduced(x) && Reduced(y)
    ensures 0 <= Conv(x, y, k, lo, hi) <= (hi - lo) * 0x3FF_FFFF_C000_0001
    decreases hi - lo
  {
    if lo < hi {
      ConvBounds(x, y, k, lo, hi - 1);
      ProductBound(At(x, hi - 1), At(y, k - (hi - 1)));
      assert (hi - 1 - lo) * 0x3FF_FFFF_C000_0001 + 0x3FF_FFFF_C000_0001 == (hi - lo) * 0x3FF_FFFF_C000_0001;
    }
  }

  lemma {:induction false} DiagBounds(x: seq<int>, y: seq<int>, lo: int, hi: int)
    requires lo <= hi && Reduced(x) && Reduced(y)
    ensures 0 <= Diag(x, y, lo, hi) <= (hi - lo) * 0x3FF_FFFF_C000_0001
    decreases hi - lo
  {
    if lo < hi {
      DiagBounds(x, y, lo, hi - 1);
      ProductBound(At(x, hi - 1), At(y, hi - 1));
      assert (hi - 1 - lo) * 0x3FF_FFFF_C000_0001 + 0x3FF_FFFF_C000_0001 == (hi - lo) * 0x3FF_FFFF_C000_0001;
    }
  }

  // ---------- the columns add up to the product ----------

  /** y moved up by m limbs, cut off after `cols` limbs. */
  ghost function Shifted(y: seq<int>, m: int, cols: nat): int {
    if cols == 0 then 0 else Shifted(y, m, cols - 1) + Term(At(y, cols - 1 - m), cols - 1)
  }

  lemma {:induction false} ShiftedBelow(y: seq<int>, m: nat, cols: nat)
    requires cols <= m
    ensures Shifted(y, m, cols) == 0
  {
    if cols > 0 {
      ShiftedBelow(y, m, cols - 1);
      TermZero(cols - 1);
    }
  }

  lemma {:induction false} ShiftedWithin(y: seq<int>, m: nat, i: nat)
    requires i <= |y|
    ensures Shifted(y, m, m + i) == Term(ValueTo(y, i), m)
  {
    if i == 0 {
      ShiftedBelow(y, m, m);
      TermZero(m);
    } else {
      ShiftedWithin(y, m, i - 1);
      TermNest(y[i - 1], i - 1, m, m + i - 1);
      TermAdd(ValueTo(y, i - 1), Term(y[i - 1], i - 1), m);
    }
  }

  lemma {:induction false} ShiftedValue(y: seq<int>, m: nat, cols: nat)
    requires cols >= m + |y|
    ensures Shifted(y, m, cols) == Term(Value(y), m)
    decreases cols
  {
    if cols == m + |y| {
      ShiftedWithin(y, m, |y|);
    } else {
      ShiftedValue(y, m, cols - 1);
      TermZero(cols - 1);
    }
  }

  lemma {:induction false} ColSumRow(x: seq<int>, y: seq<int>, m: nat, cols: nat)
    requires m < |x|
    ensures ColSum(x, y, m + 1, cols) == ColSum(x, y, m, cols) + x[m] * Shifted(y, m, cols)
  {
    if cols > 0 {
      ColSumRow(x, y, m, cols - 1);
      var k := cols - 1;
      var p, d, q, s := Conv(x, y, k, 0, m), x[m], At(y, k - m), Shifted(y, m, k);
      TermAdd(p, d * q, k);
      TermScale(d, q, k);
      assert d * s + d * Term(q, k) == d * (s + Term(q, k));
    }
  }

  lemma {:induction false} ColSumZero(x: seq<int>, y: seq<int>, cols: nat)
    ensures ColSum(x, y, 0, cols) == 0
  {
    if cols > 0 {
      ColSumZero(x, y, cols - 1);
      TermZero(cols - 1);
    }
  }

  /** Enough columns of x[..m] * y carry the whole product. */
  lemma {:induction false} ColumnsAreProduct(x: seq<int>, y: seq<int>, m: nat, cols: nat)
    requires m <= |x| && cols >= m + |y|
    ensures ColSum(x, y, m, cols) == ValueTo(x, m) * Value(y)
  {
    if m == 0 {
      ColSumZero(x, y, cols);
    } else {
      ColumnsAreProduct(x, y, m - 1, cols);
      ColSumRow(x, y, m - 1, cols);
      ShiftedValue(y, m - 1, cols);
      FactorOut(ValueTo(x, m - 1), x[m - 1], m - 1, Value(y));
    }
  }

  lemma FactorOut(v: int, d: int, i: nat, y: int)
    ensures v * y + d * Term(y, i) == (v + Term(d, i)) * y
    ensures Prod(d, Term(y, i)) == d * Term(y, i)
  {
    ProdIs(d, Term(y, i));
    TermIs(y, i);
    TermIs(d, i);
    assert d * (y * W(i)) == (d * W(i)) * y;
    assert v * y + (d * W(i)) * y == (v + d * W(i)) * y;
  }

  // ---------- BIG_mul, column by column ----------

  /** A column in the making: diagonal products in the window [k-i..i], column products outside it. */
  ghost function Mixed(x: seq<int>, y: seq<int>, k: int, lo: int, i: int, hi: int, carry: int): int {
    carry + Diag(x, y, k - i, i + 1) + Conv(x, y, k, lo, k - i) + Conv(x, y, k, i + 1, hi)
  }

  lemma MixedStep(x: seq<int>, y: seq<int>, k: int, lo: int, i: int, hi: int, carry: int)
    requires Reduced(x) && Reduced(y) && |x| == |y|
    requires 0 <= lo <= k - i < i < hi <= |x| && hi - lo <= MAX_NLEN
    requires 0 <= carry <= 8 * 0x3FF_FFFF_C000_0001
    ensures Mixed(x, y, k, lo, i - 1, hi, carry)
         == Mixed(x, y, k, lo, i, hi, carry) + (x[i] - x[k - i]) * (y[k - i] - y[i])
    ensures Dchunk(Mixed(x, y, k, lo, i - 1, hi, carry)) && Dchunk((x[i] - x[k - i]) * (y[k - i] - y[i]))
  {
    DiagSplit(x, y, k - i, k - i + 1, i + 1);
    ConvSplit(x, y, k, lo, k - i, k - i + 1);
    ConvSplit(x, y, k, i, i + 1, hi);
    assert Diag(x, y, k - i, k - i) == 0 && Conv(x, y, k, k - i, k - i) == 0 && Conv(x, y, k, i, i) == 0;
    PairTerm(x[i], x[k - i], y[i], y[k - i]);
    DiagBounds(x, y, k - i + 1, i);
    ConvBounds(x, y, k, lo, k - i + 1);
    ConvBounds(x, y, k, i, hi);
  }

  lemma MixedEnd(x: seq<int>, y: seq<int>, k: int, lo: int, hi: int, carry: int)
    requires Reduced(x) && Reduced(y) && |x| == |y|
    requires 0 <= lo <= k - k / 2 && k / 2 + 1 <= hi <= |x| && hi - lo <= MAX_NLEN && lo <= hi
    ensures Mixed(x, y, k, lo, k / 2, hi, carry) == carry + Conv(x, y, k, lo, hi)
    ensures 0 <= Conv(x, y, k, lo, hi) <= MAX_NLEN * 0x3FF_FFFF_C000_0001
  {
    var i := k / 2;
    if k % 2 == 0 {
      assert Diag(x, y, i, i) == 0 && Conv(x, y, k, i, i) == 0;
      ConvSplit(x, y, k, lo, i, i + 1);
    }
    ConvSplit(x, y, k, lo, i + 1, hi);
    ConvBounds(x, y, k, lo, hi);
  }

  /** Inner loop of the column method: adds (a[i]-a[k-i])*(b[k-i]-b[i]) for i from `top` down to
      k/2+1, turning a sum of diagonal products into column k.  Every partial sum is itself a sum
      of at most MAX_NLEN limb products, so none leaves 64 bits. */
  method Column(a: array<int>, b: array<int>, k: nat, top: nat, t0: int, ghost carry: int) returns (t: int)
    requires a.Length == b.Length && top < a.Length <= MAX_NLEN && k - top <= top + 1 && top <= k
    requires Reduced(a[..]) && Reduced(b[..])
    requires 0 <= carry <= 8 * 0x3FF_FFFF_C000_0001
    requires t0 == carry + Diag(a[..], b[..], k - top, top + 1)
    ensures t == carry + Conv(a[..], b[..], k, k - top, top + 1)
    ensures 0 <= t <= carry + MAX_NLEN * 0x3FF_FFFF_C000_0001
  {
    ghost var x, y := a[..], b[..];
    ghost var lo, hi := k - top, top + 1;
    t := t0;
    var i := top;
    assert Conv(x, y, k, lo, lo) == 0 && Conv(x, y, k, hi, hi) == 0;
    while i > k / 2
      invariant k / 2 <= i <= top
      invariant t == Mixed(x, y, k, lo, i, hi, carry)
    {
      MixedStep(x, y, k, lo, i, hi, carry);
      t := C64(t + C64(C32(a[i] - a[k - i]) * C32(b[k - i] - b[i])));
      i := i - 1;
    }
    MixedEnd(x, y, k, lo, hi, carry);
  }

  lemma PairTerm(p: int, q: int, r: int, s: int)
    requires 0 <= p < 0x2000_0000 && 0 <= q < 0x2000_0000 && 0 <= r < 0x2000_0000 && 0 <= s < 0x2000_0000
    ensures (p - q) * (s - r) == p * s + q * r - p * r - q * s
    ensures Dchunk((p - q) * (s - r))
  {
    ProductBound(p, s);
    ProductBound(q, r);
    ProductBound(p, r);
    ProductBound(q, s);
  }

  /** The first loop of BIG_mul: all limb-by-limb products. */
  method Diagonal(a: array<int>, b: array<int>) returns (d: array<int>)
    requires a.Length == b.Length && Reduced(a[..]) && Reduced(b[..])
    ensures fresh(d) && d.Length == a.Length
    ensures forall j :: 0 <= j < d.Length ==> d[j] == a[j] * b[j]
  {
    d := new int[a.Length];
    var i := 0;
    while i < a.Length
      invariant 0 <= i <= a.Length
      invariant forall j :: 0 <= j < i ==> d[j] == a[j] * b[j]
    {
      ProductBound(a[i], b[i]);
      d[i] := C64(a[i] * b[i]);
      i := i + 1;
    }
  }

  /** What holds when k columns of the product have been written to c. */
  ghost predicate ColumnsDone(c: seq<int>, x: seq<int>, y: seq<int>, k: nat, co: int)
    requires k <= |c|
  {
    && 0 <= co <= MAX_NLEN * 0x2000_0000
    && (forall j :: 0 <= j < k ==> 0 <= c[j] < 0x2000_0000)
    && ValueTo(c, k) + Term(co, k) == ColSum(x, y, |x|, k)
  }

  lemma ColumnWritten(c: seq<int>, c': seq<int>, x: seq<int>, y: seq<int>, k: nat, co: int, t: int)
    requires k < |c| == |c'| && ColumnsDone(c, x, y, k, co)
    requires t == co + Conv(x, y, k, 0, |x|) && 0 <= t <= co + MAX_NLEN * 0x3FF_FFFF_C000_0001
    requires c' == c[k := t % 0x2000_0000]
    ensures ColumnsDone(c', x, y, k + 1, t / 0x2000_0000)
  {
    ValueToFrame(c, c', k);
    TermCarry(t, k);
    TermAdd(co, t - co, k);
  }

  /** The running sum s of BIG_mul: the diagonal products that belong to column k-1. */
  ghost function Running(x: seq<int>, y: seq<int>, k: int): int {
    if k <= |x| then Diag(x, y, 0, k) else Diag(x, y, k - |x|, |x|)
  }

  /** One turn of the outer loops: the running sum moves on, and column k is completed. */
  method MulColumn(a: array<int>, b: array<int>, d: array<int>, k: nat, co: int, s: int) returns (t: int, s': int)
    requires 0 < a.Length == b.Length == d.Length <= MAX_NLEN && k < 2 * a.Length - 1
    requires Reduced(a[..]) && Reduced(b[..])
    requires forall j :: 0 <= j < d.Length ==> d[j] == a[j] * b[j]
    requires s == Running(a[..], b[..], k) && 0 <= co <= MAX_NLEN * 0x2000_0000
    ensures s' == Running(a[..], b[..], k + 1)
    ensures t == co + Conv(a[..], b[..], k, 0, a.Length)
    ensures 0 <= t <= co + MAX_NLEN * 0x3FF_FFFF_C000_0001
  {
    var n := a.Length;
    RunningStep(a[..], b[..], k);
    s' := if k < n then C64(s + d[k]) else C64(s - d[k - n]);
    var top := if k < n then k else n - 1;
    t := Column(a, b, k, top, C64(co + s'), co);
    ConvWindow(a[..], b[..], k, k - top, top + 1);
  }

  /** All columns have been written, and the last carry on top of them. */
  lemma ProductComplete(c: seq<int>, x: seq<int>, y: seq<int>, co: int)
    requires 0 < |x| == |y| && |c| == 2 * |x| && Reduced(x) && Reduced(y)
    requires ColumnsDone(c, x, y, 2 * |x| - 1, co) && c[2 * |x| - 1] == co
    ensures Reduced(c) && Value(c) == Value(x) * Value(y)
  {
    LastColumn(x, y, |x|);
    ColumnsAreProduct(x, y, |x|, 2 * |x|);
    TopLimbOfProduct(x, y, c);
  }

  /** c = a*b for reduced a and b. */
  method BigMul(c: array<int>, a: array<int>, b: array<int>)
    requires 0 < a.Length == b.Length <= MAX_NLEN && c.Length == 2 * a.Length
    requires c != a && c != b
    requires Reduced(a[..]) && Reduced(b[..])
    modifies c
    ensures Reduced(c[..])
    ensures Value(c[..]) == Value(a[..]) * Value(b[..])
  {
    var n := a.Length;
    ghost var x, y := a[..], b[..];
    var d := Diagonal(a, b);
    var s, co, k := 0, 0, 0;
    TermZero(0);
    while k < 2 * n - 1
      invariant 0 <= k <= 2 * n - 1 && a[..] == x && b[..] == y
      invariant forall j :: 0 <= j < n ==> d[j] == a[j] * b[j]
      invariant s == Running(x, y, k)
      invariant ColumnsDone(c[..], x, y, k, co)
    {
      var t;
      t, s := MulColumn(a, b, d, k, co, s);
      ghost var before := c[..];
      c[k] := t % 0x2000_0000;
      assert c[..] == before[k := t % 0x2000_0000];
      ColumnWritten(before, c[..], x, y, k, co, t);
      co := t / 0x2000_0000;
      k := k + 1;
    }
    ghost var before := c[..];
    c[2 * n - 1] := co;
    ValueToFrame(before, c[..], 2 * n - 1);
    ProductComplete(c[..], x, y, co);
  }

  lemma RunningStep(x: seq<int>, y: seq<int>, k: nat)
    requires 0 < |x| == |y| <= MAX_NLEN && k < 2 * |x| - 1 && Reduced(x) && Reduced(y)
    ensures Running(x, y, k + 1)
         == Running(x, y, k) + (if k < |x| then x[k] * y[k] else -(x[k - |x|] * y[k - |x|]))
    ensures Running(x, y, k + 1) == if k < |x| then Diag(x, y, 0, k + 1) else Diag(x, y, k - |x| + 1, |x|)
    ensures 0 <= Running(x, y, k + 1) <= MAX_NLEN * 0x3FF_FFFF_C000_0001
  {
    var n := |x|;
    if k < n {
      DiagBounds(x, y, 0, k + 1);
    } else {
      DiagSplit(x, y, k - n, k - n + 1, n);
      DiagBounds(x, y, k - n + 1, n);
    }
  }

  lemma LastColumn(x: seq<int>, y: seq<int>, n: nat)
    requires 0 < n == |x| == |y|
    ensures ColSum(x, y, n, 2 * n) == ColSum(x, y, n, 2 * n - 1)
  {
    ConvZero(x, y, 2 * n - 1, 0, n);
    TermZero(2 * n - 1);
  }

  /** The product of two n-limb numbers fits 2n limbs. */
  lemma TopLimbOfProduct(x: seq<int>, y: seq<int>, c: seq<int>)
    requires 0 < |x| == |y| && |c| == 2 * |x| && Reduced(x) && Reduced(y) && Normed(c)
    requires Value(c) == Value(x) * Value(y)
    ensures Reduced(c)
  {
    var n := |x|;
    ValueToBounds(x, n);
    ValueToBounds(y, n);
    MulMono(Value(x), W(n), Value(y));
    MulMono(0, Value(x), Value(y));
    assert W(n) * Value(y) < W(n) * W(n) by {
      MulMono(Value(y) + 1, W(n), W(n));
    }
    WAdd(n, n, 2 * n);
    FitsTop(c);
  }

  // ---------- BIG_sqr ----------

  /** The lower half of a square's column mirrors its upper half. */
  lemma {:induction false} Mirror(x: seq<int>, k: int, lo: int, i: int)
    requires lo <= i
    ensures Conv(x, x, k, lo, i) == Conv(x, x, k, k - i + 1, k - lo + 1)
    decreases i - lo
  {
    if lo < i {
      Mirror(x, k, lo, i - 1);
      ConvSplit(x, x, k, k - i + 1, k - i + 2, k - lo + 1);
      assert Conv(x, x, k, k - i + 1, k - i + 1) == 0;
    }
  }

  lemma MiddleTerm(x: seq<int>, h: nat)
    requires h < |x|
    ensures Conv(x, x, 2 * h, h, h + 1) == x[h] * x[h]
  {
    assert Conv(x, x, 2 * h, h, h) == 0;
  }

  /** A column of a square: twice the products below the middle, plus the middle one. */
  lemma Folded(x: seq<int>, k: nat, lo: int, mid: int, half: int)
    requires 0 < |x| <= MAX_NLEN && k < 2 * |x| - 1 && Reduced(x)
    requires lo == (if k < |x| then 0 else k - |x| + 1) && mid == (k + 1) / 2 && half == Conv(x, x, k, lo, mid)
    ensures Conv(x, x, k, 0, |x|) == half + half + (if k % 2 == 0 then x[k / 2] * x[k / 2] else 0)
    ensures 0 <= Conv(x, x, k, 0, |x|) <= MAX_NLEN * 0x3FF_FFFF_C000_0001
  {
    FoldedWindow(x, k, lo, mid);
    ConvWindow(x, x, k, lo, k - lo + 1);
    ConvBounds(x, x, k, lo, k - lo + 1);
  }

  lemma FoldedWindow(x: seq<int>, k: nat, lo: int, mid: int)
    requires lo <= mid == (k + 1) / 2 && k / 2 < |x|
    ensures Conv(x, x, k, lo, k - lo + 1)
         == Conv(x, x, k, lo, mid) + Conv(x, x, k, lo, mid) + (if k % 2 == 0 then x[k / 2] * x[k / 2] else 0)
  {
    Mirror(x, k, lo, mid);
    ConvSplit(x, x, k, lo, mid, k - lo + 1);
    if k % 2 == 0 {
      MiddleTerm(x, mid);
      ConvSplit(x, x, k, mid, mid + 1, k - lo + 1);
    }
  }

  /** The products below the middle of column k. */
  method HalfColumn(a: array<int>, k: nat, lo: nat, mid: nat) returns (t: int)
    requires 0 < a.Length <= MAX_NLEN && k < 2 * a.Length - 1 && Reduced(a[..])
    requires k - a.Length < lo <= mid <= (k + 1) / 2
    ensures t == Conv(a[..], a[..], k, lo, mid) && 0 <= t <= (mid - lo) * 0x3FF_FFFF_C000_0001
  {
    ghost var x := a[..];
    t := 0;
    var i := lo;
    while i < mid
      invariant lo <= i <= mid && a[..] == x
      invariant t == Conv(x, x, k, lo, i) && 0 <= t <= (i - lo) * 0x3FF_FFFF_C000_0001
    {
      ProductBound(x[k - i], x[i]);
      t := C64(t + C64(a[k - i] * a[i]));
      assert At(x, i) == x[i] && At(x, k - i) == x[k - i];
      i := i + 1;
    }
  }

  /** One column of a square, carry included. */
  method SquareColumn(a: array<int>, k: nat, co: int) returns (t: int)
    requires 0 < a.Length <= MAX_NLEN && k < 2 * a.Length - 1 && Reduced(a[..])
    requires 0 <= co <= MAX_NLEN * 0x2000_0000
    ensures t == co + Conv(a[..], a[..], k, 0, a.Length)
    ensures 0 <= t <= co + MAX_NLEN * 0x3FF_FFFF_C000_0001
  {
    var n := a.Length;
    var lo := if k < n then 0 else k - n + 1;
    t := HalfColumn(a, k, lo, (k + 1) / 2);
    Folded(a[..], k, lo, (k + 1) / 2, t);
    t := C64(t + t);
    t := C64(t + co);
    if k % 2 == 0 {
      ProductBound(a[k / 2], a[k / 2]);
      t := C64(t + C64(a[k / 2] * a[k / 2]));
    }
  }

  /** BIG_sqr: c = a*a for reduced a. */
  method BigSqr(c: array<int>, a: array<int>)
    requires 0 < a.Length <= MAX_NLEN && c.Length == 2 * a.Length && c != a
    requires Reduced(a[..])
    modifies c
    ensures Reduced(c[..])
    ensures Value(c[..]) == Value(a[..]) * Value(a[..])
  {
    var n := a.Length;
    ghost var x := a[..];
    var co, k := 0, 0;
    TermZero(0);
    while k < 2 * n - 1
      invariant 0 <= k <= 2 * n - 1 && a[..] == x
      invariant ColumnsDone(c[..], x, x, k, co)
    {
      var t := SquareColumn(a, k, co);
      ghost var before := c[..];
      c[k] := t % 0x2000_0000;
      assert c[..] == before[k := t % 0x2000_0000];
      ColumnWritten(before, c[..], x, x, k, co, t);
      co := t / 0x2000_0000;
      k := k + 1;
    }
    ghost var before := c[..];
    c[2 * n - 1] := co;
    ValueToFrame(before, c[..], 2 * n - 1);
    ProductComplete(c[..], x, x, co);
  }

  // ---------- the branch for machines without a double-length type ----------

  /** x*y + c + r as bottom limb and carry. */
  method MulAdd(x: int, y: int, c: int, r: int) returns (bot: int, carry: int)
    requires 0 <= x < 0x2000_0000 && 0 <= y < 0x2000_0000 && 0 <= c < 0x2000_0000 && 0 <= r < 0x2000_0000
    ensures 0 <= bot < 0x2000_0000 && 0 <= carry < 0x2000_0000
    ensures bot == (x * y + c + r) % 0x2000_0000 && carry == (x * y + c + r) / 0x2000_0000
  {
    ProductBound(x, y);
    var prod := C64(x * y + c + r);
    bot, carry := prod % 0x2000_0000, prod / 0x2000_0000;
  }

  /** c += d * y at limb position i, limb by limb, with the final carry stored in the next limb. */
  method AddRow(c: array<int>, d: int, b: array<int>, i: nat)
    requires 0 <= d < 0x2000_0000 && Reduced(b[..]) && c != b
    requires i + b.Length < c.Length && Reduced(c[..]) && c[i + b.Length] == 0
    modifies c
    ensures Reduced(c[..])
    ensures Value(c[..]) == Value(old(c[..])) + Prod(d, Term(Value(b[..]), i))
    ensures forall j :: i + b.Length < j < c.Length ==> c[j] == old(c[j])
  {
    ghost var s, y := c[..], b[..];
    var n := b.Length;
    var carry, j := 0, 0;
    TermZero(i);
    ProdIs(d, 0);
    TermZero(i + 0);
    while j < n
      invariant 0 <= j <= n && b[..] == y && 0 <= carry < 0x2000_0000 && Reduced(c[..])
      invariant forall m :: i + n <= m < c.Length ==> c[m] == s[m]
      invariant Value(c[..]) + Term(carry, i + j) == Value(s) + Prod(d, Term(ValueTo(y, j), i))
    {
      ghost var before, r := c[..], c[i + j];
      ghost var old_carry := carry;
      var bot;
      bot, carry := MulAdd(d, b[j], carry, c[i + j]);
      c[i + j] := bot;
      assert c[..] == before[i + j := bot];
      ValueToUpdate(before, |before|, i + j, bot);
      RowCell(bot, carry, d, b[j], old_carry, r, i, j, ValueTo(y, j));
      j := j + 1;
    }
    ghost var before := c[..];
    c[i + n] := carry;
    assert c[..] == before[i + n := carry];
    ValueToUpdate(before, |before|, i + n, carry);
    TermZero(i + n);
  }

  /** Writing one cell of a row: the terms of the carry equation, weighted. */
  lemma RowCell(bot: int, carry: int, d: int, y: int, c: int, r: int, i: nat, j: nat, v: int)
    requires bot == (d * y + c + r) % 0x2000_0000 && carry == (d * y + c + r) / 0x2000_0000
    ensures Term(bot, i + j) + Term(carry, i + j + 1) + Prod(d, Term(v, i))
         == Term(r, i + j) + Term(c, i + j) + Prod(d, Term(v + Term(y, j), i))
  {
    ProdIs(d, Term(v, i));
    ProdIs(d, Term(v + Term(y, j), i));
    TermCarry(d * y + c + r, i + j);
    TermAdd(d * y + c, r, i + j);
    TermAdd(d * y, c, i + j);
    TermScale(d, y, i + j);
    TermAdd(v, Term(y, j), i);
    TermNest(y, j, i, i + j);
    assert d * (Term(v, i) + Term(y, i + j)) == d * Term(v, i) + d * Term(y, i + j);
  }

  /** BIG_mul without COMBA. */
  method BigMulRows(c: array<int>, a: array<int>, b: array<int>)
    requires 0 < a.Length == b.Length && c.Length == 2 * a.Length
    requires c != a && c != b
    requires Reduced(a[..]) && Reduced(b[..])
    modifies c
    ensures Reduced(c[..])
    ensures Value(c[..]) == Value(a[..]) * Value(b[..])
  {
    var n := a.Length;
    ghost var x, y := a[..], b[..];
    var i := 0;
    while i < c.Length
      invariant 0 <= i <= c.Length && a[..] == x && b[..] == y
      invariant forall j :: 0 <= j < i ==> c[j] == 0
    {
      c[i] := 0;
      i := i + 1;
    }
    ValueToZero(c[..], c.Length);
    i := 0;
    while i < n
      invariant 0 <= i <= n && a[..] == x && b[..] == y && Reduced(c[..])
      invariant forall j :: n + i <= j < c.Length ==> c[j] == 0
      invariant Value(c[..]) == ValueTo(x, i) * Value(y)
    {
      AddRow(c, a[i], b, i);
      FactorOut(ValueTo(x, i), x[i], i, Value(y));
      i := i + 1;
    }
  }

  /** Both branches of BIG_mul write the same limbs. */
  lemma BranchesAgree(c: seq<int>, c': seq<int>, x: seq<int>, y: seq<int>)
    requires 0 < |c| == |c'| && Reduced(c) && Reduced(c')
    requires Value(c) == Value(x) * Value(y) && Value(c') == Value(x) * Value(y)
    ensures c == c' == Digits(Value(x) * Value(y), |c|)
  {
    Unique(c, c');
    IsDigits(c);
  }

  // ---------- BIG_smul ----------

  /** The truncating row loop of BIG_smul: limbs at or above n, and the carry out of limb n-1,
      are dropped.  The ghost result counts what was dropped, in units of W(n). */
  method AddRowLow(c: array<int>, d: int, b: array<int>, i: nat) returns (ghost dropped: int)
    requires 0 <= d < 0x2000_0000 && Reduced(b[..]) && c != b
    requires i < c.Length == b.Length && Reduced(c[..])
    modifies c
    ensures Reduced(c[..])
    ensures Value(c[..]) + Term(dropped, c.Length) == Value(old(c[..])) + Prod(d, Term(Value(b[..]), i))
  {
    ghost var s, y := c[..], b[..];
    var n := b.Length;
    var carry, j := 0, 0;
    TermZero(i);
    ProdIs(d, 0);
    TermZero(i + 0);
    while i + j < n
      invariant 0 <= j <= n - i && b[..] == y && 0 <= carry < 0x2000_0000 && Reduced(c[..])
      invariant Value(c[..]) + Term(carry, i + j) == Value(s) + Prod(d, Term(ValueTo(y, j), i))
    {
      ghost var before, r := c[..], c[i + j];
      ghost var old_carry := carry;
      var bot;
      bot, carry := MulAdd(d, b[j], carry, c[i + j]);
      c[i + j] := bot;
      assert c[..] == before[i + j := bot];
      ValueToUpdate(before, |before|, i + j, bot);
      RowCell(bot, carry, d, b[j], old_carry, r, i, j, ValueTo(y, j));
      j := j + 1;
    }
    ghost var high := HighPart(y, n - i, n);
    dropped := carry + d * high;
    DropRow(carry, d, high, i, n, ValueTo(y, n - i));
    TermZero(i + j);
  }

  lemma DropRow(carry: int, d: int, high: int, i: nat, n: nat, v: int)
    requires i <= n
    ensures Term(carry, n) + Prod(d, Term(v + Term(high, n - i), i)) == Term(carry + d * high, n) + Prod(d, Term(v, i))
  {
    ProdIs(d, Term(v, i));
    ProdIs(d, Term(v + Term(high, n - i), i));
    TermAdd(v, Term(high, n - i), i);
    TermNest(high, n - i, i, n);
    TermAdd(carry, d * high, n);
    TermScale(d, high, n);
    assert d * (Term(v, i) + Term(high, n)) == d * Term(v, i) + d * Term(high, n);
  }

  /** The limbs of y from k upwards are a multiple of W(k). */
  lemma {:induction false} HighPart(y: seq<int>, k: nat, m: nat) returns (h: int)
    requires k <= m <= |y|
    ensures ValueTo(y, m) == ValueTo(y, k) + Term(h, k)
    decreases m - k
  {
    if m == k {
      h := 0;
      TermZero(k);
    } else {
      var g := HighPart(y, k, m - 1);
      h := g + Term(y[m - 1], m - 1 - k);
      TermAdd(g, Term(y[m - 1], m - 1 - k), k);
      TermNest(y[m - 1], m - 1 - k, k, m - 1);
    }
  }

  /** Limbs that BIG_norm brings into [0, 2^29): un-normalised, of a number in [0, W(n)). */
  ghost predicate Normable(s: seq<int>) {
    && |s| > 0 && 0 <= Value(s) < W(|s|) && (forall i :: 0 <= i < |s| - 1 ==> Loose(s[i]))
    && Chunk(s[|s| - 1] - NEXCESS) && Chunk(s[|s| - 1] + NEXCESS)
  }

  /** BIG_smul keeps the product modulo W(n) (and so the product itself, when it fits).  The factors are normalised
      in place, and may be one array. */
  method BigSmul(c: array<int>, a: array<int>, b: array<int>)
    requires a.Length == b.Length == c.Length && c != a && c != b
    requires Normable(a[..]) && Normable(b[..])
    modifies a, b, c
    ensures Reduced(c[..]) && Value(c[..]) == (old(Value(a[..])) * old(Value(b[..]))) % W(c.Length)
    ensures Reduced(a[..]) && Reduced(b[..]) && Value(a[..]) == old(Value(a[..])) && Value(b[..]) == old(Value(b[..]))
  {
    BigNorm(a);
    FitsTop(a[..]);
    BigNorm(b);
    FitsTop(b[..]);
    SmulRows(c, a, b);
  }

  /** The rows of BIG_smul. */
  method SmulRows(c: array<int>, a: array<int>, b: array<int>)
    requires 0 < a.Length == b.Length == c.Length
    requires c != a && c != b
    requires Reduced(a[..]) && Reduced(b[..])
    modifies c
    ensures Reduced(c[..])
    ensures Value(c[..]) == (Value(a[..]) * Value(b[..])) % W(c.Length)
  {
    var n := a.Length;
    ghost var x, y := a[..], b[..];
    var i := 0;
    while i < n
      invariant 0 <= i <= n && a[..] == x && b[..] == y
      invariant forall j :: 0 <= j < i ==> c[j] == 0
    {
      c[i] := 0;
      i := i + 1;
    }
    ValueToZero(c[..], n);
    i := 0;
    ghost var total := 0;
    TermZero(n);
    while i < n
      invariant 0 <= i <= n && a[..] == x && b[..] == y && Reduced(c[..])
      invariant Value(c[..]) + Term(total, n) == ValueTo(x, i) * Value(y)
    {
      ghost var dropped := AddRowLow(c, a[i], b, i);
      FactorOut(ValueTo(x, i), x[i], i, Value(y));
      TermAdd(total, dropped, n);
      total := total + dropped;
      i := i + 1;
    }
    ValueToBounds(c[..], n);
    TermIs(total, n);
    DivModUnique(Value(x) * Value(y), W(n), total, Value(c[..]));
  }
}
