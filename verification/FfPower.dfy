/**
 * Modular arithmetic on BIG arrays (ff.c): comparison, shifts, reduction by shifting, Montgomery
 * reduction through the low and upper Karatsuba products, and the swapped exponentiation ladder.
 */
module FfPower {
  import opened Arith
  import opened FfValue
  import opened FfKaratsuba
  import opened FfInverse

  // ---------- comparison and one-bit shifts ----------

  /** Where two numbers first differ from the top decides their order. */
  lemma TopEntryDecides(s: seq<int>, t: seq<int>, i: nat, n: nat)
    requires i < n <= |s| && n <= |t| && Digits(s, 0, i) && Digits(t, 0, i) && s[i] < t[i]
    requires Agree(s, i + 1, t, i + 1, n - i - 1)
    ensures Seg(s, 0, n) < Seg(t, 0, n)
  {
    SegSplit(s, 0, i + 1, n - i - 1);
    SegSplit(t, 0, i + 1, n - i - 1);
    SegFrame(s, i + 1, t, i + 1, n - i - 1);
    SegNext(s, 0, i);
    SegNext(t, 0, i);
    DigitsBound(s, 0, i);
    DigitsBound(t, 0, i);
    PartMono(s[i] + 1, t[i], i);
    PartAdd(s[i], 1, i);
    PartIs(1, i);
  }

  /** FF_comp: the sign of x - y, for numbers normalised up to the top entry. */
  method FfComp(x: array<int>, y: array<int>, n: nat) returns (j: int)
    requires 0 < n <= x.Length && n <= y.Length && Digits(x[..], 0, n - 1) && Digits(y[..], 0, n - 1)
    ensures j < 0 <==> Seg(x[..], 0, n) < Seg(y[..], 0, n)
    ensures j > 0 <==> Seg(x[..], 0, n) > Seg(y[..], 0, n)
  {
    var i := n - 1;
    while i >= 0
      invariant -1 <= i < n
      invariant forall k :: i < k < n ==> x[k] == y[k]
    {
      if x[i] < y[i] {
        TopEntryDecides(x[..], y[..], i, n);
        return -1;
      }
      if x[i] > y[i] {
        TopEntryDecides(y[..], x[..], i, n);
        return 1;
      }
      i := i - 1;
    }
    SegFrame(x[..], 0, y[..], 0, n);
    j := 0;
  }

  /** FF_shl: doubling; overflow stays in the top entry. */
  method FfShl(x: array<int>, n: nat)
    requires 0 < n <= x.Length && Digits(x[..], 0, n - 1)
    modifies x
    ensures Kept(old(x[..]), x[..], 0, n) && Digits(x[..], 0, n - 1)
    ensures Seg(x[..], 0, n) == 2 * old(Seg(x[..], 0, n))
  {
    ghost var s := x[..];
    var i, delay := 0, 0;
    SegEmpty(s, 0);
    PartZero(0);
    while i < n - 1
      invariant 0 <= i <= n - 1 && 0 <= delay <= 1
      invariant forall k :: i <= k < x.Length ==> x[k] == s[k]
      invariant Digits(x[..], 0, i)
      invariant 2 * Seg(s, 0, i) == Seg(x[..], 0, i) + Part(delay, i)
    {
      ghost var before := x[..];
      var carry := Hi(2 * x[i]);
      x[i] := Lo(2 * x[i]) + delay;
      DoubledEntry(before, x[..], s, i, delay);
      delay := carry;
      i := i + 1;
    }
    ghost var before := x[..];
    x[n - 1] := 2 * x[n - 1] + delay;
    SegFrame(before, 0, x[..], 0, n - 1);
    SegNext(x[..], 0, n - 1);
    SegNext(s, 0, n - 1);
    PartAdd(2 * s[n - 1], delay, n - 1);
    PartAdd(s[n - 1], s[n - 1], n - 1);
  }

  lemma DoubledEntry(before: seq<int>, after: seq<int>, s: seq<int>, i: nat, delay: int)
    requires i < |s| == |before| && 0 <= s[i] < R && 0 <= delay <= 1
    requires after == before[i := Lo(2 * s[i]) + delay]
    requires 2 * Seg(s, 0, i) == Seg(before, 0, i) + Part(delay, i)
    ensures 0 <= after[i] < R && 0 <= Hi(2 * s[i]) <= 1
    ensures 2 * Seg(s, 0, i + 1) == Seg(after, 0, i + 1) + Part(Hi(2 * s[i]), i + 1)
  {
    SegFrame(before, 0, after, 0, i);
    SegNext(after, 0, i);
    SegNext(s, 0, i);
    PartAdd(Lo(2 * s[i]), delay, i);
    PartAdd(s[i], s[i], i);
    PartCarry(2 * s[i], i);
  }

  /** FF_shr: halving; the last bit is lost. */
  method FfShr(x: array<int>, n: nat)
    requires 0 < n <= x.Length && Digits(x[..], 0, n - 1) && x[n - 1] >= 0
    modifies x
    ensures Kept(old(x[..]), x[..], 0, n) && Digits(x[..], 0, n - 1) && x[n - 1] >= 0
    ensures Seg(x[..], 0, n) == old(Seg(x[..], 0, n)) / 2
  {
    ghost var s := x[..];
    var i := n - 1;
    ghost var c := 0;
    SegEmpty(s, n);
    while i > 0
      invariant 0 <= i < n && 0 <= c <= 1 && x[i] == s[i] + c * R
      invariant i == n - 1 ==> c == 0
      invariant forall k :: 0 <= k < x.Length && (k < i || n <= k) ==> x[k] == s[k]
      invariant forall k :: i < k < n - 1 ==> 0 <= x[k] < R
      invariant i < n - 1 ==> x[n - 1] >= 0
      invariant Seg(s, i + 1, n - i - 1) == 2 * Seg(x[..], i + 1, n - i - 1) + c
    {
      ghost var before := x[..];
      var carry := x[i] % 2;
      x[i] := x[i] / 2;
      x[i - 1] := x[i - 1] + carry * R;
      HalvedEntry(before, x[..], s, i, n, c);
      c := carry;
      i := i - 1;
    }
    ghost var before := x[..];
    x[0] := x[0] / 2;
    HalvedEntry(before, x[..], s, 0, n, c);
  }

  lemma HalvedEntry(before: seq<int>, after: seq<int>, s: seq<int>, i: nat, n: nat, c: int)
    requires i < n <= |s| == |before| == |after| && before[i] == s[i] + c * R && 0 <= c <= 1
    requires Seg(s, i + 1, n - i - 1) == 2 * Seg(before, i + 1, n - i - 1) + c
    requires after[i] == before[i] / 2 && forall k :: i < k < n ==> after[k] == before[k]
    ensures Seg(s, i, n - i) == 2 * Seg(after, i, n - i) + before[i] % 2
    ensures 0 <= s[i] < R ==> 0 <= after[i] < R
  {
    SegFrame(before, i + 1, after, i + 1, n - i - 1);
    SegSplit(s, i, 1, n - i - 1);
    SegSplit(after, i, 1, n - i - 1);
    SegOne(s, i);
    SegOne(after, i);
    var v := Seg(after, i + 1, n - i - 1);
    PartAdd(v, v, 1);
    PartAdd(2 * v, c, 1);
    PartIs(c, 1);
    RWOne();
  }

  // ---------- reduction by shifting ----------

  /** A number whose lower entries are digits is non-negative exactly when its top entry is. */
  lemma TopSign(s: seq<int>, n: nat)
    requires 0 < n <= |s| && Digits(s, 0, n - 1)
    ensures Seg(s, 0, n) >= 0 <==> s[n - 1] >= 0
  {
    DigitsBound(s, 0, n - 1);
    SegNext(s, 0, n - 1);
    PartIs(-1, n - 1);
    PartZero(n - 1);
    if s[n - 1] >= 0 { PartMono(0, s[n - 1], n - 1); } else { PartMono(s[n - 1], -1, n - 1); }
  }

  /** Two digit strings of one value agree. */
  lemma {:induction false} DigitsUnique(s: seq<int>, t: seq<int>, n: nat)
    requires 0 < n <= |s| && n <= |t| && Digits(s, 0, n - 1) && Digits(t, 0, n - 1) && Seg(s, 0, n) == Seg(t, 0, n)
    ensures Agree(s, 0, t, 0, n)
  {
    if i :| 0 <= i < n && s[i] != t[i] && Agree(s, i + 1, t, i + 1, n - i - 1) {
      if s[i] < t[i] { TopEntryDecides(s, t, i, n); } else { TopEntryDecides(t, s, i, n); }
    } else {
      AgreeDown(s, t, n, 0);
    }
  }

  lemma {:induction false} AgreeDown(s: seq<int>, t: seq<int>, n: nat, k: nat)
    requires k <= n <= |s| && n <= |t|
    requires forall i :: 0 <= i < n && Agree(s, i + 1, t, i + 1, n - i - 1) ==> s[i] == t[i]
    ensures Agree(s, k, t, k, n - k)
    decreases n - k
  {
    if k < n { AgreeDown(s, t, n, k + 1); }
  }

  /** A number normalised up to a non-negative top entry. */
  ghost predicate Natural(s: seq<int>, n: nat) {
    0 < n <= |s| && Digits(s, 0, n - 1) && s[n - 1] >= 0
  }

  /** b -= c when it fits. */
  method SubtractIfFits(b: array<int>, c: array<int>, n: nat)
    requires b != c && Natural(b[..], n) && Natural(c[..], n)
    modifies b
    ensures Kept(old(b[..]), b[..], 0, n) && Natural(b[..], n)
    ensures Seg(b[..], 0, n) == old(Seg(b[..], 0, n)) - (if old(Seg(b[..], 0, n)) >= Seg(c[..], 0, n) then Seg(c[..], 0, n) else 0)
  {
    var j := FfComp(b, c, n);
    if j >= 0 {
      Rinc(b, 0, c, 0, n, -1);
      Rnorm(b, 0, n);
    }
    TopSign(b[..], n);
  }

  /** m is the divisor c shifted by k bits. */
  ghost predicate Scaled(m: int, c: int, k: nat) { m == Prod(c, Pow(2, k)) }

  lemma ScaledHalf(m: int, c: int, k: nat)
    requires Scaled(m, c, k) && k > 0
    ensures Scaled(m / 2, c, k - 1) && m == 2 * (m / 2)
  {
    var e := Pow(2, k - 1);
    ProdIs(c, e);
    ProdIs(c, 2 * e);
    assert c * (2 * e) == 2 * (c * e);
  }

  lemma ScaledDouble(m: int, c: int, k: nat)
    requires Scaled(m, c, k)
    ensures Scaled(2 * m, c, k + 1)
  {
    var e := Pow(2, k);
    ProdIs(c, e);
    ProdIs(c, 2 * e);
    assert c * (2 * e) == 2 * (c * e);
  }

  lemma ScaledCong(x: int, m: int, c: int, k: nat)
    requires c > 0 && Scaled(m, c, k)
    ensures Cong(x - m, x, c)
  {
    ProdIs(c, Pow(2, k));
    CongIntro(x - m, x, -Pow(2, k), c);
  }

  /** The descending loop of FF_mod and FF_dmod: k times, halve m and subtract it if it fits. */
  method ShiftDown(b: array<int>, m: array<int>, n: nat, k: nat, ghost c: int)
    requires b != m && Natural(b[..], n) && Natural(m[..], n)
    requires c > 0 && Scaled(Seg(m[..], 0, n), c, k)
    modifies b, m
    ensures Kept(old(b[..]), b[..], 0, n) && Kept(old(m[..]), m[..], 0, n)
    ensures Natural(b[..], n) && Natural(m[..], n) && Seg(m[..], 0, n) == c
    ensures Cong(Seg(b[..], 0, n), old(Seg(b[..], 0, n)), c)
    ensures old(Seg(b[..], 0, n)) <= old(Seg(m[..], 0, n)) ==> Seg(b[..], 0, n) <= c
    ensures old(Seg(b[..], 0, n)) < old(Seg(m[..], 0, n)) ==> Seg(b[..], 0, n) < c
    ensures old(Seg(b[..], 0, n)) >= old(Seg(m[..], 0, n)) ==> Seg(b[..], 0, n) == old(Seg(b[..], 0, n)) - (old(Seg(m[..], 0, n)) - c)
  {
    var j := k;
    ghost var v, m0 := Seg(b[..], 0, n), Seg(m[..], 0, n);
    while j > 0
      invariant 0 <= j <= k
      invariant Kept(old(b[..]), b[..], 0, n) && Kept(old(m[..]), m[..], 0, n)
      invariant Natural(b[..], n) && Natural(m[..], n) && Scaled(Seg(m[..], 0, n), c, j)
      invariant Cong(Seg(b[..], 0, n), v, c)
      invariant v <= m0 ==> Seg(b[..], 0, n) <= Seg(m[..], 0, n)
      invariant v < m0 ==> Seg(b[..], 0, n) < Seg(m[..], 0, n)
      invariant v >= m0 ==> Seg(b[..], 0, n) == v - (m0 - Seg(m[..], 0, n))
    {
      ScaledHalf(Seg(m[..], 0, n), c, j);
      FfShr(m, n);
      j := j - 1;
      ScaledCong(Seg(b[..], 0, n), Seg(m[..], 0, n), c, j);
      TopSign(m[..], n);
      SubtractIfFits(b, m, n);
    }
    ProdIs(c, 1);
  }

  /** FF_mod: b = b mod c; the divisor is shifted in place and comes back unchanged. */
  method FfMod(b: array<int>, c: array<int>, n: nat)
    requires 0 < n <= b.Length && n <= c.Length && b != c && Seg(b[..], 0, n) >= 0
    requires Natural(c[..], n) && Seg(c[..], 0, n) > 0
    modifies b, c
    ensures Kept(old(b[..]), b[..], 0, n) && c[..] == old(c[..])
    ensures Natural(b[..], n) && Seg(b[..], 0, n) == old(Seg(b[..], 0, n)) % Seg(c[..], 0, n)
  {
    ghost var cs, v, d := c[..], Seg(b[..], 0, n), Seg(c[..], 0, n);
    Rnorm(b, 0, n);
    TopSign(b[..], n);
    var j := FfComp(b, c, n);
    if j < 0 {
      DivModUnique(v, d, 0, v);
      return;
    }
    var k := ScaleUp(b, c, n);
    ShiftDown(b, c, n, k, d);
    DigitsUnique(cs, c[..], n);
    assert c[..] == cs;
    TopSign(b[..], n);
    CongMod(v, d);
    CongSmall(Seg(b[..], 0, n), v % d, d);
  }

  /** First loop of FF_mod: double c until it exceeds b. */
  method ScaleUp(b: array<int>, c: array<int>, n: nat) returns (k: nat)
    requires b != c && Natural(b[..], n) && Natural(c[..], n) && Seg(c[..], 0, n) > 0
    modifies c
    ensures Kept(old(c[..]), c[..], 0, n) && Natural(c[..], n)
    ensures Scaled(Seg(c[..], 0, n), old(Seg(c[..], 0, n)), k) && Seg(b[..], 0, n) < Seg(c[..], 0, n)
  {
    k := 0;
    ghost var d := Seg(c[..], 0, n);
    ProdIs(d, 1);
    while true
      invariant Kept(old(c[..]), c[..], 0, n) && Natural(c[..], n) && Natural(b[..], n)
      invariant Scaled(Seg(c[..], 0, n), d, k) && Seg(c[..], 0, n) > 0
      decreases Seg(b[..], 0, n) - Seg(c[..], 0, n)
    {
      ScaledDouble(Seg(c[..], 0, n), d, k);
      FfShl(c, n);
      TopSign(c[..], n);
      k := k + 1;
      var j := FfComp(b, c, n);
      if j < 0 { return; }
    }
  }

  // ---------- FF_dmod ----------

  lemma {:induction false} RWTwo(n: nat)
    ensures RW(n) == Pow(2, 256 * n)
  {
    if n == 0 {
      RWZero();
    } else {
      RWTwo(n - 1);
      RWAdd(1, n - 1);
      RWOne();
      RIsPower();
      PowAdd(2, 256, 256 * (n - 1));
    }
  }

  lemma ShiftedByWords(s: seq<int>, n: nat, b: int)
    requires 0 < n && 2 * n <= |s| && Zeros(s, 0, n) && Seg(s, n, n) == b && Natural(s, 2 * n)
    ensures Scaled(Seg(s, 0, 2 * n), b, 256 * n)
  {
    SegSplit(s, 0, n, n);
    SegZero(s, 0, n);
    PartIs(b, n);
    RWTwo(n);
    ProdIs(b, RW(n));
  }

  /** FF_dsucopy: x becomes y shifted up by n entries. */
  method CopyUp(x: array<int>, y: array<int>, n: nat)
    requires 2 * n <= x.Length && n <= y.Length && x != y
    modifies x
    ensures Kept(old(x[..]), x[..], 0, 2 * n)
    ensures Zeros(x[..], 0, n) && Agree(x[..], n, y[..], 0, n) && Seg(x[..], n, n) == Seg(y[..], 0, n)
  {
    Copy(x, n, y, 0, n);
    ghost var s := x[..];
    Zero(x, 0, n);
    SegFrame(s, n, x[..], n, n);
  }

  /** What the shifting loop of FF_dmod leaves of a number beyond b*R^n. */
  ghost function Leftover(a: int, b: int, n: nat): int { a - (Part(b, n) - b) }

  /** What FF_dmod returns.  Beyond b*R^n the leftover can exceed n entries, of which only the lowest n are kept. */
  ghost function Dmod(a: int, b: int, n: nat): int
    requires b > 0
  {
    if a <= Part(b, n) then a % b else (Leftover(a, b, n) % RW(n)) % b
  }

  /** FF_dmod; DmodExact says when it is a mod b. */
  method FfDmod(r: array<int>, a: array<int>, b: array<int>, n: nat)
    requires 0 < n <= r.Length && 2 * n <= a.Length && n <= b.Length && r != b && a != b
    requires Digits(b[..], 0, n) && Seg(b[..], 0, n) > 0 && Seg(a[..], 0, 2 * n) >= 0
    modifies r, b
    ensures Kept(old(r[..]), r[..], 0, n) && b[..] == old(b[..]) && Natural(r[..], n)
    ensures 0 <= Seg(r[..], 0, n) < Seg(b[..], 0, n)
    ensures Seg(r[..], 0, n) == Dmod(old(Seg(a[..], 0, 2 * n)), Seg(b[..], 0, n), n)
  {
    var m, x := new int[2 * n], new int[2 * n];
    ghost var v, d := Seg(a[..], 0, 2 * n), Seg(b[..], 0, n);
    Copy(x, 0, a, 0, 2 * n);
    Rnorm(x, 0, 2 * n);
    TopSign(x[..], 2 * n);
    CopyUp(m, b, n);
    ShiftedByWords(m[..], n, d);
    SegSplit(m[..], 0, n, n);
    SegZero(m[..], 0, n);
    ShiftDown(x, m, 2 * n, 256 * n, d);
    ghost var w := Seg(x[..], 0, 2 * n);
    DigitsBound(x[..], 0, n);
    DigitsBound(b[..], 0, n);
    SegSplit(x[..], 0, n, n);
    Copy(r, 0, x, 0, n);
    if v <= Part(d, n) {
      TopSign(x[..], 2 * n);
      PartSmall(Seg(x[..], 0, n), w, Seg(x[..], n, n), n);
    } else {
      LowPart(w, Seg(x[..], 0, n), Seg(x[..], n, n), n);
    }
    FfMod(r, b, n);
  }

  lemma LowPart(w: int, lo: int, hi: int, n: nat)
    requires w == lo + Part(hi, n) && 0 <= lo < RW(n)
    ensures lo == w % RW(n)
  {
    PartIs(hi, n);
    DivModUnique(w, RW(n), hi, lo);
  }

  lemma LeftoverCong(a: int, b: int, n: nat)
    requires b > 0
    ensures Cong(a, Leftover(a, b, n), b)
  {
    PartIs(b, n);
    assert b * RW(n) - b == (RW(n) - 1) * b;
    CongIntro(a, Leftover(a, b, n), RW(n) - 1, b);
  }

  lemma SumCong(d: int, h: int, b: int)
    requires b > 0
    ensures Cong(d, d + h, b) <==> Cong(h, 0, b)
  {
    if Cong(d, d + h, b) { CongSub(d + h, d, d, d, b); }
    if Cong(h, 0, b) { CongAdd(d, d, h, 0, b); }
  }

  /** The leftover is (a + b) - b*R^n, so its upper part is that of a + b, less b. */
  lemma LeftoverUpper(a: int, b: int, n: nat)
    requires b > 0
    ensures var l, q := Leftover(a, b, n), (a + b) / RW(n); l - l % RW(n) == (q - b) * RW(n)
  {
    var l, w := Leftover(a, b, n), RW(n);
    var q, r := (a + b) / w, (a + b) % w;
    PartIs(b, n);
    QuotientShift(l, q, r, b, w);
  }

  lemma QuotientShift(l: int, q: int, r: int, b: int, w: int)
    requires w > 0 && 0 <= r < w && l == q * w + r - b * w
    ensures l - l % w == (q - b) * w
  {
    assert q * w - b * w == (q - b) * w;
    DivModUnique(l, w, q - b, r);
  }

  /** FF_dmod is right exactly if a is at most b*R^n, or b divides the part of a + b above R^n, moved up. */
  lemma DmodIff(a: int, b: int, n: nat)
    requires b > 0
    ensures Dmod(a, b, n) == a % b <==> a <= Part(b, n) || (((a + b) / RW(n)) * RW(n)) % b == 0
  {
    if a > Part(b, n) {
      var l, w := Leftover(a, b, n), RW(n);
      var d, q := l % w, (a + b) / w;
      LeftoverCong(a, b, n);
      LeftoverUpper(a, b, n);
      SumCong(d, l - d, b);
      UpperCong(q, b, w);
    }
  }

  lemma UpperCong(q: int, b: int, w: int)
    requires b > 0
    ensures Cong((q - b) * w, 0, b) <==> Cong(q * w, 0, b)
  {
    assert q * w - (q - b) * w == w * b;
    CongIntro(q * w, (q - b) * w, w, b);
  }

  lemma OddCoprime(b: int, n: nat)
    requires b > 0 && b % 2 == 1
    ensures Coprime(RW(n), b)
  {
    CoprimeIntro(2, b, -(b / 2), 1);
    CoprimePow(2, 256 * n, b);
    RWTwo(n);
  }

  /** For an odd b, FF_dmod is right exactly if a is at most b*R^n or b divides (a + b) div R^n. */
  lemma DmodExact(a: int, b: int, n: nat)
    requires b > 0 && b % 2 == 1
    ensures Dmod(a, b, n) == a % b <==> a <= Part(b, n) || ((a + b) / RW(n)) % b == 0
  {
    DmodIff(a, b, n);
    OddCoprime(b, n);
    var q, w := (a + b) / RW(n), RW(n);
    assert q * w == w * q && w * 0 == 0;
    if Cong(w * q, w * 0, b) { CongCancel(w, q, 0, b); }
    if Cong(q, 0, b) { CongMul(w, w, q, 0, b); }
  }

  /** In particular for every a below b*R^n + R^n - b, whatever b ... */
  lemma DmodSafe(a: int, b: int, n: nat)
    requires 0 < b && a < Part(b, n) + RW(n) - b
    ensures Dmod(a, b, n) == a % b
  {
    DmodIff(a, b, n);
    if a > Part(b, n) {
      PartIs(b, n);
      DivModUnique(a + b, RW(n), b, a + b - b * RW(n));
      CongIntro(b * RW(n), 0, RW(n), b);
    }
  }

  /** ... and not for that number itself, for any odd b with n entries other than 1. */
  lemma DmodFirstFailure(b: int, n: nat)
    requires 1 < b < RW(n) && b % 2 == 1
    ensures var a := Part(b, n) + RW(n) - b; a < RW(n) * RW(n) && Dmod(a, b, n) != a % b
  {
    var a, w := Part(b, n) + RW(n) - b, RW(n);
    PartIs(b, n);
    assert a + b == (b + 1) * w + 0;
    DivModUnique(a + b, w, b + 1, 0);
    DivModUnique(b + 1, b, 1, 1);
    MulMono(b + 1, w, w);
    DmodExact(a, b, n);
  }

  /** The smallest case: FF_dmod gives 0 for 4R - 3 modulo 3, which is 1. */
  lemma DmodCutOff()
    ensures Dmod(4 * R - 3, 3, 1) == 0 && (4 * R - 3) % 3 == 1
  {
    PartIs(3, 1);
    RWOne();
    DivModUnique(Leftover(4 * R - 3, 3, 1), R, 1, 0);
  }

  /** FF_randomnum, with the random entries passed in: they reach beyond that range, so the result is a number
      below p, but not always their residue. */
  method FfRandomnum(x: array<int>, p: array<int>, d: array<int>, n: nat)
    requires 0 < n <= x.Length && 2 * n <= d.Length && n <= p.Length && x != p && d != p
    requires Digits(p[..], 0, n) && Seg(p[..], 0, n) > 0 && Digits(d[..], 0, 2 * n)
    modifies x, p
    ensures p[..] == old(p[..]) && 0 <= Seg(x[..], 0, n) < Seg(p[..], 0, n)
    ensures Seg(p[..], 0, n) % 2 == 1 ==>
      var v, m := old(Seg(d[..], 0, 2 * n)), Seg(p[..], 0, n);
      Seg(x[..], 0, n) == v % m <==> v <= Part(m, n) || ((v + m) / RW(n)) % m == 0
  {
    ghost var v := Seg(d[..], 0, 2 * n);
    DigitsBound(d[..], 0, 2 * n);
    FfDmod(x, d, p, n);
    if Seg(p[..], 0, n) % 2 == 1 { DmodExact(v, Seg(p[..], 0, n), n); }
  }

  /** FF_nres: into Montgomery form, for a up to m; every larger a becomes 0. */
  method FfNres(a: array<int>, m: array<int>, n: nat)
    requires 0 < n <= a.Length && n <= m.Length && a != m
    requires Natural(a[..], n) && Digits(m[..], 0, n) && 0 < Seg(m[..], 0, n)
    modifies a, m
    ensures Kept(old(a[..]), a[..], 0, n) && m[..] == old(m[..]) && Natural(a[..], n)
    ensures old(Seg(a[..], 0, n)) <= Seg(m[..], 0, n) ==> Cong(Seg(a[..], 0, n), old(Seg(a[..], 0, n)) * RW(n), Seg(m[..], 0, n))
    ensures old(Seg(a[..], 0, n)) > Seg(m[..], 0, n) ==> Seg(a[..], 0, n) == 0
  {
    ghost var v, d := Seg(a[..], 0, n), Seg(m[..], 0, n);
    var u := new int[2 * n];
    CopyUp(u, a, n);
    SegSplit(u[..], 0, n, n);
    SegZero(u[..], 0, n);
    TopSign(a[..], n);
    PartMono(0, v, n);
    PartZero(n);
    PartIs(v, n);
    DigitsBound(m[..], 0, n);
    FfDmod(a, u, m, n);
    NresOf(v, d, n);
  }

  lemma NresOf(v: int, d: int, n: nat)
    requires 0 < d < RW(n) && v >= 0
    ensures v <= d ==> Cong(Dmod(Part(v, n), d, n), v * RW(n), d)
    ensures v > d ==> Dmod(Part(v, n), d, n) == 0
  {
    PartIs(v, n);
    if v <= d {
      PartMono(v, d, n);
      CongMod(v * RW(n), d);
    } else {
      PartMono(d + 1, v, n);
      PartIs(d, n);
      PartIs(d + 1, n);
      assert v * RW(n) - d * RW(n) == (v - d) * RW(n);
      DivModUnique(Leftover(Part(v, n), d, n), RW(n), v - d, d);
    }
  }

  // ---------- Montgomery reduction ----------

  /** An odd modulus p with its inverse nd modulo R^n. */
  ghost predicate Modulus(p: seq<int>, nd: seq<int>, n: nat) {
    && PowerOfTwo(n) && n >= 2 && n <= |p| && n <= |nd| && Digits(p, 0, n) && Digits(nd, 0, n)
    && Seg(p, 0, n) > 0 && Cong(Seg(nd, 0, n) * Seg(p, 0, n), 1, RW(n))
  }

  /** m = t*nd modulo w, so p*m is t modulo w. */
  lemma LowHalfKnown(t: int, nd: int, p: int, m: int, k: int, n: nat) returns (k': int)
    requires Cong(nd * p, 1, RW(n)) && m + Part(k, n) == Prod(t, nd)
    ensures t + Part(k', n) == Prod(p, m)
  {
    ProdIs(t, nd);
    ProdIs(p, m);
    PartCong(m, t * nd, k, n);
    CongMul(p, p, m, t * nd, RW(n));
    assert p * (t * nd) == t * (nd * p);
    CongMul(t, t, nd * p, 1, RW(n));
    k' := CongElim(p * m, t, RW(n));
    PartIs(k', n);
  }

  lemma ReducedValue(r: int, t: int, tlo: int, thi: int, p: int, m: int, hi: int, n: nat)
    requires t == tlo + Part(thi, n) && Prod(p, m) == tlo + Part(hi, n) && r == thi + p - hi
    ensures r * RW(n) == t - p * m + p * RW(n)
  {
    PartIs(r, n);
    PartIs(p, n);
    ProdIs(p, m);
    PartAdd(thi, p, n);
    PartSub(thi + p, hi, n);
  }

  /** FF_reduce: r*R^n = T - m*N + N*R^n for some m in [0, R^n). */
  method FfReduce(r: array<int>, T: array<int>, N: array<int>, ND: array<int>, n: nat) returns (ghost m: int)
    requires Modulus(N[..], ND[..], n) && n <= r.Length && 2 * n <= T.Length && Digits(T[..], 0, n)
    requires r != T && r != N && r != ND && T != N && T != ND
    modifies r, T
    ensures Kept(old(r[..]), r[..], 0, n) && Digits(r[..], 0, n - 1)
    ensures 0 <= m < RW(n)
    ensures Seg(r[..], 0, n) * RW(n) == old(Seg(T[..], 0, 2 * n)) - Seg(N[..], 0, n) * m + Seg(N[..], 0, n) * RW(n)
  {
    ghost var t0, tlo, thi, p := Seg(T[..], 0, 2 * n), Seg(T[..], 0, n), Seg(T[..], n, n), Seg(N[..], 0, n);
    SegSplit(T[..], 0, n, n);
    DigitsBound(T[..], 0, n);
    Copy(r, 0, T, n, n);
    var t, q := new int[2 * n], new int[n];
    ghost var k := KarmulLower(q, 0, T, 0, ND, 0, t, 0, n);
    m := Seg(q[..], 0, n);
    DigitsBound(q[..], 0, n);
    k := LowHalfKnown(tlo, Seg(ND[..], 0, n), p, m, k, n);
    KarmulUpper(T, N, q, t, n, k);
    SegSplit(T[..], 0, n, n);
    DigitsBound(T[..], 0, n);
    ghost var hi := Seg(T[..], n, n);
    PartSub(hi, k, n);
    PartSmall(Seg(T[..], 0, n), tlo, hi - k, n);
    Copy(q, 0, T, n, n);
    Rinc(r, 0, N, 0, n, 1);
    Rinc(r, 0, q, 0, n, -1);
    Rnorm(r, 0, n);
    ReducedValue(Seg(r[..], 0, n), t0, tlo, thi, p, m, hi, n);
  }

  /** What FF_reduce computes: T/R^n modulo N, positive, and below 2N when T is below N*R^n. */
  lemma ReduceMeaning(r: int, t: int, p: int, m: int, w: int)
    requires p > 0 && w > 0 && t >= 0 && 0 <= m < w && r * w == t - p * m + p * w
    ensures r > 0 && Cong(r * w, t, p)
    ensures t < p * w ==> r < 2 * p
  {
    MulMono(m + 1, w, p);
    MulMono(0, m, p);
    assert p * m < p * w by { assert p * m == m * p && (m + 1) * p == m * p + p; }
    if r <= 0 { MulMono(r, 0, w); }
    if t < p * w && r >= 2 * p { MulMono(2 * p, r, w); }
    assert (w - m) * p == p * w - p * m;
    CongIntro(r * w, t, w - m, p);
  }

  /** R^n is invertible modulo an odd modulus. */
  lemma PowerCoprime(p: seq<int>, nd: seq<int>, n: nat)
    requires Modulus(p, nd, n)
    ensures Coprime(RW(n), Seg(p, 0, n))
  {
    var k := CongElim(Seg(nd, 0, n) * Seg(p, 0, n), 1, RW(n));
    CoprimeIntro(RW(n), Seg(p, 0, n), -k, Seg(nd, 0, n));
  }

  /** FF_reduce of a product. */
  method ReduceProduct(z: array<int>, d: array<int>, p: array<int>, nd: array<int>, n: nat)
    requires Modulus(p[..], nd[..], n) && n <= z.Length && 2 * n <= d.Length && Digits(d[..], 0, n)
    requires z != d && z != p && z != nd && d != p && d != nd && Seg(d[..], 0, 2 * n) >= 0
    modifies z, d
    ensures Kept(old(z[..]), z[..], 0, n) && Natural(z[..], n)
    ensures Cong(Seg(z[..], 0, n) * RW(n), old(Seg(d[..], 0, 2 * n)), Seg(p[..], 0, n))
  {
    ghost var t := Seg(d[..], 0, 2 * n);
    ghost var m := FfReduce(z, d, p, nd, n);
    ReduceMeaning(Seg(z[..], 0, n), t, Seg(p[..], 0, n), m, RW(n));
    TopSign(z[..], n);
  }

  /** P_EXCESS of the top entry, and the bound P_FEXCESS on the product of two. */
  function Excess(top: int): int { top / R }
  const P_FEXCESS := 32

  /** FF_mod of an operand: the same number modulo p. */
  method FfModInPlace(x: array<int>, p: array<int>, n: nat)
    requires x != p && Natural(x[..], n) && Natural(p[..], n) && Seg(p[..], 0, n) > 0
    modifies x, p
    ensures p[..] == old(p[..]) && Kept(old(x[..]), x[..], 0, n) && Natural(x[..], n)
    ensures Cong(Seg(x[..], 0, n), old(Seg(x[..], 0, n)), Seg(p[..], 0, n))
  {
    ghost var v := Seg(x[..], 0, n);
    TopSign(x[..], n);
    FfMod(x, p, n);
    CongMod(v, Seg(p[..], 0, n));
  }

  lemma NaturalProduct(s: seq<int>, t: seq<int>, n: nat)
    requires Natural(s, n) && Natural(t, n)
    ensures Seg(s, 0, n) * Seg(t, 0, n) >= 0
  {
    TopSign(s, n);
    TopSign(t, n);
    MulMono(0, Seg(s, 0, n), Seg(t, 0, n));
  }

  /** FF_modmul: z*R^n = x*y modulo p; x may be reduced on the way. */
  method FfModmul(z: array<int>, x: array<int>, y: array<int>, p: array<int>, nd: array<int>, n: nat)
    requires Modulus(p[..], nd[..], n) && n <= z.Length && Natural(x[..], n) && Natural(y[..], n)
    requires x != y && z != x && z != y && z != p && z != nd && x != p && x != nd && y != p && y != nd && p != nd
    modifies z, x, p
    ensures p[..] == old(p[..]) && Kept(old(z[..]), z[..], 0, n) && Kept(old(x[..]), x[..], 0, n)
    ensures Natural(z[..], n) && Natural(x[..], n)
    ensures Cong(Seg(x[..], 0, n), old(Seg(x[..], 0, n)), Seg(p[..], 0, n))
    ensures Cong(Seg(z[..], 0, n) * RW(n), old(Seg(x[..], 0, n)) * Seg(y[..], 0, n), Seg(p[..], 0, n))
  {
    ghost var v, w, m := Seg(x[..], 0, n), Seg(y[..], 0, n), Seg(p[..], 0, n);
    var ex, ey := Excess(x[n - 1]), Excess(y[n - 1]);
    if (ex + 1) * (ey + 1) > P_FEXCESS {
      FfModInPlace(x, p, n);
    }
    var d := new int[2 * n];
    FfMul(d, x, y, n);
    NaturalProduct(x[..], y[..], n);
    CongMul(Seg(x[..], 0, n), v, w, w, m);
    ReduceProduct(z, d, p, nd, n);
  }

  /** FF_modsqr in place, as the ladder calls it. */
  method FfModsqr(x: array<int>, p: array<int>, nd: array<int>, n: nat)
    requires Modulus(p[..], nd[..], n) && Natural(x[..], n) && x != p && x != nd && p != nd
    modifies x, p
    ensures p[..] == old(p[..]) && Kept(old(x[..]), x[..], 0, n) && Natural(x[..], n)
    ensures Cong(Seg(x[..], 0, n) * RW(n), old(Seg(x[..], 0, n)) * old(Seg(x[..], 0, n)), Seg(p[..], 0, n))
  {
    ghost var v, m := Seg(x[..], 0, n), Seg(p[..], 0, n);
    var ex := Excess(x[n - 1]);
    if (ex + 1) * (ex + 1) > P_FEXCESS {
      FfModInPlace(x, p, n);
    }
    var d := new int[2 * n];
    FfSqr(d, x, n);
    NaturalProduct(x[..], x[..], n);
    CongMul(Seg(x[..], 0, n), v, Seg(x[..], 0, n), v, m);
    ReduceProduct(x, d, p, nd, n);
  }

  /** FF_redc: out of Montgomery form, fully reduced. */
  method FfRedc(a: array<int>, p: array<int>, nd: array<int>, n: nat)
    requires Modulus(p[..], nd[..], n) && Natural(a[..], n) && a != p && a != nd && p != nd
    modifies a, p
    ensures p[..] == old(p[..]) && Kept(old(a[..]), a[..], 0, n) && Natural(a[..], n)
    ensures 0 <= Seg(a[..], 0, n) < Seg(p[..], 0, n)
    ensures Cong(Seg(a[..], 0, n) * RW(n), old(Seg(a[..], 0, n)), Seg(p[..], 0, n))
  {
    ghost var v, m, w := Seg(a[..], 0, n), Seg(p[..], 0, n), RW(n);
    TopSign(a[..], n);
    FfMod(a, p, n);
    CongMod(v, m);
    DigitsBound(p[..], 0, n);
    DigitsTop(a[..], 0, n);
    var d := new int[2 * n];
    CopyLow(d, a, n);
    ReduceProduct(a, d, p, nd, n);
    ghost var u := Seg(a[..], 0, n);
    TopSign(a[..], n);
    FfMod(a, p, n);
    CongMod(u, m);
    CongMul(u % m, u, w, w, m);
  }

  /** FF_dscopy: x becomes y with n zero entries on top. */
  method CopyLow(x: array<int>, y: array<int>, n: nat)
    requires 2 * n <= x.Length && n <= y.Length && x != y
    modifies x
    ensures Agree(x[..], 0, y[..], 0, n) && Seg(x[..], 0, 2 * n) == Seg(y[..], 0, n)
  {
    Copy(x, 0, y, 0, n);
    ghost var s := x[..];
    Zero(x, n, n);
    SegFrame(s, 0, x[..], 0, n);
    SegSplit(x[..], 0, n, n);
    SegZero(x[..], n, n);
    PartZero(n);
  }

  // ---------- FF_skpow ----------

  /** FF_cswap */
  method FfCswap(a: array<int>, b: array<int>, d: int, n: nat)
    requires a != b && n <= a.Length && n <= b.Length && 0 <= d <= 1
    modifies a, b
    ensures Kept(old(a[..]), a[..], 0, n) && Kept(old(b[..]), b[..], 0, n)
    ensures Agree(a[..], 0, old(if d == 1 then b[..] else a[..]), 0, n)
    ensures Agree(b[..], 0, old(if d == 1 then a[..] else b[..]), 0, n)
    ensures Seg(a[..], 0, n) == old(Seg(if d == 1 then b[..] else a[..], 0, n))
    ensures Seg(b[..], 0, n) == old(Seg(if d == 1 then a[..] else b[..], 0, n))
  {
    ghost var s, t := a[..], b[..];
    var i := 0;
    while i < n
      invariant 0 <= i <= n
      invariant Kept(s, a[..], 0, i) && Kept(t, b[..], 0, i)
      invariant forall k :: 0 <= k < i ==> a[k] == (if d == 1 then t[k] else s[k]) && b[k] == (if d == 1 then s[k] else t[k])
    {
      if d == 1 { a[i], b[i] := b[i], a[i]; }
      i := i + 1;
    }
    SegFrame(a[..], 0, if d == 1 then t else s, 0, n);
    SegFrame(b[..], 0, if d == 1 then s else t, 0, n);
  }

  /** s is x in Montgomery form. */
  ghost predicate Represents(s: seq<int>, n: nat, x: int, p: int) {
    Natural(s, n) && p > 0 && Cong(Seg(s, 0, n), x * RW(n), p)
  }

  lemma {:induction false} PowStep(x: int, k: nat)
    ensures Pow(x, k) * Pow(x, k) == Pow(x, 2 * k) && Pow(x, k) * Pow(x, k + 1) == Pow(x, 2 * k + 1)
    ensures Pow(x, k + 1) * Pow(x, k + 1) == Pow(x, 2 * k + 2)
  {
    PowAdd(x, k, k);
    PowAdd(x, k, k + 1);
    PowAdd(x, k + 1, k + 1);
  }

  /** The arrays of the ladder. */
  ghost predicate Ladder(r0: array<int>, r1: array<int>, r: array<int>, p: array<int>, nd: array<int>, n: nat) {
    && n <= r.Length && n <= r0.Length && n <= r1.Length
    && r0 != r1 && r0 != r && r0 != p && r0 != nd && r1 != r && r1 != p && r1 != nd && r != p && r != nd && p != nd
  }

  /** Multiply: r = R0*R1. */
  method LadderMultiply(r0: array<int>, r1: array<int>, r: array<int>, p: array<int>, nd: array<int>, n: nat, ghost a: int, ghost b: int)
    requires Modulus(p[..], nd[..], n) && Ladder(r0, r1, r, p, nd, n)
    requires Represents(r0[..], n, a, Seg(p[..], 0, n)) && Represents(r1[..], n, b, Seg(p[..], 0, n))
    modifies r0, r, p
    ensures p[..] == old(p[..]) && Kept(old(r[..]), r[..], 0, n)
    ensures Represents(r0[..], n, a, Seg(p[..], 0, n)) && Represents(r[..], n, a * b, Seg(p[..], 0, n))
  {
    ghost var m := Seg(p[..], 0, n);
    ghost var u, v := Seg(r0[..], 0, n), Seg(r1[..], 0, n);
    PowerCoprime(p[..], nd[..], n);
    FfModmul(r, r0, r1, p, nd, n);
    ScaledForm(u, v, Seg(r[..], 0, n), a, b, RW(n), m);
  }

  method LadderSquare(r0: array<int>, p: array<int>, nd: array<int>, n: nat, ghost a: int)
    requires Modulus(p[..], nd[..], n) && r0 != p && r0 != nd && p != nd
    requires Represents(r0[..], n, a, Seg(p[..], 0, n))
    modifies r0, p
    ensures p[..] == old(p[..]) && Represents(r0[..], n, a * a, Seg(p[..], 0, n))
  {
    ghost var u := Seg(r0[..], 0, n);
    PowerCoprime(p[..], nd[..], n);
    FfModsqr(r0, p, nd, n);
    ScaledForm(u, u, Seg(r0[..], 0, n), a, a, RW(n), Seg(p[..], 0, n));
  }

  method LadderSwap(r0: array<int>, r1: array<int>, d: int, n: nat, ghost a: int, ghost b: int, ghost p: int)
    requires r0 != r1 && 0 <= d <= 1 && Represents(r0[..], n, a, p) && Represents(r1[..], n, b, p)
    modifies r0, r1
    ensures Represents(r0[..], n, if d == 1 then b else a, p) && Represents(r1[..], n, if d == 1 then a else b, p)
  {
    ghost var s, t := r0[..], r1[..];
    FfCswap(r0, r1, d, n);
  }

  /** One turn of the ladder: from the powers k and k+1 to the powers 2k+bit and 2k+bit+1. */
  method LadderTurn(r0: array<int>, r1: array<int>, r: array<int>, p: array<int>, nd: array<int>, n: nat, bit: int, ghost x: int, ghost k: nat)
    requires Modulus(p[..], nd[..], n) && Ladder(r0, r1, r, p, nd, n) && 0 <= bit <= 1
    requires Represents(r0[..], n, Pow(x, k), Seg(p[..], 0, n)) && Represents(r1[..], n, Pow(x, k + 1), Seg(p[..], 0, n))
    modifies r0, r1, r, p
    ensures p[..] == old(p[..]) && Kept(old(r[..]), r[..], 0, n)
    ensures Represents(r0[..], n, Pow(x, 2 * k + bit), Seg(p[..], 0, n))
    ensures Represents(r1[..], n, Pow(x, 2 * k + bit + 1), Seg(p[..], 0, n))
  {
    ghost var a, b, m := Pow(x, k), Pow(x, k + 1), Seg(p[..], 0, n);
    PowStep(x, k);
    LadderMultiply(r0, r1, r, p, nd, n, a, b);
    LadderSwap(r0, r1, bit, n, a, b, m);
    ghost var c := if bit == 1 then b else a;
    LadderSquare(r0, p, nd, n, c);
    Copy(r1, 0, r, 0, n);
    LadderSwap(r0, r1, bit, n, c * c, a * b, m);
  }

  // bits of the exponent

  /** v shifted right by i bits. */
  function Above(v: int, i: nat): (r: int)
    ensures v >= 0 ==> r >= 0
  {
    PowPositive(2, i);
    if v >= 0 then QuotientAtLeast(v, Pow(2, i), 0); v / Pow(2, i) else v / Pow(2, i)
  }

  lemma DivDiv(v: int, a: int, b: int)
    requires a > 0 && b > 0
    ensures a * b > 0 && (v / a) / b == v / (a * b)
  {
    var q := v / a;
    var d := q / b;
    MulMono(1, b, a);
    assert v == a * q + v % a && q == b * d + q % b;
    assert a * (b * d) == d * (a * b);
    assert a * (b * d + q % b) == a * (b * d) + a * (q % b);
    var r := a * (q % b) + v % a;
    MulMono(q % b, b - 1, a);
    MulMono(0, q % b, a);
    assert (b - 1) * a == a * b - a;
    DivModUnique(v, a * b, d, r);
  }

  /** Bit i of the whole is bit i mod 256 of entry i/256. */
  lemma BitOfEntry(s: seq<int>, n: nat, i: nat)
    requires n <= |s| && Digits(s, 0, n) && i < 256 * n
    ensures Above(Seg(s, 0, n), i) % 2 == Above(s[i / 256], i % 256) % 2
  {
    var q, j := i / 256, i % 256;
    PowPositive(2, i);
    PowPositive(2, j);
    SegSplit(s, 0, q, n - q);
    DigitsBound(s, 0, q);
    var v, u := Seg(s, 0, n), Seg(s, q, n - q);
    PartIs(u, q);
    DivModUnique(v, RW(q), u, Seg(s, 0, q));
    RWTwo(q);
    PowAdd(2, 256 * q, j);
    DivDiv(v, RW(q), Pow(2, j));
    SegSplit(s, q, 1, n - q - 1);
    SegOne(s, q);
    PartIs(Seg(s, q + 1, n - q - 1), 1);
    RWOne();
    LowBit(u, s[q], Seg(s, q + 1, n - q - 1), j);
  }

  lemma LowBit(u: int, lo: int, hi: int, j: nat)
    requires j < 256 && u == lo + hi * R
    ensures Above(u, j) % 2 == Above(lo, j) % 2
  {
    var d, e := Pow(2, j), Pow(2, 255 - j);
    PowPositive(2, j);
    RSplit(j);
    var f, g := 2 * e, hi * e;
    DivShift(lo, hi, d, f);
    assert hi * f == 2 * g;
  }

  lemma RSplit(j: nat)
    requires j < 256
    ensures R == Pow(2, j) * (2 * Pow(2, 255 - j))
  {
    RIsPower();
    PowAdd(2, j, 256 - j);
  }

  lemma DivShift(lo: int, hi: int, d: int, f: int)
    requires d > 0
    ensures (lo + hi * (d * f)) / d == lo / d + hi * f
  {
    var q := lo / d;
    assert hi * (d * f) == (hi * f) * d;
    assert (q + hi * f) * d == q * d + (hi * f) * d;
    DivModUnique(lo + hi * (d * f), d, q + hi * f, lo % d);
  }

  lemma AboveStep(v: int, i: nat)
    ensures Above(v, i) == 2 * Above(v, i + 1) + Above(v, i) % 2
  {
    PowPositive(2, i);
    PowPositive(2, i + 1);
    DivDiv(v, Pow(2, i), 2);
    assert Pow(2, i) * 2 == Pow(2, i + 1);
  }

  /** BIG_bit(e[i/BIGBITS], i%BIGBITS) */
  method ExponentBit(e: array<int>, n: nat, i: nat) returns (b: int)
    requires n <= e.Length && Digits(e[..], 0, n) && i < 256 * n
    ensures 0 <= b <= 1 && 0 <= Seg(e[..], 0, n) && Above(Seg(e[..], 0, n), i) == 2 * Above(Seg(e[..], 0, n), i + 1) + b
  {
    b := Above(e[i / 256], i % 256) % 2;
    DigitsBound(e[..], 0, n);
    BitOfEntry(e[..], n, i);
    AboveStep(Seg(e[..], 0, n), i);
  }

  lemma PowerZero(v: nat, n: nat)
    requires v < RW(n)
    ensures Above(v, 256 * n) == 0 && Above(v, 0) == v
  {
    RWTwo(n);
    DivModUnique(v, RW(n), 0, v);
  }

  /** The number that FF_skpow raises to a power. */
  ghost function Base(x: int, p: int): int { if x <= p then x else 0 }

  /** FF_skpow: r = x^e modulo p for odd p and x up to p; a larger x counts as 0.  PowerExact says when that is
      x^e modulo p. */
  method FfSkpow(r: array<int>, x: array<int>, e: array<int>, p: array<int>, n: nat)
    requires PowerOfTwo(n) && n >= 2 && n <= r.Length && n <= x.Length && n <= e.Length && n <= p.Length
    requires r != x && r != e && r != p && x != p && e != p
    requires Digits(p[..], 0, n) && p[0] % 2 == 1 && Digits(e[..], 0, n) && Natural(x[..], n)
    modifies r, p
    ensures p[..] == old(p[..]) && Kept(old(r[..]), r[..], 0, n)
    ensures 0 <= Seg(e[..], 0, n) && 0 < Seg(p[..], 0, n)
    ensures Seg(r[..], 0, n) == Pow(Base(Seg(x[..], 0, n), Seg(p[..], 0, n)), Seg(e[..], 0, n)) % Seg(p[..], 0, n)
  {
    ghost var ev, m := Seg(e[..], 0, n), Seg(p[..], 0, n);
    ghost var xv := Base(Seg(x[..], 0, n), m);
    var r0, r1, nd := new int[n], new int[n], new int[n];
    FfInvmod2m(nd, p, n);
    DigitsBound(e[..], 0, n);
    OddPositive(p[..], n);
    One(r0, n);
    Copy(r1, 0, x, 0, n);
    FfNres(r0, p, n);
    FfNres(r1, p, n);
    PowerZero(ev, n);
    assert Pow(xv, 0) == 1 && Pow(xv, 1) == xv;
    var i := 256 * n;
    while i > 0
      invariant 0 <= i <= 256 * n
      invariant p[..] == old(p[..]) && Kept(old(r[..]), r[..], 0, n) && e[..] == old(e[..]) && x[..] == old(x[..])
      invariant Modulus(p[..], nd[..], n) && Ladder(r0, r1, r, p, nd, n) && fresh(r0) && fresh(r1) && fresh(nd)
      invariant Represents(r0[..], n, Pow(xv, Above(ev, i)), m)
      invariant Represents(r1[..], n, Pow(xv, Above(ev, i) + 1), m)
    {
      i := i - 1;
      var b := ExponentBit(e, n, i);
      LadderTurn(r0, r1, r, p, nd, n, b, xv, Above(ev, i + 1));
    }
    Copy(r, 0, r0, 0, n);
    ghost var v := Seg(r[..], 0, n);
    FfRedc(r, p, nd, n);
    PowerCoprime(p[..], nd[..], n);
    OutOfForm(Seg(r[..], 0, n), v, Pow(xv, ev), RW(n), m);
  }

  lemma {:induction false} PowOfZero(e: nat)
    ensures Pow(0, e) == if e == 0 then 1 else 0
  {
  }

  /** The power is right exactly if x is at most p, or the exponent is 0, or p divides x^e. */
  lemma PowerExact(x: nat, e: nat, p: int)
    requires p > 0
    ensures Pow(Base(x, p), e) % p == Pow(x, e) % p <==> x <= p || e == 0 || Pow(x, e) % p == 0
  {
    if x > p && e > 0 { PowerOfBase(x, e, p); }
  }

  lemma PowerOfBase(x: nat, e: nat, p: int)
    requires x > p > 0 && e > 0
    ensures Pow(Base(x, p), e) % p == 0
  {
    PowOfZero(e);
    DivModUnique(0, p, 0, 0);
  }

  /** For x coprime to p, so exactly if x is at most p or the exponent is 0. */
  lemma PowerExactUnit(x: nat, e: nat, p: int)
    requires p > 1 && Coprime(x, p)
    ensures Pow(Base(x, p), e) % p == Pow(x, e) % p <==> x <= p || e == 0
  {
    PowerExact(x, e, p);
    CoprimePow(x, e, p);
    if Pow(x, e) % p == 0 {
      var s, t :| Bezout(s, Pow(x, e), t, p);
      NoUnit(s, Pow(x, e) / p, t, p);
    }
  }

  lemma NoUnit(s: int, q: int, t: int, p: int)
    requires p > 1
    ensures s * (p * q) + t * p != 1
  {
    assert s * (p * q) + t * p == (s * q + t) * p;
    DivModUnique(1, p, 0, 1);
    if s * (p * q) + t * p == 1 { DivModUnique(1, p, s * q + t, 0); }
  }

  /** 4 to the power 1 modulo 3 comes out as 0. */
  lemma PowerFails()
    ensures Pow(Base(4, 3), 1) % 3 == 0 && Pow(4, 1) % 3 == 1
  {
  }

  lemma OddPositive(s: seq<int>, n: nat)
    requires 0 < n <= |s| && Digits(s, 0, n) && s[0] % 2 == 1
    ensures Seg(s, 0, n) > 0
  {
    DigitsBound(s, 1, n - 1);
    SegSplit(s, 0, 1, n - 1);
    SegOne(s, 0);
    PartMono(0, Seg(s, 1, n - 1), 1);
    PartZero(1);
  }

  lemma OutOfForm(r: int, v: int, x: int, w: int, m: int)
    requires m > 0 && Coprime(w, m) && 0 <= r < m && Cong(r * w, v, m) && Cong(v, x * w, m)
    ensures r == x % m
  {
    assert w * r == r * w && w * x == x * w;
    CongCancel(w, r, x, m);
    CongMod(x, m);
    CongSmall(r, x % m, m);
  }
}
