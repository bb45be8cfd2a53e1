/**
 * Inversion modulo a power of two by Arazi and Qi's doubling (ff.c): modulo 2^8, then 2^256, then R^n.
 */
module FfInverse {
  import opened Arith
  import opened FfValue
  import opened FfKaratsuba

  // ---------- one doubling ----------

  lemma StepExpands(u: int, b: int, c: int, t: int, h: int, m: int)
    requires u * b == 1 + m * h
    ensures (u - m * t) * (b + m * c) == 1 + m * (h + u * c - t * b) + (m * m) * (-(t * c))
  {
    var mt, mc := m * t, m * c;
    assert (u - mt) * (b + mc) == u * b + u * mc - mt * b - mt * mc;
    assert u * mc == m * (u * c);
    assert mt * b == m * (t * b);
    assert mt * mc == (m * m) * (t * c);
    assert m * (h + u * c - t * b) == m * h + m * (u * c) - m * (t * b);
  }

  /** t*b undoes multiplication by u modulo m. */
  lemma StepCancels(u: int, b: int, g: int, s: int, t: int, h: int, m: int)
    requires m > 0 && u * b == 1 + m * h && Cong(s, g, m) && Cong(t, s * u, m)
    ensures Cong(t * b, g, m)
  {
    CongMul(t, s * u, b, b, m);
    assert (s * u) * b == s * (u * b);
    CongIntro(u * b, 1, h, m);
    CongMul(s, g, u * b, 1, m);
  }

  /** If u inverts b modulo m then u - m*t inverts b + m*c modulo m*m. */
  lemma Doubling(u: int, u': int, a: int, b: int, c: int, h: int, s: int, t: int, m: int)
    requires m > 0 && Cong(a, b + m * c, m * m) && u * b == 1 + m * h
    requires Cong(s, h + u * c, m) && Cong(t, s * u, m) && Cong(u', u - m * t, m * m)
    ensures Cong(u' * a, 1, m * m)
  {
    var g := h + u * c;
    StepCancels(u, b, g, s, t, h, m);
    var k := CongElim(t * b, g, m);
    StepExpands(u, b, c, t, h, m);
    CongMul(u', u - m * t, a, b + m * c, m * m);
    assert m * (g - t * b) == (m * m) * (-k) by {
      assert m * (k * m) == (m * m) * k;
    }
    assert (m * m) * (-k) + (m * m) * (-(t * c)) == (-k - t * c) * (m * m);
    CongIntro((u - m * t) * (b + m * c), 1, -k - t * c, m * m);
  }

  /** One doubling as the code does it on single numbers: U plus m*(m - t). */
  lemma NumberStep(u: int, a: int, b: int, c: int, t1: int, t: int, m: int)
    requires m > 0 && b == a % m && c == (a / m) % m && Cong(u * b, 1, m) && m > 1
    requires t1 == u * b / m + (u * c) % m && t == (t1 * u) % m
    ensures Cong((u + m * (m - t)) * a, 1, m * m)
  {
    var h := u * b / m;
    TopQuotient(u * b, m);
    TwoDigits(a, m);
    CongMod(u * c, m);
    CongAdd(h, h, (u * c) % m, u * c, m);
    CongMod(t1 * u, m);
    assert m * (m - t) == m * m - m * t;
    CongIntro(u + m * (m - t), u - m * t, 1, m * m);
    Doubling(u, u + m * (m - t), a, b, c, h, t1, t, m);
  }

  lemma TopQuotient(x: int, m: int)
    requires m > 1 && Cong(x, 1, m)
    ensures x == 1 + m * (x / m)
  {
    DivModUnique(1, m, 0, 1);
  }

  lemma TwoDigits(a: int, m: int)
    requires m > 0
    ensures Cong(a, a % m + m * ((a / m) % m), m * m)
  {
    var d := a / m;
    var c, q := d % m, d / m;
    assert d == c + m * q;
    assert m * d == m * c + m * (m * q);
    assert m * (m * q) == q * (m * m);
    CongIntro(a, a % m + m * c, q, m * m);
  }

  // ---------- invmod256 ----------

  /** invmod256: U*a is 1 modulo 256. */
  method Invmod256(a: int) returns (U: int)
    requires 0 <= a < 256 && a % 2 == 1
    ensures 0 < U <= 277 && Cong(U * a, 1, 256)
  {
    var c := (a / 2) % 2;
    var t1 := c % 2;
    t1 := 2 - t1;
    t1 := t1 * 2;
    U := t1 + 1;
    NumberStep(1, a, a % 2, c, c, c, 2);
    U := InvmodTurn(U, a, 4);
    U := InvmodTurn(U, a, 16);
  }

  /** The steps for i = 2 and i = 4, with m = 2^i. */
  method InvmodTurn(u: int, a: int, m: int) returns (U: int)
    requires (m == 4 && 0 < u <= 5) || (m == 16 && 0 < u <= 21)
    requires 0 <= a < 256 && Cong(u * a, 1, m)
    ensures u < U <= u + m * m && Cong(U * a, 1, m * m)
  {
    var b := a % m;
    var t1 := u * b;
    t1 := t1 / m;
    var c := (a / m) % m;
    var t2 := (u * c) % m;
    t1 := t1 + t2;
    ghost var s := t1;
    t1 := t1 * u;
    t1 := t1 % m;
    ghost var t := t1;
    LowCong(u, a, m);
    NumberStep(u, a, b, c, s, t, m);
    t1 := m - t1;
    t1 := t1 * m;
    U := u + t1;
  }

  lemma LowCong(u: int, a: int, m: int)
    requires m > 0 && Cong(u * a, 1, m)
    ensures Cong(u * (a % m), 1, m)
  {
    CongMod(a, m);
    CongMul(u, u, a % m, a, m);
  }

  // ---------- BIG_invmod2m ----------

  /** BIG_smul: the low half of a product. */
  function Smul(x: int, y: int): int { (x * y) % BIG_MODULUS }

  /** Nothing is lost when the product fits. */
  lemma SmulExact(x: int, y: int, u: int, v: int)
    requires 0 <= x < u && 0 <= y < v && u * v <= BIG_MODULUS
    ensures Smul(x, y) == x * y
  {
    BelowProduct(x, u, y, v);
  }

  lemma Squares(m: int)
    ensures (2 * m) * m == 2 * (m * m) && (3 * m) * (2 * m) == 6 * (m * m)
  {
  }

  lemma TopBits(u: int, b: int, m: int)
    requires 0 < m && 0 < u < 2 * m && 0 <= b < m
    ensures 0 <= (u * b) / m < 2 * m
  {
    BelowProduct(u, 2 * m, b, m);
    QuotientAtLeast(u * b, m, 0);
    var d := (u * b) / m;
    if d >= 2 * m { MulMono(2 * m, d, m); }
  }

  lemma TurnBounds(u: int, t: int, m: int)
    requires 1 < m && 0 < u < 2 * m && 0 <= t < m
    ensures 0 < u + (m - t) * m < 2 * (m * m)
  {
    MulMono(0, m - t, m);
    MulMono(m - t, m, m);
    MulMono(2, m, m);
  }

  /** One turn of BIG_invmod2m, with m = 2^i. */
  method NumberTurn(u: int, a: int, m: int) returns (U: int)
    requires 0 <= a && 1 < m && 8 * (m * m) <= BIG_MODULUS && 0 < u < 2 * m && Cong(u * a, 1, m)
    ensures 0 < U < 2 * (m * m) && Cong(U * a, 1, m * m)
  {
    var b := a % m;
    var c := (a / m) % m;
    // none of the products is cut off
    Squares(m);
    SmulExact(u, b, 2 * m, m);
    SmulExact(u, c, 2 * m, m);
    TopBits(u, b, m);
    LowCong(u, a, m);
    var t1 := Smul(u, b) / m;
    t1 := t1 + Smul(u, c) % m;
    SmulExact(t1, u, 3 * m, 2 * m);
    var t := Smul(t1, u) % m;
    NumberStep(u, a, b, c, t1, t, m);
    TurnBounds(u, t, m);
    U := u + (m - t) * m;
  }

  /** BIG_invmod2m: the inverse of an odd number modulo R. */
  method BigInvmod2m(a: int) returns (r: int)
    requires 0 <= a < R && a % 2 == 1
    ensures 0 <= r < R && Cong(r * a, 1, R)
  {
    var U := Invmod256(a % 256);
    CongMod(a, 256);
    CongMul(U, U, a % 256, a, 256);
    var i := 8;
    RIsPower();
    while i < 256
      invariant i == 8 || i == 16 || i == 32 || i == 64 || i == 128 || i == 256
      invariant 0 < U < 2 * Pow(2, i) && Cong(U * a, 1, Pow(2, i))
      decreases 256 - i
    {
      PowAdd(2, i, i);
      PowMono(2, 2 * i, 256);
      PowMono(2, 1, i);
      U := NumberTurn(U, a, Pow(2, i));
      i := 2 * i;
    }
    r := U % R;
    CongMod(U, R);
    CongMul(r, U, a, a, R);
  }

  lemma RIsPower()
    ensures R == Pow(2, 256) && Pow(2, 8) == 256 && Pow(2, 1) == 2
  {
    TwoTo256();
  }

  // ---------- FF_invmod2m ----------

  ghost predicate Zeros(s: seq<int>, p: nat, n: nat)
    requires p + n <= |s|
  {
    forall i :: p <= i < p + n ==> s[i] == 0
  }

  /** FF_zero */
  method Zero(x: array<int>, p: nat, n: nat)
    requires p + n <= x.Length
    modifies x
    ensures Kept(old(x[..]), x[..], p, n) && Zeros(x[..], p, n)
  {
    var i := 0;
    while i < n
      invariant 0 <= i <= n
      invariant Kept(old(x[..]), x[..], p, n)
      invariant forall j :: p <= j < p + i ==> x[j] == 0
    {
      x[p + i] := 0;
      i := i + 1;
    }
  }

  /** FF_one */
  method One(x: array<int>, n: nat)
    requires 0 < n <= x.Length
    modifies x
    ensures Kept(old(x[..]), x[..], 0, n) && Seg(x[..], 0, n) == 1 && Digits(x[..], 0, n)
  {
    x[0] := 1;
    Zero(x, 1, n - 1);
    SegSplit(x[..], 0, 1, n - 1);
    SegOne(x[..], 0);
    SegZero(x[..], 1, n - 1);
    PartZero(1);
  }

  /** FF_shrw */
  method Shrw(a: array<int>, n: nat)
    requires 2 * n <= a.Length
    modifies a
    ensures Kept(old(a[..]), a[..], 0, 2 * n)
    ensures Seg(a[..], 0, n) == old(Seg(a[..], n, n)) && Zeros(a[..], n, n)
  {
    ghost var s := a[..];
    var i := 0;
    while i < n
      invariant 0 <= i <= n
      invariant Kept(s, a[..], 0, 2 * n)
      invariant forall j :: 0 <= j < i ==> a[j] == s[j + n]
      invariant forall j :: n <= j < n + i ==> a[j] == 0
      invariant forall j :: n + i <= j < 2 * n ==> a[j] == s[j]
    {
      a[i] := a[i + n];
      a[i + n] := 0;
      i := i + 1;
    }
    SegFrame(a[..], 0, s, n, n);
  }

  /** FF_shlw */
  method Shlw(a: array<int>, n: nat)
    requires 2 * n <= a.Length
    modifies a
    ensures Kept(old(a[..]), a[..], 0, 2 * n) && Agree(a[..], n, old(a[..]), 0, n)
    ensures Seg(a[..], n, n) == old(Seg(a[..], 0, n)) && Zeros(a[..], 0, n)
  {
    ghost var s := a[..];
    var i := 0;
    while i < n
      invariant 0 <= i <= n
      invariant Kept(s, a[..], 0, 2 * n)
      invariant forall j :: 0 <= j < i ==> a[j] == 0
      invariant forall j :: i <= j < n ==> a[j] == s[j]
      invariant forall j :: n <= j < n + i ==> a[j] == s[j - n]
    {
      a[i + n] := a[i];
      a[i] := 0;
      i := i + 1;
    }
    SegFrame(a[..], n, s, 0, n);
  }

  /** FF_sub into its second operand. */
  method SubFrom(z: array<int>, x: array<int>, n: nat)
    requires n <= z.Length && n <= x.Length && z != x
    modifies z
    ensures Kept(old(z[..]), z[..], 0, n)
    ensures Seg(z[..], 0, n) == Seg(x[..], 0, n) - old(Seg(z[..], 0, n))
  {
    ghost var s := z[..];
    var i := 0;
    while i < n
      invariant 0 <= i <= n
      invariant Kept(s, z[..], 0, i)
      invariant forall j :: 0 <= j < i ==> z[j] == x[j] - s[j]
    {
      z[i] := x[i] - z[i];
      i := i + 1;
    }
    SegSum(x[..], 0, s, 0, z[..], 0, n, -1);
  }

  /** The workspace of one doubling. */
  ghost predicate Workspace(t1: array<int>, b: array<int>, c: array<int>, U: array<int>, a: array<int>, i: nat) {
    && PowerOfTwo(i) && 2 * i <= t1.Length && 2 * i <= b.Length && 2 * i <= c.Length && 2 * i <= U.Length && 2 * i <= a.Length
    && t1 != b && t1 != c && t1 != U && t1 != a && b != c && b != U && b != a && c != U && c != a && U != a
  }

  /** t1 = h, where the low half of a times U is 1 + h*R^i. */
  method TopHalf(t1: array<int>, b: array<int>, c: array<int>, U: array<int>, a: array<int>, i: nat)
    requires Workspace(t1, b, c, U, a, i)
    requires Cong(Seg(U[..], 0, i) * Seg(a[..], 0, i), 1, RW(i))
    modifies t1, b
    ensures Seg(U[..], 0, i) * Seg(a[..], 0, i) == 1 + RW(i) * Seg(t1[..], 0, i)
    ensures Zeros(t1[..], i, i)
  {
    ghost var x := Seg(U[..], 0, i) * Seg(a[..], 0, i);
    Copy(b, 0, a, 0, i);
    FfMul(t1, U, b, i);
    SegSplit(t1[..], 0, i, i);
    DigitsBound(t1[..], 0, i);
    ghost var lo, hi := Seg(t1[..], 0, i), Seg(t1[..], i, i);
    UnitLow(x, lo, hi, i);
    Shrw(t1, i);
  }

  lemma UnitLow(x: int, lo: int, hi: int, i: nat)
    requires x == lo + Part(hi, i) && 0 <= lo < RW(i) && Cong(x, 1, RW(i)) && i > 0
    ensures x == 1 + RW(i) * hi
  {
    PartIs(hi, i);
    PartCong(lo, x, hi, i);
    RWAdd(1, i - 1);
    RWOne();
    MulMono(1, RW(i - 1), R);
    CongSmall(lo, 1, RW(i));
  }

  /** t1 += U * (high half of a), modulo R^i. */
  method AddCross(t1: array<int>, b: array<int>, c: array<int>, U: array<int>, a: array<int>, i: nat)
    requires Workspace(t1, b, c, U, a, i) && Zeros(t1[..], i, i)
    modifies t1, b, c
    ensures Cong(Seg(t1[..], 0, i), old(Seg(t1[..], 0, i)) + Seg(U[..], 0, i) * Seg(a[..], i, i), RW(i))
  {
    ghost var h, u, ah := Seg(t1[..], 0, i), Seg(U[..], 0, i), Seg(a[..], i, i);
    Copy(c, 0, a, 0, 2 * i);
    SegFrame(c[..], i, a[..], i, i);
    Shrw(c, i);
    FfLmul(b, U, c, i);
    ghost var l := Seg(b[..], 0, i);
    assert Cong(l, u * ah, RW(i));
    AddAndNormalise(t1, b, i);
    CongAdd(h, h, l, u * ah, RW(i));
  }

  method AddAndNormalise(t1: array<int>, b: array<int>, i: nat)
    requires 0 < i && 2 * i <= t1.Length && i <= b.Length && t1 != b && Zeros(t1[..], i, i)
    modifies t1
    ensures Cong(Seg(t1[..], 0, i), old(Seg(t1[..], 0, i)) + Seg(b[..], 0, i), RW(i))
  {
    Rinc(t1, 0, b, 0, i, 1);
    SegZero(t1[..], i, i);
    SegSplit(t1[..], 0, i, i);
    PartZero(i);
    ghost var v := Seg(t1[..], 0, 2 * i);
    Rnorm(t1, 0, 2 * i);
    SegSplit(t1[..], 0, i, i);
    PartCong(Seg(t1[..], 0, i), v, Seg(t1[..], i, i), i);
  }

  /** The upper half of t1 becomes minus t1*U modulo R^i, in digits; the lower half becomes 0. */
  method Correction(t1: array<int>, b: array<int>, c: array<int>, U: array<int>, a: array<int>, i: nat)
    requires Workspace(t1, b, c, U, a, i)
    modifies t1, b
    ensures Zeros(t1[..], 0, i) && Digits(t1[..], i, i)
    ensures Cong(Seg(t1[..], i, i), -(old(Seg(t1[..], 0, i)) * Seg(U[..], 0, i)), RW(i))
  {
    ghost var x := Seg(t1[..], 0, i) * Seg(U[..], 0, i);
    FfLmul(b, t1, U, i);
    ghost var t := Seg(b[..], 0, i);
    Copy(t1, 0, b, 0, i);
    One(b, i);
    Shlw(b, i);
    NegateLow(t1, b, i);
    CongSub(0, 0, t, x, RW(i));
    ghost var s := t1[..];
    Shlw(t1, i);
    assert Digits(s, 0, i);
  }

  /** t1 = R^i - t1, of which the low half is kept. */
  method NegateLow(t1: array<int>, b: array<int>, i: nat)
    requires 0 < i && 2 * i <= t1.Length && 2 * i <= b.Length && t1 != b
    requires Zeros(b[..], 0, i)
    modifies t1
    ensures Digits(t1[..], 0, i) && Cong(Seg(t1[..], 0, i), -old(Seg(t1[..], 0, i)), RW(i))
  {
    ghost var t, th, bh := Seg(t1[..], 0, i), Seg(t1[..], i, i), Seg(b[..], i, i);
    SegSplit(t1[..], 0, i, i);
    SegSplit(b[..], 0, i, i);
    SegZero(b[..], 0, i);
    SubFrom(t1, b, 2 * i);
    Rnorm(t1, 0, 2 * i);
    SegSplit(t1[..], 0, i, i);
    ghost var w := Seg(t1[..], i, i);
    PartSub(bh, th, i);
    PartSub(w, bh - th, i);
    PartCong(Seg(t1[..], 0, i), -t, w - (bh - th), i);
  }

  /** U += t1, which fills the upper half of U with digits. */
  method AddHigh(U: array<int>, t1: array<int>, i: nat)
    requires 2 * i <= U.Length && 2 * i <= t1.Length && U != t1
    requires Digits(U[..], 0, i) && Zeros(U[..], i, i) && Zeros(t1[..], 0, i) && Digits(t1[..], i, i)
    modifies U
    ensures Kept(old(U[..]), U[..], i, i) && Digits(U[..], 0, 2 * i)
    ensures Seg(U[..], 0, 2 * i) == old(Seg(U[..], 0, i)) + Part(Seg(t1[..], i, i), i)
  {
    ghost var s := U[..];
    var j := 0;
    while j < 2 * i
      invariant 0 <= j <= 2 * i
      invariant forall k :: 0 <= k < U.Length && (k < i || j <= k) ==> U[k] == s[k]
      invariant forall k :: i <= k < j ==> U[k] == t1[k]
    {
      U[j] := U[j] + t1[j];
      j := j + 1;
    }
    SegFrame(s, 0, U[..], 0, i);
    SegFrame(U[..], i, t1[..], i, i);
    SegSplit(U[..], 0, i, i);
  }

  lemma HalvesCong(a: int, b: int, c: int, i: nat)
    requires a == b + Part(c, i)
    ensures Cong(a, b + RW(i) * c, RW(i) * RW(i))
  {
    PartIs(c, i);
  }

  lemma CorrectedCong(u: int, u': int, v: int, t: int, m: int)
    requires m > 0 && u' == u + v * m && Cong(v, -t, m)
    ensures Cong(u', u - m * t, m * m)
  {
    var k := CongElim(v, -t, m);
    assert v * m == (k * m - t) * m;
    assert (k * m - t) * m == k * (m * m) - m * t;
    CongIntro(u', u - m * t, k, m * m);
  }

  /** One turn of FF_invmod2m: from an inverse modulo R^i to one modulo R^2i. */
  method InverseTurn(U: array<int>, a: array<int>, t1: array<int>, b: array<int>, c: array<int>, i: nat)
    requires Workspace(t1, b, c, U, a, i)
    requires Digits(U[..], 0, i) && Zeros(U[..], i, i)
    requires Cong(Seg(U[..], 0, i) * Seg(a[..], 0, i), 1, RW(i))
    modifies U, t1, b, c
    ensures Kept(old(U[..]), U[..], i, i) && Digits(U[..], 0, 2 * i)
    ensures Cong(Seg(U[..], 0, 2 * i) * Seg(a[..], 0, 2 * i), 1, RW(2 * i))
  {
    ghost var u, al, ah := Seg(U[..], 0, i), Seg(a[..], 0, i), Seg(a[..], i, i);
    TopHalf(t1, b, c, U, a, i);
    ghost var h := Seg(t1[..], 0, i);
    AddCross(t1, b, c, U, a, i);
    ghost var s := Seg(t1[..], 0, i);
    Correction(t1, b, c, U, a, i);
    ghost var v := Seg(t1[..], i, i);
    AddHigh(U, t1, i);
    SegSplit(a[..], 0, i, i);
    TurnCorrect(u, Seg(U[..], 0, 2 * i), Seg(a[..], 0, 2 * i), al, ah, h, s, v, i);
  }

  lemma TurnCorrect(u: int, u': int, a: int, al: int, ah: int, h: int, s: int, v: int, i: nat)
    requires u * al == 1 + RW(i) * h && a == al + Part(ah, i) && Cong(s, h + u * ah, RW(i))
    requires Cong(v, -(s * u), RW(i)) && u' == u + Part(v, i)
    ensures Cong(u' * a, 1, RW(2 * i))
  {
    HalvesCong(a, al, ah, i);
    PartIs(v, i);
    CorrectedCong(u, u', v, s * u, RW(i));
    Doubling(u, u', a, al, ah, h, s, s * u, RW(i));
    RWAdd(i, i);
  }

  /** FF_invmod2m: the inverse of an odd number modulo R^n. */
  method FfInvmod2m(U: array<int>, a: array<int>, n: nat)
    requires PowerOfTwo(n) && n <= U.Length && n <= a.Length && U != a
    requires Digits(a[..], 0, n) && a[0] % 2 == 1
    modifies U
    ensures Kept(old(U[..]), U[..], 0, n) && Digits(U[..], 0, n)
    ensures Cong(Seg(U[..], 0, n) * Seg(a[..], 0, n), 1, RW(n))
  {
    var t1, b, c := new int[2 * n], new int[n], new int[n];
    Zero(U, 0, n);
    Zero(b, 0, n);
    Zero(c, 0, n);
    Zero(t1, 0, 2 * n);
    U[0] := BigInvmod2m(a[0]);
    SegOne(U[..], 0);
    SegOne(a[..], 0);
    RWOne();
    var i := 1;
    while i < n
      invariant PowerOfTwo(i) && i <= n
      invariant Kept(old(U[..]), U[..], 0, n) && Digits(U[..], 0, i) && Zeros(U[..], i, n - i)
      invariant Cong(Seg(U[..], 0, i) * Seg(a[..], 0, i), 1, RW(i))
      decreases n - i
    {
      PowersOfTwo(i, n);
      InverseTurn(U, a, t1, b, c, i);
      i := 2 * i;
    }
    DigitsBound(U[..], 0, n);
    Rnorm(U, 0, n);
    DigitsTop(U[..], 0, n);
  }
}
