/** Integer facts shared by the models: powers, congruence modulo m and coprimality.
    Congruence is always introduced and eliminated through an explicit multiple, so
    that no proof depends on the solver's treatment of `%`. */
module Arith {

  function Pow(b: int, n: nat): int {
    if n == 0 then 1 else b * Pow(b, n - 1)
  }

  lemma {:induction false} PowPositive(b: int, n: nat)
    requires b > 0
    ensures Pow(b, n) > 0
  {
    if n > 0 { PowPositive(b, n - 1); }
  }

  lemma {:induction false} PowAdd(b: int, m: nat, n: nat)
    ensures Pow(b, m + n) == Pow(b, m) * Pow(b, n)
  {
    if m > 0 {
      PowAdd(b, m - 1, n);
      assert b * (Pow(b, m - 1) * Pow(b, n)) == (b * Pow(b, m - 1)) * Pow(b, n);
    }
  }

  lemma {:induction false} PowMono(b: int, m: nat, n: nat)
    requires b > 0 && m <= n
    ensures 0 < Pow(b, m) <= Pow(b, n)
  {
    PowAdd(b, m, n - m);
    PowPositive(b, m);
    PowPositive(b, n - m);
    MulMono(1, Pow(b, n - m), Pow(b, m));
  }

  lemma TwoTo256()
    ensures Pow(2, 256) == 0x1_0000000000000000_0000000000000000_0000000000000000_0000000000000000
  {
    assert Pow(2, 8) == 256;
    PowAdd(2, 8, 8);
    PowAdd(2, 16, 16);
    PowAdd(2, 32, 32);
    PowAdd(2, 64, 64);
    PowAdd(2, 128, 128);
  }

  lemma MulMono(x: int, y: int, z: int)
    requires x <= y && z >= 0
    ensures x * z <= y * z
  {
  }

  /** The quotient and remainder of a division are determined by their defining equation. */
  lemma DivModUnique(x: int, d: int, q: int, r: int)
    requires d > 0 && 0 <= r < d && x == q * d + r
    ensures q == x / d && r == x % d
  {
    var k := x / d - q;
    assert x == (x / d) * d + x % d;
    assert (x / d) * d - q * d == k * d;
    assert k * d == r - x % d;
    if k >= 1 {
      MulMono(1, k, d);
    } else if k <= -1 {
      MulMono(k, -1, d);
    }
  }

  // ---------- a product kept out of the solver's sight ----------

  ghost predicate MarkedProd(x: int, y: int) { true }

  ghost predicate IsProd(x: int, y: int, p: int) {
    forall a: int, b: int {:trigger MarkedProd(a, b)} :: MarkedProd(a, b) && a == x && b == y ==> p == a * b
  }

  /** x*y, as an opaque number until ProdIs is called. */
  ghost function Prod(x: int, y: int): int {
    assert IsProd(x, y, x * y);
    var p :| IsProd(x, y, p);
    p
  }

  lemma ProdIs(x: int, y: int)
    ensures Prod(x, y) == x * y
  {
    assert MarkedProd(x, y);
  }

  // ---------- congruence ----------

  ghost predicate Cong(a: int, b: int, m: int)
    requires m > 0
  {
    a % m == b % m
  }

  lemma CongIntro(a: int, b: int, k: int, m: int)
    requires m > 0 && a - b == k * m
    ensures Cong(a, b, m)
  {
    assert a == (b / m) * m + b % m + k * m;
    assert (b / m + k) * m == (b / m) * m + k * m;
    DivModUnique(a, m, b / m + k, b % m);
  }

  lemma CongElim(a: int, b: int, m: int) returns (k: int)
    requires m > 0 && Cong(a, b, m)
    ensures a - b == k * m
  {
    k := a / m - b / m;
    assert k * m == (a / m) * m - (b / m) * m;
  }

  lemma CongAdd(a: int, b: int, c: int, d: int, m: int)
    requires m > 0 && Cong(a, b, m) && Cong(c, d, m)
    ensures Cong(a + c, b + d, m)
  {
    var k := CongElim(a, b, m);
    var l := CongElim(c, d, m);
    assert (k + l) * m == k * m + l * m;
    CongIntro(a + c, b + d, k + l, m);
  }

  lemma CongSub(a: int, b: int, c: int, d: int, m: int)
    requires m > 0 && Cong(a, b, m) && Cong(c, d, m)
    ensures Cong(a - c, b - d, m)
  {
    var k := CongElim(a, b, m);
    var l := CongElim(c, d, m);
    assert (k - l) * m == k * m - l * m;
    CongIntro(a - c, b - d, k - l, m);
  }

  lemma CongMul(a: int, b: int, c: int, d: int, m: int)
    requires m > 0 && Cong(a, b, m) && Cong(c, d, m)
    ensures Cong(a * c, b * d, m)
  {
    var k := CongElim(a, b, m);
    var l := CongElim(c, d, m);
    calc {
      a * c - b * d;
      (a - b) * c + b * (c - d);
      (k * m) * c + b * (l * m);
      (k * c + b * l) * m;
    }
    CongIntro(a * c, b * d, k * c + b * l, m);
  }

  lemma CongMod(a: int, m: int)
    requires m > 0
    ensures Cong(a % m, a, m)
  {
    CongIntro(a % m, a, -(a / m), m);
  }

  lemma CongSmall(a: int, b: int, m: int)
    requires 0 <= a < m && 0 <= b < m && Cong(a, b, m)
    ensures a == b
  {
    DivModUnique(a, m, 0, a);
    DivModUnique(b, m, 0, b);
  }

  /** A congruence survives passing to a divisor of the modulus. */
  lemma CongDivisor(a: int, b: int, m: int, n: int)
    requires m > 0 && n > 0 && m * n > 0 && Cong(a, b, m * n)
    ensures Cong(a, b, m)
  {
    var k := CongElim(a, b, m * n);
    assert k * (m * n) == (k * n) * m;
    CongIntro(a, b, k * n, m);
  }

  // ---------- coprimality, in Bezout form ----------

  ghost predicate Bezout(s: int, a: int, t: int, b: int) {
    s * a + t * b == 1
  }

  ghost predicate Coprime(a: int, b: int) {
    exists s, t :: Bezout(s, a, t, b)
  }

  lemma CoprimeIntro(a: int, b: int, s: int, t: int)
    requires s * a + t * b == 1
    ensures Coprime(a, b)
  {
    assert Bezout(s, a, t, b);
  }

  /** A factor coprime to the modulus can be cancelled from a congruence. */
  lemma CongCancel(c: int, a: int, b: int, m: int)
    requires m > 0 && Coprime(c, m) && Cong(c * a, c * b, m)
    ensures Cong(a, b, m)
  {
    var s, t :| Bezout(s, c, t, m);
    var k := CongElim(c * a, c * b, m);
    var e := a - b;
    assert c * e == k * m;
    assert (s * c + t * m) * e == s * (c * e) + (t * e) * m;
    assert s * (k * m) == (s * k) * m;
    assert (s * k) * m + (t * e) * m == (s * k + t * e) * m;
    CongIntro(a, b, s * k + t * e, m);
  }

  /** If one factor divides out of the modulus, so does every power of it. */
  lemma {:induction false} CoprimePow(c: int, n: nat, m: int)
    requires Coprime(c, m)
    ensures Coprime(Pow(c, n), m)
  {
    if n == 0 {
      assert Bezout(1, Pow(c, n), 0, m);
    } else {
      CoprimePow(c, n - 1, m);
      CoprimeMul(c, Pow(c, n - 1), m);
    }
  }

  lemma CoprimeMul(c: int, d: int, m: int)
    requires Coprime(c, m) && Coprime(d, m)
    ensures Coprime(c * d, m)
  {
    var s, t :| Bezout(s, c, t, m);
    var u, v :| Bezout(u, d, v, m);
    calc {
      1;
      (s * c + t * m) * (u * d + v * m);
      (s * u) * (c * d) + (s * c * v + t * u * d + t * m * v) * m;
    }
    CoprimeIntro(c * d, m, s * u, s * c * v + t * u * d + t * m * v);
  }

  lemma BelowProduct(x: int, u: int, y: int, v: int)
    requires 0 <= x < u && 0 <= y < v
    ensures 0 <= x * y < u * v
  {
    MulMono(0, x, y);
    MulMono(x, u, y);
    MulMono(y + 1, v, u);
  }

  lemma QuotientAtLeast(v: int, c: int, q: int)
    requires c > 0 && q * c <= v
    ensures q <= v / c
  {
    var d := v / c;
    assert v == d * c + v % c;
    assert (d + 1) * c == d * c + c;
    if q > d { MulMono(d + 1, q, c); }
  }

  lemma MulCancel(x: int, y: int, w: int)
    requires w > 0 && x * w == y * w
    ensures x == y
  {
    if x < y { MulMono(x + 1, y, w); }
    if y < x { MulMono(y + 1, x, w); }
  }

  lemma CoprimeFlip(a: int, b: int)
    requires Coprime(a, b)
    ensures Coprime(b, a)
  {
    var s, t :| Bezout(s, a, t, b);
    CoprimeIntro(b, a, t, s);
  }

  /** If a and b stand for x and y scaled by w, a quotient of a*b by w stands for x*y scaled by w. */
  lemma ScaledForm(a: int, b: int, r: int, x: int, y: int, w: int, p: int)
    requires p > 0 && Coprime(w, p)
    requires Cong(a, x * w, p) && Cong(b, y * w, p) && Cong(r * w, a * b, p)
    ensures Cong(r, (x * y) * w, p)
  {
    CongMul(a, x * w, b, y * w, p);
    ScaledTwice(x, y, w);
    CongCancel(w, r, (x * y) * w, p);
  }

  lemma ScaledTwice(x: int, y: int, w: int)
    ensures (x * w) * (y * w) == w * ((x * y) * w)
  {
    var u := y * w;
    assert (x * w) * u == w * (x * u);
    assert x * u == (x * y) * w;
  }
}
