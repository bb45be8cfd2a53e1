/**
 * Large integers as arrays of BIGs (ff.c): entry i of a segment weighs R^i with R = 2^256.
 * Entries are unbounded integers, so a sum that has not been normalised yet is an ordinary entry.
 */
module FfValue {
  import opened Arith

  /** 2^BIGBITS */
  const R: int := 0x1_0000000000000000_0000000000000000_0000000000000000_0000000000000000

  // Powers of R and multiples of them are pinned down rather than defined outright, as in `Limbs`.
  ghost predicate MarkedPower(i: nat) { true }

  ghost predicate IsPower(i: nat, w: int) {
    w > 0 && forall j {:trigger MarkedPower(j)} :: MarkedPower(j) && j == i ==> w == Pow(R, i)
  }

  /** R^i */
  ghost function RW(i: nat): (w: int)
    ensures w > 0
  {
    PowPositive(R, i);
    assert IsPower(i, Pow(R, i));
    var w :| IsPower(i, w);
    w
  }

  lemma RWIs(i: nat)
    ensures RW(i) == Pow(R, i)
  {
    assert MarkedPower(i);
  }

  lemma RWZero()
    ensures RW(0) == 1
  {
    RWIs(0);
  }

  lemma RWOne()
    ensures RW(1) == R
  {
    RWIs(1);
    assert Pow(R, 1) == R * Pow(R, 0);
  }

  lemma RWAdd(i: nat, j: nat)
    ensures RW(i + j) == RW(i) * RW(j)
  {
    RWIs(i);
    RWIs(j);
    RWIs(i + j);
    PowAdd(R, i, j);
  }

  ghost predicate MarkedPart(x: int, i: nat) { true }

  ghost predicate IsPart(x: int, i: nat, w: int) {
    forall y, j {:trigger MarkedPart(y, j)} :: MarkedPart(y, j) && y == x && j == i ==> w == x * RW(i)
  }

  /** x * R^i */
  ghost function Part(x: int, i: nat): int {
    assert IsPart(x, i, x * RW(i));
    var w :| IsPart(x, i, w);
    w
  }

  lemma PartIs(x: int, i: nat)
    ensures Part(x, i) == x * RW(i)
  {
    assert MarkedPart(x, i);
  }

  lemma PartZero(i: nat)
    ensures Part(0, i) == 0
  {
    PartIs(0, i);
  }

  lemma PartLow(x: int)
    ensures Part(x, 0) == x
  {
    PartIs(x, 0);
    RWZero();
  }

  lemma PartAdd(x: int, y: int, i: nat)
    ensures Part(x + y, i) == Part(x, i) + Part(y, i)
  {
    PartIs(x, i);
    PartIs(y, i);
    PartIs(x + y, i);
    assert (x + y) * RW(i) == x * RW(i) + y * RW(i);
  }

  lemma PartSub(x: int, y: int, i: nat)
    ensures Part(x - y, i) == Part(x, i) - Part(y, i)
  {
    PartAdd(x - y, y, i);
  }

  lemma PartNest(x: int, i: nat, j: nat)
    ensures Part(Part(x, i), j) == Part(x, i + j)
  {
    PartIs(x, i);
    PartIs(Part(x, i), j);
    PartIs(x, i + j);
    RWAdd(i, j);
    assert (x * RW(i)) * RW(j) == x * (RW(i) * RW(j));
  }

  lemma PartMono(x: int, y: int, i: nat)
    requires x <= y
    ensures Part(x, i) <= Part(y, i)
  {
    PartIs(x, i);
    PartIs(y, i);
    MulMono(x, y, RW(i));
  }

  function Lo(x: int): (r: int)
    ensures 0 <= r < R
  {
    x % R
  }

  function Hi(x: int): int { x / R }

  /** What leaves entry i as a carry arrives at entry i+1. */
  lemma PartCarry(x: int, i: nat)
    ensures Part(x, i) == Part(Lo(x), i) + Part(Hi(x), i + 1)
  {
    PartIs(Hi(x), i + 1);
    PartIs(Hi(x) * R, i);
    RWAdd(1, i);
    RWOne();
    var h, w := Hi(x), RW(i);
    assert h * (R * w) == (h * R) * w;
    assert x == Lo(x) + h * R;
    PartAdd(Lo(x), h * R, i);
  }

  // ---------- segments ----------

  ghost function SegTo(s: seq<int>, p: nat, n: nat): int
    requires p + n <= |s|
  {
    if n == 0 then 0 else SegTo(s, p, n - 1) + Part(s[p + n - 1], n - 1)
  }

  ghost predicate MarkedSeg(s: seq<int>, p: nat, n: nat) { true }

  ghost predicate IsSeg(s: seq<int>, p: nat, n: nat, v: int)
    requires p + n <= |s|
  {
    forall t, q, m {:trigger MarkedSeg(t, q, m)} :: MarkedSeg(t, q, m) && t == s && q == p && m == n ==> v == SegTo(s, p, n)
  }

  /** The integer held by n entries from position p on. */
  ghost function Seg(s: seq<int>, p: nat, n: nat): int
    requires p + n <= |s|
  {
    assert IsSeg(s, p, n, SegTo(s, p, n));
    var v :| IsSeg(s, p, n, v);
    v
  }

  lemma SegIs(s: seq<int>, p: nat, n: nat)
    requires p + n <= |s|
    ensures Seg(s, p, n) == SegTo(s, p, n)
  {
    assert MarkedSeg(s, p, n);
  }

  lemma SegEmpty(s: seq<int>, p: nat)
    requires p <= |s|
    ensures Seg(s, p, 0) == 0
  {
    SegIs(s, p, 0);
  }

  lemma SegNext(s: seq<int>, p: nat, n: nat)
    requires p + n < |s|
    ensures Seg(s, p, n + 1) == Seg(s, p, n) + Part(s[p + n], n)
  {
    SegIs(s, p, n);
    SegIs(s, p, n + 1);
  }

  ghost predicate Agree(s: seq<int>, p: nat, t: seq<int>, q: nat, n: nat)
    requires p + n <= |s| && q + n <= |t|
  {
    forall i :: p <= i < p + n ==> s[i] == t[i - p + q]
  }

  lemma {:induction false} SegFrame(s: seq<int>, p: nat, t: seq<int>, q: nat, n: nat)
    requires p + n <= |s| && q + n <= |t| && Agree(s, p, t, q, n)
    ensures Seg(s, p, n) == Seg(t, q, n)
  {
    if n == 0 {
      SegEmpty(s, p);
      SegEmpty(t, q);
    } else {
      SegFrame(s, p, t, q, n - 1);
      SegNext(s, p, n - 1);
      SegNext(t, q, n - 1);
    }
  }

  lemma {:induction false} SegSplit(s: seq<int>, p: nat, m: nat, n: nat)
    requires p + m + n <= |s|
    ensures Seg(s, p, m + n) == Seg(s, p, m) + Part(Seg(s, p + m, n), m)
    decreases n
  {
    if n == 0 {
      SegEmpty(s, p + m);
      PartZero(m);
    } else {
      SegSplit(s, p, m, n - 1);
      SegNext(s, p, m + n - 1);
      SegNext(s, p + m, n - 1);
      var x := s[p + m + n - 1];
      PartAdd(Seg(s, p + m, n - 1), Part(x, n - 1), m);
      PartNest(x, n - 1, m);
    }
  }

  lemma SegOne(s: seq<int>, p: nat)
    requires p < |s|
    ensures Seg(s, p, 1) == s[p]
  {
    SegEmpty(s, p);
    SegNext(s, p, 0);
    PartLow(s[p]);
  }

  lemma {:induction false} SegZero(s: seq<int>, p: nat, n: nat)
    requires p + n <= |s| && forall i :: p <= i < p + n ==> s[i] == 0
    ensures Seg(s, p, n) == 0
  {
    if n == 0 {
      SegEmpty(s, p);
    } else {
      SegZero(s, p, n - 1);
      SegNext(s, p, n - 1);
      PartZero(n - 1);
    }
  }

  lemma {:induction false} SegUpdate(s: seq<int>, p: nat, n: nat, k: nat, v: int)
    requires p + n <= |s| && p <= k < p + n
    ensures Seg(s[k := v], p, n) == Seg(s, p, n) + Part(v - s[k], k - p)
  {
    SegNext(s, p, n - 1);
    SegNext(s[k := v], p, n - 1);
    if k == p + n - 1 {
      assert Agree(s, p, s[k := v], p, n - 1);
      SegFrame(s, p, s[k := v], p, n - 1);
      PartSub(v, s[k], n - 1);
    } else {
      SegUpdate(s, p, n - 1, k, v);
    }
  }

  /** Every entry of the segment is a digit. */
  ghost predicate Digits(s: seq<int>, p: nat, n: nat)
    requires p + n <= |s|
  {
    forall i :: p <= i < p + n ==> 0 <= s[i] < R
  }

  /** Digits are positional: the segment is a number below R^n. */
  lemma {:induction false} DigitsBound(s: seq<int>, p: nat, n: nat)
    requires p + n <= |s| && Digits(s, p, n)
    ensures 0 <= Seg(s, p, n) < RW(n)
  {
    if n == 0 {
      SegEmpty(s, p);
      RWZero();
    } else {
      DigitsBound(s, p, n - 1);
      SegNext(s, p, n - 1);
      var x := s[p + (n - 1)];
      assert 0 <= x < R;
      PartMono(0, x, n - 1);
      PartZero(n - 1);
      PartMono(x + 1, R, n - 1);
      PartAdd(x, 1, n - 1);
      PartIs(1, n - 1);
      PartIs(R, n - 1);
      RWAdd(1, n - 1);
      RWOne();
    }
  }

  /** A number in [0, R^n) whose lower entries are digits has a digit on top as well. */
  lemma DigitsTop(s: seq<int>, p: nat, n: nat)
    requires 0 < n && p + n <= |s| && Digits(s, p, n - 1) && 0 <= Seg(s, p, n) < RW(n)
    ensures Digits(s, p, n)
  {
    var x := s[p + n - 1];
    DigitsBound(s, p, n - 1);
    SegNext(s, p, n - 1);
    RWAdd(1, n - 1);
    RWOne();
    PartIs(R, n - 1);
    PartIs(-1, n - 1);
    if x >= R { PartMono(R, x, n - 1); }
    if x < 0 { PartMono(x, -1, n - 1); }
  }

  // ---------- entry-wise operations ----------

  /** Segments that do not overlap. */
  ghost predicate Apart(a: array<int>, p: nat, m: nat, b: array<int>, q: nat, n: nat) {
    a != b || p + m <= q || q + n <= p
  }

  /** Nothing outside n entries from p on has changed. */
  ghost predicate Kept(s: seq<int>, t: seq<int>, p: nat, n: nat) {
    |s| == |t| && forall i :: 0 <= i < |s| && !(p <= i < p + n) ==> t[i] == s[i]
  }

  lemma {:induction false} SegSum(s: seq<int>, p: nat, t: seq<int>, q: nat, u: seq<int>, r: nat, n: nat, c: int)
    requires p + n <= |s| && q + n <= |t| && r + n <= |u| && (c == 1 || c == -1)
    requires forall i :: r <= i < r + n ==> u[i] == s[i - r + p] + c * t[i - r + q]
    ensures Seg(u, r, n) == Seg(s, p, n) + c * Seg(t, q, n)
  {
    if n == 0 {
      SegEmpty(s, p);
      SegEmpty(t, q);
      SegEmpty(u, r);
    } else {
      SegSum(s, p, t, q, u, r, n - 1, c);
      SegNext(s, p, n - 1);
      SegNext(t, q, n - 1);
      SegNext(u, r, n - 1);
      var x, y := s[p + (n - 1)], t[q + (n - 1)];
      assert u[r + (n - 1)] == x + c * y;
      PartAdd(x, y, n - 1);
      PartSub(x, y, n - 1);
    }
  }

  /** FF_radd: z = x + y, without normalisation. */
  method Radd(z: array<int>, zp: nat, x: array<int>, xp: nat, y: array<int>, yp: nat, n: nat)
    requires zp + n <= z.Length && xp + n <= x.Length && yp + n <= y.Length
    requires Apart(z, zp, n, x, xp, n) && Apart(z, zp, n, y, yp, n)
    modifies z
    ensures Kept(old(z[..]), z[..], zp, n)
    ensures Seg(z[..], zp, n) == old(Seg(x[..], xp, n)) + old(Seg(y[..], yp, n))
  {
    ghost var xs, ys := x[..], y[..];
    var i := 0;
    while i < n
      invariant 0 <= i <= n
      invariant Kept(old(z[..]), z[..], zp, i)
      invariant forall j :: zp <= j < zp + i ==> z[j] == xs[j - zp + xp] + ys[j - zp + yp]
    {
      assert x[xp + i] == xs[xp + i] && y[yp + i] == ys[yp + i];
      z[zp + i] := x[xp + i] + y[yp + i];
      i := i + 1;
    }
    SegSum(xs, xp, ys, yp, z[..], zp, n, 1);
  }

  /** FF_rinc and FF_rdec: z += c*y for a sign c. */
  method Rinc(z: array<int>, zp: nat, y: array<int>, yp: nat, n: nat, c: int)
    requires zp + n <= z.Length && yp + n <= y.Length && Apart(z, zp, n, y, yp, n) && (c == 1 || c == -1)
    modifies z
    ensures Kept(old(z[..]), z[..], zp, n)
    ensures Seg(z[..], zp, n) == old(Seg(z[..], zp, n)) + c * old(Seg(y[..], yp, n))
  {
    ghost var zs, ys := z[..], y[..];
    var i := 0;
    while i < n
      invariant 0 <= i <= n
      invariant Kept(zs, z[..], zp, i)
      invariant forall j :: zp <= j < zp + i ==> z[j] == zs[j] + c * ys[j - zp + yp]
    {
      assert z[zp + i] == zs[zp + i] && y[yp + i] == ys[yp + i];
      z[zp + i] := z[zp + i] + c * y[yp + i];
      i := i + 1;
    }
    SegSum(zs, zp, ys, yp, z[..], zp, n, c);
  }

  /** FF_copy */
  method Copy(z: array<int>, zp: nat, x: array<int>, xp: nat, n: nat)
    requires zp + n <= z.Length && xp + n <= x.Length && Apart(z, zp, n, x, xp, n)
    modifies z
    ensures Kept(old(z[..]), z[..], zp, n) && Agree(z[..], zp, old(x[..]), xp, n)
    ensures Seg(z[..], zp, n) == old(Seg(x[..], xp, n))
  {
    ghost var xs := x[..];
    var i := 0;
    while i < n
      invariant 0 <= i <= n
      invariant Kept(old(z[..]), z[..], zp, i)
      invariant forall j :: zp <= j < zp + i ==> z[j] == xs[j - zp + xp]
    {
      assert x[xp + i] == xs[xp + i];
      z[zp + i] := x[xp + i];
      i := i + 1;
    }
    SegFrame(z[..], zp, xs, xp, n);
  }

  /** FF_rnorm, carrying: the value is kept and only the last entry can be more than a digit. */
  method Rnorm(z: array<int>, zp: nat, n: nat)
    requires 0 < n && zp + n <= z.Length
    modifies z
    ensures Kept(old(z[..]), z[..], zp, n)
    ensures Digits(z[..], zp, n - 1)
    ensures Seg(z[..], zp, n) == old(Seg(z[..], zp, n))
  {
    var i := 0;
    while i < n - 1
      invariant 0 <= i <= n - 1
      invariant Kept(old(z[..]), z[..], zp, n)
      invariant forall j :: zp <= j < zp + i ==> 0 <= z[j] < R
      invariant Seg(z[..], zp, n) == old(Seg(z[..], zp, n))
    {
      ghost var s := z[..];
      var x, y := z[zp + i], z[zp + i + 1];
      z[zp + i] := Lo(x);
      z[zp + i + 1] := y + Hi(x);
      assert z[..] == s[zp + i := Lo(x)][zp + i + 1 := y + Hi(x)];
      SegUpdate(s, zp, n, zp + i, Lo(x));
      SegUpdate(s[zp + i := Lo(x)], zp, n, zp + i + 1, y + Hi(x));
      PartCarry(x, i);
      PartSub(Lo(x), x, i);
      i := i + 1;
    }
  }

  /** FF_rnorm, truncating: every entry is a digit, and k times R^n is dropped. */
  method RnormTruncate(z: array<int>, zp: nat, n: nat) returns (ghost k: int)
    requires 0 < n && zp + n <= z.Length
    modifies z
    ensures Kept(old(z[..]), z[..], zp, n)
    ensures Digits(z[..], zp, n)
    ensures Seg(z[..], zp, n) + Part(k, n) == old(Seg(z[..], zp, n))
  {
    Rnorm(z, zp, n);
    ghost var s := z[..];
    var x := z[zp + n - 1];
    z[zp + n - 1] := Lo(x);
    assert z[..] == s[zp + n - 1 := Lo(x)];
    SegUpdate(s, zp, n, zp + n - 1, Lo(x));
    PartCarry(x, n - 1);
    PartSub(Lo(x), x, n - 1);
    k := Hi(x);
  }

  /** Two numbers below R^n that differ by a multiple of R^n are equal. */
  lemma PartSmall(a: int, b: int, k: int, n: nat)
    requires 0 <= a < RW(n) && 0 <= b < RW(n) && a + Part(k, n) == b
    ensures a == b
  {
    PartIs(k, n);
    if k >= 1 { MulMono(1, k, RW(n)); }
    if k <= -1 { MulMono(k, -1, RW(n)); }
  }

  lemma PartCong(a: int, b: int, k: int, n: nat)
    requires a + Part(k, n) == b
    ensures Cong(a, b, RW(n))
  {
    PartIs(k, n);
    CongIntro(a, b, -k, RW(n));
  }
}
