/**
 * Shifts by any number of bits (big.c, BIG_shl, BIG_shr and their double-length forms): m whole limbs, and fewer than 29 bits
 * more.
 */
module BigShift {
  import opened Arith
  import opened Limbs
  import opened BigDiv
  import Words

  /** The limbs from m on are a number of their own. */
  lemma {:induction false} ValueFrom(s: seq<int>, m: nat, j: nat)
    requires m + j <= |s|
    ensures ValueTo(s, m + j) == ValueTo(s, m) + Term(ValueTo(s[m..], j), m)
    decreases j
  {
    if j == 0 {
      TermZero(m);
    } else {
      ValueFrom(s, m, j - 1);
      TermAdd(ValueTo(s[m..], j - 1), Term(s[m + j - 1], j - 1), m);
      TermNest(s[m + j - 1], j - 1, m, m + j - 1);
    }
  }

  /** Dropping m limbs divides by their weight. */
  lemma Dropped(s: seq<int>, m: nat)
    requires m < |s| && Normed(s)
    ensures Value(s) / W(m) == Value(s[m..])
  {
    var u := s[m..];
    ValueFrom(s, m, |u|);
    SplitTop(s, m, Value(u));
  }

  /** Zeros above do not count. */
  lemma {:induction false} ZerosAbove(s: seq<int>, n: nat, k: nat)
    requires n <= k <= |s| && forall i :: n <= i < |s| ==> s[i] == 0
    ensures ValueTo(s, k) == ValueTo(s, n)
    decreases k
  {
    if k > n {
      ZerosAbove(s, n, k - 1);
      TermZero(k - 1);
    }
  }

  // ---------- to the right ----------

  lemma DownValue(s: seq<int>, t: seq<int>, m: nat, p: int, q: int, u: seq<int>, v: seq<int>)
    requires m < |s| == |t| && Normed(s) && ShiftPair(p, q) && u == s[m..] && v == t[..|u|]
    requires ShiftedRight(u, v, p, q, |u|) && forall i :: |u| <= i < |t| ==> t[i] == 0
    ensures Value(t) == Value(s) / (p * W(m))
  {
    Dropped(s, m);
    ShiftedRightWhole(u, v, p, q);
    ZerosAbove(t, |u|, |t|);
    ValuePrefix(t, |u|);
    DivTwice(Value(s), W(m), p);
  }

  lemma LimbReduced(x: int, y: int, p: int, q: int)
    requires ShiftPair(p, q) && 0 <= x < 0x2000_0000
    ensures 0 <= x / p + Prod(y % p, q) < 0x2000_0000 && 0 <= x / p < 0x2000_0000
  {
    LimbShiftDown(x, y % p, p, q);
    MulMono(1, p, q);
  }

  lemma DownReduced(t: seq<int>, p: int, q: int, u: seq<int>, v: seq<int>)
    requires |u| <= |t| && Reduced(u) && ShiftPair(p, q) && v == t[..|u|]
    requires ShiftedRight(u, v, p, q, |u|) && forall i :: |u| <= i < |t| ==> t[i] == 0
    ensures Reduced(t)
  {
    forall i | 0 <= i < |u| ensures 0 <= v[i] < 0x2000_0000 {
      assert v[i] == u[i] / p + FromAbove(u, i, p, q);
      LimbReduced(u[i], if i == |u| - 1 then 0 else u[i + 1], p, q);
    }
    forall i | 0 <= i < |t| ensures 0 <= t[i] < 0x2000_0000 {
      if i < |u| { assert t[i] == v[i]; }
    }
  }

  /** Zeros from lo up to hi. */
  method Clear(a: array<int>, lo: nat, hi: nat)
    requires lo <= hi <= a.Length
    modifies a
    ensures forall j :: lo <= j < hi ==> a[j] == 0
    ensures forall j :: 0 <= j < a.Length && !(lo <= j < hi) ==> a[j] == old(a[j])
  {
    var i := lo;
    while i < hi
      invariant lo <= i <= hi && forall j :: lo <= j < i ==> a[j] == 0
      invariant forall j :: 0 <= j < a.Length && !(lo <= j < i) ==> a[j] == old(a[j])
    {
      a[i] := 0;
      i := i + 1;
    }
  }

  /** The limbs from m on, shifted, at the bottom. */
  method ShrLimbs(a: array<int>, m: nat, p: int, q: int, ghost k: nat)
    requires m < a.Length && Normed(a[..]) && ShiftPair(p, q) && q == Pow(2, k)
    modifies a
    ensures ShiftedRight(old(a[m..]), a[..a.Length - m], p, q, a.Length - m)
  {
    ghost var u := a[m..];
    var n := a.Length - m;
    var i := 0;
    while i < n - 1
      invariant 0 <= i <= n - 1
      invariant forall j :: i <= j < n ==> a[m + j] == u[j]
      invariant ShiftedRight(u, a[..n], p, q, i)
    {
      var r := ShrLimb(a[m + i], a[m + i + 1], p, q, k);
      assert r == u[i] / p + FromAbove(u, i, p, q);
      a[i] := r;
      i := i + 1;
    }
    a[n - 1] := a[m + n - 1] / p;
  }

  /** BIG_shr and BIG_dshr by 29*m bits and those of the divisor p, where q is 2^k and p*q is 2^29: division, rounding
      down. */
  method BigShrBy(a: array<int>, m: nat, p: int, q: int, ghost k: nat)
    requires m < a.Length && Normed(a[..]) && ShiftPair(p, q) && q == Pow(2, k)
    modifies a
    ensures Value(a[..]) == old(Value(a[..])) / (p * W(m))
    ensures old(Reduced(a[..])) ==> Reduced(a[..])
  {
    ghost var s := a[..];
    ghost var u := a[m..];
    var n := a.Length - m;
    ShrLimbs(a, m, p, q, k);
    ghost var v := a[..n];
    Clear(a, n, a.Length);
    assert a[..][..n] == v;
    DownValue(s, a[..], m, p, q, u, v);
    if Reduced(s) { DownReduced(a[..], p, q, u, v); }
  }

  lemma DivTwice(v: int, w: int, p: int)
    requires w > 0 && p > 0
    ensures p * w > 0 && (v / w) / p == v / (p * w)
  {
    var h := v / w;
    MulMono(1, p, w);
    var r := v % w + w * (h % p);
    assert h == (h / p) * p + h % p;
    assert v == (h / p) * (p * w) + r by {
      assert h * w == ((h / p) * p + h % p) * w;
      assert ((h / p) * p + h % p) * w == (h / p) * (p * w) + w * (h % p);
    }
    MulMono(h % p, p - 1, w);
    assert (p - 1) * w == p * w - w;
    MulMono(0, h % p, w);
    DivModUnique(v, p * w, h / p, r);
  }

  // ---------- to the left ----------

  /** Zeros below m multiply by their weight. */
  lemma ZerosBelow(t: seq<int>, m: nat)
    requires m <= |t| && forall i :: 0 <= i < m ==> t[i] == 0
    ensures Value(t) == Value(t[m..]) * W(m)
  {
    ValueFrom(t, m, |t| - m);
    ValueToZero(t, m);
    TermIs(Value(t[m..]), m);
  }

  lemma UpValue(s: seq<int>, t: seq<int>, m: nat, p: int, q: int, u: seq<int>, v: seq<int>)
    requires m < |s| == |t| && Normed(s) && ShiftPair(p, q) && u == s[..|s| - m] && v == t[m..]
    requires ShiftedLeft(u, v, p, q, 0) && forall i :: 0 <= i < m ==> t[i] == 0
    ensures Value(t) == p * ValueTo(s, |s| - m) * W(m)
  {
    ZerosBelow(t, m);
    ShiftedLeftValue(u, v, p, q, |u|);
    ValuePrefix(s, |s| - m);
  }

  /** BIG_shl by 29*m bits and those of p = 2^k, where q is 2^(29-k): the upper limbs are lost; the new top limb keeps its
      overflow, except that it is cut to a limb when only one is left. */
  method BigShlBy(a: array<int>, m: nat, p: int, q: int, ghost k: nat)
    requires m < a.Length && a.Length > 1 && Normed(a[..]) && ShiftPair(p, q) && p == Pow(2, k)
    requires var top := a[a.Length - 1 - m]; top >= 0 && Chunk(Prod(p, top) + p - 1)
    modifies a
    ensures m + 1 < a.Length ==> Value(a[..]) == p * old(ValueTo(a[..], a.Length - m)) * W(m)
    ensures m + 1 == a.Length ==> Value(a[..]) == Prod(p, old(a[0])) % 0x2000_0000 * W(m)
  {
    ghost var s := a[..];
    ghost var u := s[..a.Length - m];
    ShlLimbs(a, m, p, q, k);
    ghost var v := a[m..];
    Clear(a, 0, m);
    assert a[..][m..] == v;
    if m + 1 < a.Length {
      UpValue(s, a[..], m, p, q, u, v);
    } else {
      ZerosBelow(a[..], m);
      OneLimb(v);
    }
  }

  /** The lower limbs, shifted, at the top. */
  method ShlLimbs(a: array<int>, m: nat, p: int, q: int, ghost k: nat)
    requires m < a.Length && a.Length > 1 && Normed(a[..]) && ShiftPair(p, q) && p == Pow(2, k)
    requires var top := a[a.Length - 1 - m]; top >= 0 && Chunk(Prod(p, top) + p - 1)
    modifies a
    ensures m + 1 < a.Length ==> ShiftedLeft(old(a[..a.Length - m]), a[m..], p, q, 0)
    ensures m + 1 == a.Length ==> a[m] == Prod(p, old(a[0])) % 0x2000_0000
  {
    ghost var s := a[..];
    ghost var u := a[..a.Length - m];
    ShlTop(a, m, p, q, k);
    ShlMiddle(a, m, p, q, k, s);
    ProdIs(p, a[0]);
    a[m] := p * a[0] % 0x2000_0000;
    if m + 1 < a.Length { AllShifted(u, a[m..], p, q); }
  }

  lemma AllShifted(u: seq<int>, v: seq<int>, p: int, q: int)
    requires 1 < |u| == |v| && q > 0 && v[0] == Prod(p, u[0]) % 0x2000_0000
    requires v[|u| - 1] == Prod(p, u[|u| - 1]) + u[|u| - 2] / q
    requires forall j :: 0 < j < |u| - 1 ==> v[j] == Prod(p, u[j]) % 0x2000_0000 + u[j - 1] / q
    ensures ShiftedLeft(u, v, p, q, 0)
  {
  }

  lemma OneLimb(v: seq<int>)
    requires |v| == 1
    ensures Value(v) == v[0]
  {
    TermLow(v[0]);
    assert ValueTo(v, 1) == ValueTo(v, 0) + Term(v[0], 0);
  }

  /** The top limb, with the bits that move up from the one below it. */
  method ShlTop(a: array<int>, m: nat, p: int, q: int, ghost k: nat)
    requires m < a.Length && a.Length > 1 && Normed(a[..]) && ShiftPair(p, q) && p == Pow(2, k)
    requires var top := a[a.Length - 1 - m]; top >= 0 && Chunk(Prod(p, top) + p - 1)
    modifies a
    ensures forall j :: 0 <= j < a.Length - 1 ==> a[j] == old(a[j])
    ensures a[a.Length - 1] == Prod(p, old(a[a.Length - 1 - m])) + if a.Length >= m + 2 then old(a[a.Length - m - 2]) / q else 0
  {
    var n := a.Length;
    var x := a[n - 1 - m];
    ProdIs(p, x);
    MulMono(0, x, p);
    DivModUnique(p * x, p, x, 0);
    if n >= m + 2 {
      var y := a[n - m - 2];
      LimbShift(y, p, q);
      a[n - 1] := Words.Join(C32(p * x), y / q, k);
    } else {
      a[n - 1] := C32(p * x);
    }
  }

  method ShlLimb(x: int, y: int, p: int, q: int, ghost k: nat) returns (r: int)
    requires ShiftPair(p, q) && p == Pow(2, k) && 0 <= x < 0x2000_0000 && 0 <= y < 0x2000_0000
    ensures r == Prod(p, x) % 0x2000_0000 + y / q
  {
    ProdIs(p, x);
    LimbShift(x, p, q);
    LimbShift(y, p, q);
    assert x * p == p * x;
    r := Words.Join(p * x % 0x2000_0000, y / q, k);
  }

  method ShlMiddle(a: array<int>, m: nat, p: int, q: int, ghost k: nat, ghost s: seq<int>)
    requires m < a.Length == |s| && a.Length > 1 && Normed(s) && ShiftPair(p, q) && p == Pow(2, k)
    requires forall j :: 0 <= j < a.Length - 1 ==> a[j] == s[j]
    modifies a
    ensures a[a.Length - 1] == old(a[a.Length - 1]) && a[0] == s[0]
    ensures forall j :: 0 < j < a.Length - 1 - m ==> a[m + j] == Prod(p, s[j]) % 0x2000_0000 + s[j - 1] / q
  {
    var i := a.Length - 2 - m;
    while i > 0
      invariant i <= a.Length - 2 - m && (0 <= i || m + 1 == a.Length)
      invariant forall j :: 0 <= j <= m + i && j < a.Length - 1 ==> a[j] == s[j]
      invariant a[a.Length - 1] == old(a[a.Length - 1]) && a[0] == s[0]
      invariant forall j :: i < j < a.Length - 1 - m && 0 < j ==> a[m + j] == Prod(p, s[j]) % 0x2000_0000 + s[j - 1] / q
    {
      a[m + i] := ShlLimb(a[i], a[i - 1], p, q, k);
      i := i - 1;
    }
  }
}
