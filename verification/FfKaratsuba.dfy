/**
 * Karatsuba multiplication of BIG arrays in shared workspace (ff.c): the full product, the square, the
 * low half, and the full product rebuilt from its low half.
 */
module FfKaratsuba {
  import opened Arith
  import opened FfValue

  predicate PowerOfTwo(n: nat) {
    n == 1 || (n > 1 && n % 2 == 0 && PowerOfTwo(n / 2))
  }

  lemma {:induction false} PowersOfTwo(i: nat, n: nat)
    requires PowerOfTwo(i) && PowerOfTwo(n) && i < n
    ensures 2 * i <= n
  {
    if i > 1 { PowersOfTwo(i / 2, n / 2); }
  }

  /** Writing is confined to zn entries of z from zp on and tn entries of t from tp on; z and t may be
      the same array. */
  ghost predicate Confined(z: seq<int>, z': seq<int>, t: seq<int>, t': seq<int>, same: bool,
                           zp: nat, zn: nat, tp: nat, tn: nat)
  {
    && |z| == |z'| && |t| == |t'|
    && (forall i :: 0 <= i < |z| && !(zp <= i < zp + zn) && !(same && tp <= i < tp + tn) ==> z'[i] == z[i])
    && (forall i :: 0 <= i < |t| && !(tp <= i < tp + tn) && !(same && zp <= i < zp + zn) ==> t'[i] == t[i])
  }

  /** An input segment, clear of the segments that are written. */
  ghost predicate Input(x: array<int>, xp: nat, n: nat, z: array<int>, zp: nat, zn: nat, t: array<int>, tp: nat, tn: nat) {
    xp + n <= x.Length && Apart(x, xp, n, z, zp, zn) && Apart(x, xp, n, t, tp, tn)
  }

  ghost predicate Output(z: array<int>, zp: nat, zn: nat, t: array<int>, tp: nat, tn: nat) {
    zp + zn <= z.Length && tp + tn <= t.Length && Apart(z, zp, zn, t, tp, tn)
  }

  /** Writing that is confined to z and t leaves both halves of an input alone. */
  lemma InputKept(x: array<int>, z: array<int>, t: array<int>, xs: seq<int>, xs': seq<int>,
                  zs: seq<int>, zs': seq<int>, ts: seq<int>, ts': seq<int>,
                  xp: nat, h: nat, zp: nat, zn: nat, tp: nat, tn: nat)
    requires Confined(zs, zs', ts, ts', z == t, zp, zn, tp, tn) && Input(x, xp, 2 * h, z, zp, zn, t, tp, tn)
    requires |xs| == |xs'| == x.Length
    requires (x == z ==> xs == zs && xs' == zs') && (x == t ==> xs == ts && xs' == ts')
    requires x != z && x != t ==> xs == xs'
    ensures Seg(xs', xp, h) == Seg(xs, xp, h) && Seg(xs', xp + h, h) == Seg(xs, xp + h, h)
  {
    assert Agree(xs, xp, xs', xp, 2 * h);
    SegFrame(xs, xp, xs', xp, h);
    SegFrame(xs, xp + h, xs', xp + h, h);
  }

  // ---------- the identity behind it ----------

  lemma Expand(a: int, b: int, c: int, d: int)
    ensures Prod(a + b, c + d) == Prod(a, c) + Prod(a, d) + Prod(b, c) + Prod(b, d)
  {
    ProdIs(a, c);
    ProdIs(a, d);
    ProdIs(b, c);
    ProdIs(b, d);
    ProdIs(a + b, c + d);
  }

  lemma ProdPart(x: int, y: int, h: nat)
    ensures Prod(x, Part(y, h)) == Part(Prod(x, y), h) == Prod(Part(x, h), y)
  {
    var b := RW(h);
    PartIs(x, h);
    PartIs(y, h);
    PartIs(Prod(x, y), h);
    ProdIs(x, y);
    ProdIs(x, y * b);
    ProdIs(x * b, y);
    assert x * (y * b) == (x * y) * b;
    assert (x * b) * y == (x * y) * b;
  }

  /** x*y from the products of the halves of x and y, sorted by weight. */
  lemma SchoolParts(x: int, y: int, x0: int, x1: int, y0: int, y1: int, h: nat)
    requires x == x0 + Part(x1, h) && y == y0 + Part(y1, h)
    ensures Prod(x, y) == Prod(x0, y0) + Part(Prod(x1, y0) + Prod(x0, y1), h) + Part(Prod(x1, y1), h + h)
  {
    Expand(x0, Part(x1, h), y0, Part(y1, h));
    ProdPart(x0, y1, h);
    ProdPart(x1, y0, h);
    ProdPart(Part(x1, h), y1, h);
    ProdPart(x1, y1, h);
    PartNest(Prod(x1, y1), h, h);
    PartAdd(Prod(x1, y0), Prod(x0, y1), h);
  }

  /** The same with the middle products replaced by one product of sums. */
  lemma KaratsubaParts(x: int, y: int, x0: int, x1: int, y0: int, y1: int, h: nat)
    requires x == x0 + Part(x1, h) && y == y0 + Part(y1, h)
    ensures Prod(x, y)
         == Prod(x0, y0) + Part(Prod(x0 + x1, y0 + y1) - Prod(x0, y0) - Prod(x1, y1), h) + Part(Prod(x1, y1), h + h)
  {
    SchoolParts(x, y, x0, x1, y0, y1, h);
    Expand(x0, x1, y0, y1);
  }

  // ---------- FF_karmul ----------

  /** FF_radd of the two halves of x, normalised. */
  method FoldHalves(z: array<int>, zp: nat, x: array<int>, xp: nat, h: nat)
    requires 0 < h && zp + h <= z.Length && xp + h + h <= x.Length
    requires Apart(z, zp, h, x, xp, h + h)
    modifies z
    ensures Kept(old(z[..]), z[..], zp, h)
    ensures Seg(z[..], zp, h) == old(Seg(x[..], xp, h)) + old(Seg(x[..], xp + h, h))
  {
    Radd(z, zp, x, xp, x, xp + h, h);
    Rnorm(z, zp, h);
  }

  /** t = (x0 + x1)*(y0 + y1), with the sums kept in z meanwhile. */
  method MiddleProduct(z: array<int>, zp: nat, x: array<int>, xp: nat, y: array<int>, yp: nat, t: array<int>, tp: nat, h: nat)
    requires PowerOfTwo(h) && Output(z, zp, 2 * h, t, tp, 4 * h)
    requires Input(x, xp, 2 * h, z, zp, 2 * h, t, tp, 4 * h) && Input(y, yp, 2 * h, z, zp, 2 * h, t, tp, 4 * h)
    modifies z, t
    ensures Confined(old(z[..]), z[..], old(t[..]), t[..], z == t, zp, 2 * h, tp, 4 * h)
    ensures Seg(t[..], tp, 2 * h) == Prod(old(Seg(x[..], xp, h)) + old(Seg(x[..], xp + h, h)),
                                         old(Seg(y[..], yp, h)) + old(Seg(y[..], yp + h, h)))
    decreases h, 1
  {
    ghost var ys := y[..];
    FoldHalves(z, zp, x, xp, h);
    ghost var s := z[..];
    SegFrame(ys, yp, y[..], yp, h);
    SegFrame(ys, yp + h, y[..], yp + h, h);
    FoldHalves(z, zp + h, y, yp, h);
    SegFrame(s, zp, z[..], zp, h);
    Karmul(t, tp, z, zp, z, zp + h, t, tp + 2 * h, h);
  }

  /** z = x0*y0 and, above it, x1*y1. */
  method OuterProducts(z: array<int>, zp: nat, x: array<int>, xp: nat, y: array<int>, yp: nat, t: array<int>, tp: nat, h: nat)
    requires PowerOfTwo(h) && Output(z, zp, 4 * h, t, tp, 2 * h)
    requires Input(x, xp, 2 * h, z, zp, 4 * h, t, tp, 2 * h) && Input(y, yp, 2 * h, z, zp, 4 * h, t, tp, 2 * h)
    modifies z, t
    ensures Confined(old(z[..]), z[..], old(t[..]), t[..], z == t, zp, 4 * h, tp, 2 * h)
    ensures Seg(z[..], zp, 2 * h) == Prod(old(Seg(x[..], xp, h)), old(Seg(y[..], yp, h)))
    ensures Seg(z[..], zp + 2 * h, 2 * h) == Prod(old(Seg(x[..], xp + h, h)), old(Seg(y[..], yp + h, h)))
    decreases h, 1
  {
    ghost var xs, ys, zs, ts := x[..], y[..], z[..], t[..];
    Karmul(z, zp, x, xp, y, yp, t, tp, h);
    ghost var s := z[..];
    InputKept(x, z, t, xs, x[..], zs, z[..], ts, t[..], xp, h, zp, 2 * h, tp, 2 * h);
    InputKept(y, z, t, ys, y[..], zs, z[..], ts, t[..], yp, h, zp, 2 * h, tp, 2 * h);
    Karmul(z, zp + 2 * h, x, xp + h, y, yp + h, t, tp, h);
    SegFrame(s, zp, z[..], zp, 2 * h);
  }

  /** The middle term is worked out in t and added into z; the result is normalised. */
  method Combine(z: array<int>, zp: nat, t: array<int>, tp: nat, h: nat)
    requires 0 < h && Output(z, zp, 4 * h, t, tp, 2 * h)
    modifies z, t
    ensures Confined(old(z[..]), z[..], old(t[..]), t[..], z == t, zp, 4 * h, tp, 2 * h)
    ensures Digits(z[..], zp, 4 * h - 1)
    ensures Seg(z[..], zp, 4 * h) == old(Seg(z[..], zp, 2 * h))
      + Part(old(Seg(t[..], tp, 2 * h)) - old(Seg(z[..], zp, 2 * h)) - old(Seg(z[..], zp + 2 * h, 2 * h)), h)
      + Part(old(Seg(z[..], zp + 2 * h, 2 * h)), 2 * h)
  {
    ghost var zs := z[..];
    Rinc(t, tp, z, zp, 2 * h, -1);
    SegFrame(zs, zp + 2 * h, z[..], zp + 2 * h, 2 * h);
    Rinc(t, tp, z, zp + 2 * h, 2 * h, -1);
    assert Agree(zs, zp, z[..], zp, 4 * h);
    SegFrame(zs, zp, z[..], zp, 4 * h);
    AddMiddle(z, zp, t, tp, h);
    SegSplit(zs, zp, 2 * h, 2 * h);
  }

  /** FF_rinc half-way up, then FF_rnorm of the whole. */
  method AddMiddle(z: array<int>, zp: nat, t: array<int>, tp: nat, h: nat)
    requires 0 < h && Output(z, zp, 4 * h, t, tp, 2 * h)
    modifies z
    ensures Kept(old(z[..]), z[..], zp, 4 * h) && Digits(z[..], zp, 4 * h - 1)
    ensures Seg(z[..], zp, 4 * h) == old(Seg(z[..], zp, 4 * h)) + Part(old(Seg(t[..], tp, 2 * h)), h)
  {
    ghost var s, m := z[..], Seg(t[..], tp, 2 * h);
    Rinc(z, zp + h, t, tp, 2 * h, 1);
    MiddleAdded(s, z[..], zp, h, 2 * h, h, m);
    Rnorm(z, zp, 4 * h);
  }

  /** Adding m to the middle of a segment adds m times the weight of its first entry. */
  lemma MiddleAdded(s: seq<int>, s': seq<int>, p: nat, lo: nat, mid: nat, hi: nat, m: int)
    requires p + lo + mid + hi <= |s| && Kept(s, s', p + lo, mid)
    requires Seg(s', p + lo, mid) == Seg(s, p + lo, mid) + m
    ensures Seg(s', p, lo + mid + hi) == Seg(s, p, lo + mid + hi) + Part(m, lo)
  {
    SegFrame(s, p, s', p, lo);
    SegFrame(s, p + lo + mid, s', p + lo + mid, hi);
    SegSplit(s, p, lo, mid);
    SegSplit(s', p, lo, mid);
    SegSplit(s, p, lo + mid, hi);
    SegSplit(s', p, lo + mid, hi);
    PartAdd(Seg(s, p + lo, mid), m, lo);
  }

  /** A single product: BIG_mul leaves a double-length number in two entries of t, BIG_split cuts it. */
  method SplitProduct(z: array<int>, zp: nat, d: int, t: array<int>, tp: nat)
    requires Output(z, zp, 2, t, tp, 2)
    modifies z, t
    ensures Confined(old(z[..]), z[..], old(t[..]), t[..], z == t, zp, 2, tp, 2)
    ensures Digits(z[..], zp, 1) && Seg(z[..], zp, 2) == d
  {
    t[tp], t[tp + 1] := d % BIG_MODULUS, d / BIG_MODULUS;
    z[zp + 1], z[zp] := Hi(d), Lo(d);
    SegSplit(z[..], zp, 1, 1);
    SegOne(z[..], zp);
    SegOne(z[..], zp + 1);
    PartCarry(d, 0);
    PartLow(d);
    PartLow(Lo(d));
  }

  /** 2^(NLEN*BASEBITS): what the limbs of one BIG can hold. */
  const BIG_MODULUS: int := 0x20_0000000000000000_0000000000000000_0000000000000000_0000000000000000

  /** FF_karmul: z = x*y, exactly, whatever the entries; only the output and the workspace are written. */
  method Karmul(z: array<int>, zp: nat, x: array<int>, xp: nat, y: array<int>, yp: nat, t: array<int>, tp: nat, n: nat)
    requires PowerOfTwo(n) && Output(z, zp, 2 * n, t, tp, 2 * n)
    requires Input(x, xp, n, z, zp, 2 * n, t, tp, 2 * n) && Input(y, yp, n, z, zp, 2 * n, t, tp, 2 * n)
    modifies z, t
    ensures Confined(old(z[..]), z[..], old(t[..]), t[..], z == t, zp, 2 * n, tp, 2 * n)
    ensures Digits(z[..], zp, 2 * n - 1)
    ensures Seg(z[..], zp, 2 * n) == Prod(old(Seg(x[..], xp, n)), old(Seg(y[..], yp, n)))
    decreases n, 0
  {
    if n == 1 {
      SegOne(x[..], xp);
      SegOne(y[..], yp);
      ProdIs(x[xp], y[yp]);
      SplitProduct(z, zp, x[xp] * y[yp], t, tp);
    } else {
      var h := n / 2;
      ghost var xs, ys := x[..], y[..];
      ThreeProducts(z, zp, x, xp, y, yp, t, tp, h);
      Combine(z, zp, t, tp, h);
      SegSplit(xs, xp, h, h);
      SegSplit(ys, yp, h, h);
      KaratsubaParts(Seg(xs, xp, n), Seg(ys, yp, n), Seg(xs, xp, h), Seg(xs, xp + h, h), Seg(ys, yp, h), Seg(ys, yp + h, h), h);
    }
  }

  /** The three half-size products: the middle one in t, the outer ones in z. */
  method ThreeProducts(z: array<int>, zp: nat, x: array<int>, xp: nat, y: array<int>, yp: nat, t: array<int>, tp: nat, h: nat)
    requires PowerOfTwo(h) && Output(z, zp, 4 * h, t, tp, 4 * h)
    requires Input(x, xp, 2 * h, z, zp, 4 * h, t, tp, 4 * h) && Input(y, yp, 2 * h, z, zp, 4 * h, t, tp, 4 * h)
    modifies z, t
    ensures Confined(old(z[..]), z[..], old(t[..]), t[..], z == t, zp, 4 * h, tp, 4 * h)
    ensures Seg(t[..], tp, 2 * h) == Prod(old(Seg(x[..], xp, h)) + old(Seg(x[..], xp + h, h)),
                                         old(Seg(y[..], yp, h)) + old(Seg(y[..], yp + h, h)))
    ensures Seg(z[..], zp, 2 * h) == Prod(old(Seg(x[..], xp, h)), old(Seg(y[..], yp, h)))
    ensures Seg(z[..], zp + 2 * h, 2 * h) == Prod(old(Seg(x[..], xp + h, h)), old(Seg(y[..], yp + h, h)))
    decreases h, 2
  {
    ghost var xs, ys, zs, ts := x[..], y[..], z[..], t[..];
    MiddleProduct(z, zp, x, xp, y, yp, t, tp, h);
    ghost var s := t[..];
    InputKept(x, z, t, xs, x[..], zs, z[..], ts, t[..], xp, h, zp, 2 * h, tp, 4 * h);
    InputKept(y, z, t, ys, y[..], zs, z[..], ts, t[..], yp, h, zp, 2 * h, tp, 4 * h);
    OuterProducts(z, zp, x, xp, y, yp, t, tp + 2 * h, h);
    SegFrame(s, tp, t[..], tp, 2 * h);
  }

  // ---------- FF_karsqr ----------

  /** The products of the squaring: x0*x1 in t, the squares in z. */
  method SquareProducts(z: array<int>, zp: nat, x: array<int>, xp: nat, t: array<int>, tp: nat, h: nat)
    requires PowerOfTwo(h) && Output(z, zp, 4 * h, t, tp, 4 * h) && Input(x, xp, 2 * h, z, zp, 4 * h, t, tp, 4 * h)
    modifies z, t
    ensures Confined(old(z[..]), z[..], old(t[..]), t[..], z == t, zp, 4 * h, tp, 4 * h)
    ensures Digits(z[..], zp, h)
    ensures Seg(z[..], zp, 2 * h) == Prod(old(Seg(x[..], xp, h)), old(Seg(x[..], xp, h)))
    ensures Seg(z[..], zp + 2 * h, 2 * h) == Prod(old(Seg(x[..], xp + h, h)), old(Seg(x[..], xp + h, h)))
    ensures Seg(t[..], tp, 2 * h) == Prod(old(Seg(x[..], xp, h)), old(Seg(x[..], xp + h, h)))
    decreases h, 2
  {
    ghost var xs, zs, ts := x[..], z[..], t[..];
    SquareHalves(z, zp, x, xp, t, tp + 2 * h, h);
    ghost var zs', ts' := z[..], t[..];
    InputKept(x, z, t, xs, x[..], zs, zs', ts, ts', xp, h, zp, 4 * h, tp + 2 * h, 2 * h);
    Karmul(t, tp, x, xp, x, xp + h, t, tp + 2 * h, h);
    InputKept(z, t, t, zs', z[..], ts', t[..], ts', t[..], zp, 2 * h, tp, 2 * h, tp + 2 * h, 2 * h);
  }

  method SquareHalves(z: array<int>, zp: nat, x: array<int>, xp: nat, t: array<int>, tp: nat, h: nat)
    requires PowerOfTwo(h) && Output(z, zp, 4 * h, t, tp, 2 * h) && Input(x, xp, 2 * h, z, zp, 4 * h, t, tp, 2 * h)
    modifies z, t
    ensures Confined(old(z[..]), z[..], old(t[..]), t[..], z == t, zp, 4 * h, tp, 2 * h)
    ensures Digits(z[..], zp, h)
    ensures Seg(z[..], zp, 2 * h) == Prod(old(Seg(x[..], xp, h)), old(Seg(x[..], xp, h)))
    ensures Seg(z[..], zp + 2 * h, 2 * h) == Prod(old(Seg(x[..], xp + h, h)), old(Seg(x[..], xp + h, h)))
    decreases h, 1
  {
    ghost var xs, zs, ts := x[..], z[..], t[..];
    Karsqr(z, zp, x, xp, t, tp, h);
    ghost var s := z[..];
    InputKept(x, z, t, xs, x[..], zs, z[..], ts, t[..], xp, h, zp, 2 * h, tp, 2 * h);
    Karsqr(z, zp + 2 * h, x, xp + h, t, tp, h);
    SegFrame(s, zp, z[..], zp, 2 * h);
  }

  lemma SquareParts(x: int, x0: int, x1: int, h: nat)
    requires x == x0 + Part(x1, h)
    ensures Prod(x, x) == Prod(x0, x0) + Part(Prod(x0, x1), h) + Part(Prod(x0, x1), h) + Part(Prod(x1, x1), h + h)
  {
    SchoolParts(x, x, x0, x1, x0, x1, h);
    ProdIs(x0, x1);
    ProdIs(x1, x0);
    PartAdd(Prod(x0, x1), Prod(x0, x1), h);
  }

  /** FF_karsqr: z = x*x, exactly; the low half comes out in digits. */
  method Karsqr(z: array<int>, zp: nat, x: array<int>, xp: nat, t: array<int>, tp: nat, n: nat)
    requires PowerOfTwo(n) && Output(z, zp, 2 * n, t, tp, 2 * n) && Input(x, xp, n, z, zp, 2 * n, t, tp, 2 * n)
    modifies z, t
    ensures Confined(old(z[..]), z[..], old(t[..]), t[..], z == t, zp, 2 * n, tp, 2 * n)
    ensures Digits(z[..], zp, n)
    ensures Seg(z[..], zp, 2 * n) == Prod(old(Seg(x[..], xp, n)), old(Seg(x[..], xp, n)))
    decreases n, 0
  {
    if n == 1 {
      SegOne(x[..], xp);
      ProdIs(x[xp], x[xp]);
      SplitProduct(z, zp, x[xp] * x[xp], t, tp);
    } else {
      var h := n / 2;
      ghost var xs := x[..];
      SquareProducts(z, zp, x, xp, t, tp, h);
      SegSplit(z[..], zp, 2 * h, 2 * h);
      AddTwice(z, zp, t, tp, h);
      SegSplit(xs, xp, h, h);
      SquareParts(Seg(xs, xp, n), Seg(xs, xp, h), Seg(xs, xp + h, h), h);
    }
  }

  /** FF_rinc half-way up, twice, then FF_rnorm of the middle. */
  method AddTwice(z: array<int>, zp: nat, t: array<int>, tp: nat, h: nat)
    requires 0 < h && Output(z, zp, 4 * h, t, tp, 2 * h) && Digits(z[..], zp, h)
    modifies z
    ensures Kept(old(z[..]), z[..], zp, 4 * h) && Digits(z[..], zp, 2 * h)
    ensures Seg(z[..], zp, 4 * h)
         == old(Seg(z[..], zp, 4 * h)) + Part(old(Seg(t[..], tp, 2 * h)), h) + Part(old(Seg(t[..], tp, 2 * h)), h)
  {
    ghost var s, ts, m := z[..], t[..], Seg(t[..], tp, 2 * h);
    Rinc(z, zp + h, t, tp, 2 * h, 1);
    ghost var s1 := z[..];
    MiddleAdded(s, s1, zp, h, 2 * h, h, m);
    SegFrame(ts, tp, t[..], tp, 2 * h);
    Rinc(z, zp + h, t, tp, 2 * h, 1);
    ghost var s2 := z[..];
    MiddleAdded(s1, s2, zp, h, 2 * h, h, m);
    Rnorm(z, zp + h, 2 * h);
    MiddleAdded(s2, z[..], zp, h, 2 * h, h, 0);
    PartZero(h);
  }

  // ---------- FF_karmul_lower ----------

  /** What is dropped above R^h in the upper half is dropped above R^2h in the whole. */
  lemma LowerParts(v: int, lo: int, hi: int, m1: int, m2: int, k1: int, k2: int, k: int, p: int, s: int, h: nat) returns (d: int)
    requires lo + Part(hi, h) == p
    requires v == lo + Part(hi + (m1 - Part(k1, h)) + (m2 - Part(k2, h)) - Part(k, h), h)
    ensures v + Part(d, h + h) == p + Part(m1 + m2, h) + Part(s, h + h)
  {
    d := s + k1 + k2 + k;
    PartNest(k1, h, h);
    PartNest(k2, h, h);
    PartNest(k, h, h);
    PartSub(m1, Part(k1, h), h);
    PartSub(m2, Part(k2, h), h);
    PartAdd(hi, m1 - Part(k1, h), h);
    PartAdd(hi + (m1 - Part(k1, h)), m2 - Part(k2, h), h);
    PartSub(hi + (m1 - Part(k1, h)) + (m2 - Part(k2, h)), Part(k, h), h);
    PartAdd(m1, m2, h);
    PartAdd(s, k1, h + h);
    PartAdd(s + k1, k2, h + h);
    PartAdd(s + k1 + k2, k, h + h);
  }

  /** FF_karmul_lower: z is the low half of x*y and k the part left out.  For n = 1 the result is only
      reduced to what one BIG holds; for n >= 2 it is in digits, so it is x*y modulo R^n. */
  method KarmulLower(z: array<int>, zp: nat, x: array<int>, xp: nat, y: array<int>, yp: nat, t: array<int>, tp: nat, n: nat)
    returns (ghost k: int)
    requires PowerOfTwo(n) && Output(z, zp, n, t, tp, 2 * n)
    requires Input(x, xp, n, z, zp, n, t, tp, 2 * n) && Input(y, yp, n, z, zp, n, t, tp, 2 * n)
    modifies z, t
    ensures Confined(old(z[..]), z[..], old(t[..]), t[..], z == t, zp, n, tp, 2 * n)
    ensures n >= 2 ==> Digits(z[..], zp, n)
    ensures Seg(z[..], zp, n) + Part(k, n) == Prod(old(Seg(x[..], xp, n)), old(Seg(y[..], yp, n)))
    decreases n, 0
  {
    if n == 1 {
      SegOne(x[..], xp);
      SegOne(y[..], yp);
      ProdIs(x[xp], y[yp]);
      var d := x[xp] * y[yp];
      z[zp] := d % BIG_MODULUS;
      SegOne(z[..], zp);
      k := 32 * (d / BIG_MODULUS);
      PartIs(k, 1);
      RWOne();
    } else {
      var h := n / 2;
      ghost var xs, ys := x[..], y[..];
      ghost var x0, x1, y0, y1 := Seg(xs, xp, h), Seg(xs, xp + h, h), Seg(ys, yp, h), Seg(ys, yp + h, h);
      ghost var lo, hi, k1, k2 := LowerProducts(z, zp, x, xp, y, yp, t, tp, h);
      ghost var s := z[..];
      ghost var k3 := RnormTruncate(z, zp + h, h);
      SegFrame(s, zp, z[..], zp, h);
      SegSplit(z[..], zp, h, h);
      SegSplit(xs, xp, h, h);
      SegSplit(ys, yp, h, h);
      SchoolParts(Seg(xs, xp, n), Seg(ys, yp, n), x0, x1, y0, y1, h);
      k := LowerParts(Seg(z[..], zp, n), lo, hi, Prod(x1, y0), Prod(x0, y1), k1, k2, k3, Prod(x0, y0), Prod(x1, y1), h);
    }
  }

  /** x0*y0 in full, with the two cross products added into its upper half. */
  method LowerProducts(z: array<int>, zp: nat, x: array<int>, xp: nat, y: array<int>, yp: nat, t: array<int>, tp: nat, h: nat)
    returns (ghost lo: int, ghost hi: int, ghost k1: int, ghost k2: int)
    requires PowerOfTwo(h) && Output(z, zp, 2 * h, t, tp, 4 * h)
    requires Input(x, xp, 2 * h, z, zp, 2 * h, t, tp, 4 * h) && Input(y, yp, 2 * h, z, zp, 2 * h, t, tp, 4 * h)
    modifies z, t
    ensures Confined(old(z[..]), z[..], old(t[..]), t[..], z == t, zp, 2 * h, tp, 4 * h)
    ensures Digits(z[..], zp, h)
    ensures lo + Part(hi, h) == Prod(old(Seg(x[..], xp, h)), old(Seg(y[..], yp, h)))
    ensures Seg(z[..], zp, h) == lo
    ensures Seg(z[..], zp + h, h) == hi + (Prod(old(Seg(x[..], xp + h, h)), old(Seg(y[..], yp, h))) - Part(k1, h))
                                       + (Prod(old(Seg(x[..], xp, h)), old(Seg(y[..], yp + h, h))) - Part(k2, h))
    decreases h, 3
  {
    ghost var xs, ys, zs, ts := x[..], y[..], z[..], t[..];
    Karmul(z, zp, x, xp, y, yp, t, tp + 2 * h, h);
    InputKept(x, z, t, xs, x[..], zs, z[..], ts, t[..], xp, h, zp, 2 * h, tp + 2 * h, 2 * h);
    InputKept(y, z, t, ys, y[..], zs, z[..], ts, t[..], yp, h, zp, 2 * h, tp + 2 * h, 2 * h);
    SegSplit(z[..], zp, h, h);
    lo, hi := Seg(z[..], zp, h), Seg(z[..], zp + h, h);
    k1, k2 := CrossProducts(z, zp, x, xp, y, yp, t, tp, h);
  }

  method CrossProducts(z: array<int>, zp: nat, x: array<int>, xp: nat, y: array<int>, yp: nat, t: array<int>, tp: nat, h: nat)
    returns (ghost k1: int, ghost k2: int)
    requires PowerOfTwo(h) && Output(z, zp, 2 * h, t, tp, 4 * h)
    requires Input(x, xp, 2 * h, z, zp, 2 * h, t, tp, 4 * h) && Input(y, yp, 2 * h, z, zp, 2 * h, t, tp, 4 * h)
    modifies z, t
    ensures Confined(old(z[..]), z[..], old(t[..]), t[..], z == t, zp + h, h, tp, 4 * h)
    ensures Seg(z[..], zp, h) == old(Seg(z[..], zp, h))
    ensures Seg(z[..], zp + h, h) == old(Seg(z[..], zp + h, h))
      + (Prod(old(Seg(x[..], xp + h, h)), old(Seg(y[..], yp, h))) - Part(k1, h))
      + (Prod(old(Seg(x[..], xp, h)), old(Seg(y[..], yp + h, h))) - Part(k2, h))
    decreases h, 2
  {
    ghost var xs, ys, zs, ts := x[..], y[..], z[..], t[..];
    k1 := CrossProduct(z, zp, x, xp + h, y, yp, t, tp, h);
    InputKept(x, z, t, xs, x[..], zs, z[..], ts, t[..], xp, h, zp + h, h, tp, 4 * h);
    InputKept(y, z, t, ys, y[..], zs, z[..], ts, t[..], yp, h, zp + h, h, tp, 4 * h);
    k2 := CrossProduct(z, zp, x, xp, y, yp + h, t, tp, h);
  }

  /** A cross product, low half only, added into the upper half of z. */
  method CrossProduct(z: array<int>, zp: nat, x: array<int>, xp: nat, y: array<int>, yp: nat, t: array<int>, tp: nat, h: nat)
    returns (ghost k: int)
    requires PowerOfTwo(h) && Output(z, zp, 2 * h, t, tp, 4 * h)
    requires Input(x, xp, h, z, zp, 2 * h, t, tp, 4 * h) && Input(y, yp, h, z, zp, 2 * h, t, tp, 4 * h)
    modifies z, t
    ensures Confined(old(z[..]), z[..], old(t[..]), t[..], z == t, zp + h, h, tp, 4 * h)
    ensures Seg(z[..], zp, h) == old(Seg(z[..], zp, h))
    ensures Seg(z[..], zp + h, h)
         == old(Seg(z[..], zp + h, h)) + (Prod(old(Seg(x[..], xp, h)), old(Seg(y[..], yp, h))) - Part(k, h))
    decreases h, 1
  {
    ghost var zs := z[..];
    k := KarmulLower(t, tp, x, xp, y, yp, t, tp + 2 * h, h);
    SegFrame(zs, zp + h, z[..], zp + h, h);
    Rinc(z, zp + h, t, tp, h, 1);
    SegFrame(zs, zp, z[..], zp, h);
  }

  // ---------- FF_karmul_upper ----------

  /** From l + zm*b = x*y modulo b^2 and t = x0*y0 + middle, the low half of x0*y0 is rebuilt. */
  lemma LowRebuilt(l: int, zm: int, k: int, tl: int, th: int, p: int, mid: int, s: int, h: nat) returns (d: int)
    requires l + Part(zm, h) + Part(k, h + h) == p + Part(mid, h) + Part(s, h + h)
    requires tl + Part(th, h) == p + mid
    ensures l + Part(zm + l - tl, h) + Part(d, h + h) == p
  {
    // l = p + e*b, so l - tl = -mid + (e + th)*b
    var e := mid - zm + Part(s - k, h);
    PartNest(s - k, h, h);
    PartSub(s, k, h + h);
    PartSub(mid, zm, h);
    PartAdd(mid - zm, Part(s - k, h), h);
    PartAdd(e, th, h);
    PartAdd(zm, l - tl, h);
    PartSub(Part(e + th, h), mid, h);
    PartNest(e + th, h, h);
    d := -(s - k + e + th);
    PartAdd(s - k, e + th, h + h);
    PartAdd(d, -d, h + h);
    PartZero(h + h);
  }

  lemma ProductBelow(s: seq<int>, t: seq<int>, h: nat)
    requires h <= |s| && h <= |t| && Digits(s, 0, h) && Digits(t, 0, h)
    ensures 0 <= Prod(Seg(s, 0, h), Seg(t, 0, h)) < RW(h + h)
  {
    DigitsBound(s, 0, h);
    DigitsBound(t, 0, h);
    ProdIs(Seg(s, 0, h), Seg(t, 0, h));
    BelowProduct(Seg(s, 0, h), RW(h), Seg(t, 0, h), RW(h));
    RWAdd(h, h);
  }

  /** First steps: t = x0*y0 + x0*y1 + x1*y0, z[n..2n) = x1*y1, and the given low half untouched. */
  method UpperProducts(z: array<int>, x: array<int>, y: array<int>, t: array<int>, h: nat)
    requires PowerOfTwo(h) && 4 * h <= z.Length && 4 * h <= t.Length && 2 * h <= x.Length && 2 * h <= y.Length
    requires z != t && x != z && x != t && y != z && y != t
    modifies z, t
    ensures Kept(old(z[..]), z[..], 2 * h, 2 * h) && Kept(old(t[..]), t[..], 0, 4 * h)
    ensures Seg(z[..], 2 * h, 2 * h) == Prod(Seg(x[..], h, h), Seg(y[..], h, h))
    ensures Seg(t[..], 0, 2 * h) == Prod(Seg(x[..], 0, h), Seg(y[..], 0, h))
                                  + (Prod(Seg(x[..], h, h), Seg(y[..], 0, h)) + Prod(Seg(x[..], 0, h), Seg(y[..], h, h)))
  {
    MiddleProduct(z, 2 * h, x, 0, y, 0, t, 0, h);
    ghost var s := t[..];
    Karmul(z, 2 * h, x, h, y, h, t, 2 * h, h);
    SegFrame(s, 0, t[..], 0, 2 * h);
    Rinc(t, 0, z, 2 * h, 2 * h, -1);
    Expand(Seg(x[..], 0, h), Seg(x[..], h, h), Seg(y[..], 0, h), Seg(y[..], h, h));
  }

  /** The low half of z becomes x0*y0. */
  method RebuildLow(z: array<int>, t: array<int>, h: nat, ghost k: int, ghost p: int, ghost mid: int, ghost s: int)
    requires 0 < h && 2 * h <= z.Length && 2 * h <= t.Length && z != t
    requires Seg(z[..], 0, 2 * h) + Part(k, h + h) == p + Part(mid, h) + Part(s, h + h)
    requires Seg(t[..], 0, 2 * h) == p + mid && 0 <= p < RW(h + h)
    modifies z
    ensures Kept(old(z[..]), z[..], 0, 2 * h) && Digits(z[..], 0, 2 * h)
    ensures Seg(z[..], 0, 2 * h) == p
  {
    ghost var l, zm, tl, th := Seg(z[..], 0, h), Seg(z[..], h, h), Seg(t[..], 0, h), Seg(t[..], h, h);
    SegSplit(z[..], 0, h, h);
    SegSplit(t[..], 0, h, h);
    ghost var zs := z[..];
    Rinc(z, h, z, 0, h, 1);
    Rinc(z, h, t, 0, h, -1);
    SegFrame(zs, 0, z[..], 0, h);
    SegSplit(z[..], 0, h, h);
    ghost var d := LowRebuilt(l, zm, k, tl, th, p, mid, s, h);
    ghost var e := RnormTruncate(z, 0, 2 * h);
    DigitsBound(z[..], 0, 2 * h);
    PartAdd(d, e, h + h);
    PartSmall(Seg(z[..], 0, 2 * h), p, d + e, 2 * h);
  }

  /** FF_karmul_upper: given the low half of x*y, z becomes x*y with two half-size products. */
  method KarmulUpper(z: array<int>, x: array<int>, y: array<int>, t: array<int>, n: nat, ghost k: int)
    requires PowerOfTwo(n) && n >= 2 && 2 * n <= z.Length && 2 * n <= t.Length && n <= x.Length && n <= y.Length
    requires z != t && x != z && x != t && y != z && y != t
    requires Digits(x[..], 0, n / 2) && Digits(y[..], 0, n / 2)
    requires Seg(z[..], 0, n) + Part(k, n) == Prod(Seg(x[..], 0, n), Seg(y[..], 0, n))
    modifies z, t
    ensures Kept(old(z[..]), z[..], 0, 2 * n) && Kept(old(t[..]), t[..], 0, 2 * n)
    ensures Digits(z[..], 0, n)
    ensures Seg(z[..], 0, 2 * n) == Prod(Seg(x[..], 0, n), Seg(y[..], 0, n))
  {
    var h := n / 2;
    ghost var x0, x1, y0, y1 := Seg(x[..], 0, h), Seg(x[..], h, h), Seg(y[..], 0, h), Seg(y[..], h, h);
    SegSplit(x[..], 0, h, h);
    SegSplit(y[..], 0, h, h);
    SchoolParts(Seg(x[..], 0, n), Seg(y[..], 0, n), x0, x1, y0, y1, h);
    ProductBelow(x[..], y[..], h);
    ghost var zs := z[..];
    UpperProducts(z, x, y, t, h);
    SegFrame(zs, 0, z[..], 0, n);
    ghost var zs1 := z[..];
    RebuildLow(z, t, h, k, Prod(x0, y0), Prod(x1, y0) + Prod(x0, y1), Prod(x1, y1));
    SegFrame(zs1, n, z[..], n, n);
    SegSplit(z[..], 0, n, n);
    Rinc(t, 0, z, 0, n, -1);
    AddUpper(z, t, h);
  }

  method AddUpper(z: array<int>, t: array<int>, h: nat)
    requires 0 < h && 4 * h <= z.Length && 2 * h <= t.Length && z != t && Digits(z[..], 0, h)
    modifies z
    ensures Kept(old(z[..]), z[..], 0, 4 * h) && Digits(z[..], 0, 2 * h)
    ensures Seg(z[..], 0, 4 * h) == old(Seg(z[..], 0, 4 * h)) + Part(old(Seg(t[..], 0, 2 * h)), h)
  {
    ghost var s, m := z[..], Seg(t[..], 0, 2 * h);
    Rinc(z, h, t, 0, 2 * h, 1);
    ghost var s1 := z[..];
    MiddleAdded(s, s1, 0, h, 2 * h, h, m);
    Rnorm(z, h, 2 * h);
    MiddleAdded(s1, z[..], 0, h, 2 * h, h, 0);
    PartZero(h);
  }

  // ---------- the entry points ----------

  /** FF_mul */
  method FfMul(z: array<int>, x: array<int>, y: array<int>, n: nat)
    requires PowerOfTwo(n) && 2 * n <= z.Length && n <= x.Length && n <= y.Length && x != z && y != z
    modifies z
    ensures Kept(old(z[..]), z[..], 0, 2 * n) && Digits(z[..], 0, 2 * n - 1)
    ensures Seg(z[..], 0, 2 * n) == Seg(x[..], 0, n) * Seg(y[..], 0, n)
  {
    var t := new int[2 * n];
    ProdIs(Seg(x[..], 0, n), Seg(y[..], 0, n));
    Karmul(z, 0, x, 0, y, 0, t, 0, n);
  }

  /** FF_sqr */
  method FfSqr(z: array<int>, x: array<int>, n: nat)
    requires PowerOfTwo(n) && 2 * n <= z.Length && n <= x.Length && x != z
    modifies z
    ensures Kept(old(z[..]), z[..], 0, 2 * n) && Digits(z[..], 0, n)
    ensures Seg(z[..], 0, 2 * n) == Seg(x[..], 0, n) * Seg(x[..], 0, n)
  {
    var t := new int[2 * n];
    ProdIs(Seg(x[..], 0, n), Seg(x[..], 0, n));
    Karsqr(z, 0, x, 0, t, 0, n);
  }

  /** FF_lmul: x*y modulo R^n, in digits once n is at least 2. */
  method FfLmul(z: array<int>, x: array<int>, y: array<int>, n: nat)
    requires PowerOfTwo(n) && n <= z.Length && n <= x.Length && n <= y.Length && x != z && y != z
    modifies z
    ensures Kept(old(z[..]), z[..], 0, n)
    ensures Cong(Seg(z[..], 0, n), Seg(x[..], 0, n) * Seg(y[..], 0, n), RW(n))
    ensures n >= 2 ==> Digits(z[..], 0, n) && Seg(z[..], 0, n) == (Seg(x[..], 0, n) * Seg(y[..], 0, n)) % RW(n)
  {
    var t := new int[2 * n];
    ProdIs(Seg(x[..], 0, n), Seg(y[..], 0, n));
    ghost var p := Prod(Seg(x[..], 0, n), Seg(y[..], 0, n));
    ghost var k := KarmulLower(z, 0, x, 0, y, 0, t, 0, n);
    PartCong(Seg(z[..], 0, n), p, k, n);
    if n >= 2 {
      DigitsBound(z[..], 0, n);
      CongMod(p, RW(n));
      CongSmall(Seg(z[..], 0, n), p % RW(n), RW(n));
    }
  }
}
