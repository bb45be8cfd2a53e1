/** XTR exponentiation on traces (fp4.c).
    The loops never look inside an FP4 element: they only combine traces with conjugation
    and the two maps `xtr_A` and `xtr_D`.  They are therefore written over an arbitrary
    carrier, and what they compute is stated against a sequence of traces `c`. */
module Xtr {
  import opened Arith

  /** The FP4 operations used by the exponentiation loops. */
  datatype XtrOps<!K> = XtrOps(three: K, conj: K -> K, xtrA: (K, K, K, K) -> K, xtrD: K -> K)

  // Marker terms: the laws below are used only where a proof names the indices, by calling
  // `LawAt` or `LawSum`.
  ghost predicate At(n: int) { true }
  ghost predicate At2(u: int, v: int) { true }

  /** `c(n)` is the trace of the n-th power: the operations follow the trace recurrence. */
  ghost predicate Lawful<K>(o: XtrOps<K>, c: int -> K) {
    && c(0) == o.three
    && (forall n {:trigger At(n)} :: At(n) ==> o.conj(c(n)) == c(-n) && o.xtrD(c(n)) == c(n + n))
    && (forall u, v {:trigger At2(u, v)} :: At2(u, v) ==>
          o.xtrA(c(u), c(v), c(u - v), c(u - v - v)) == c(u + v))
  }

  lemma LawAt<K>(o: XtrOps<K>, c: int -> K, n: int)
    requires Lawful(o, c)
    ensures o.conj(c(n)) == c(-n) && o.xtrD(c(n)) == c(n + n)
  {
    assert At(n);
  }

  /** The recurrence at (u, v), with its index arithmetic left to the caller. */
  lemma LawSum<K>(o: XtrOps<K>, c: int -> K, u: int, v: int, x: int, y: int, z: int)
    requires Lawful(o, c)
    requires x == u - v && y == u - v - v && z == u + v
    ensures o.xtrA(c(u), c(v), c(x), c(y)) == c(z)
  {
    assert At2(u, v);
  }

  /** The traces of the powers of g^m again form a trace sequence. */
  lemma LawfulScaled<K>(o: XtrOps<K>, c: int -> K, m: int)
    requires Lawful(o, c)
    ensures Lawful(o, n => c(m * n))
  {
    var d := n => c(m * n);
    forall n {:trigger At(n)} ensures o.conj(d(n)) == d(-n) && o.xtrD(d(n)) == d(n + n) {
      assert m * -n == -(m * n);
      assert m * (n + n) == m * n + m * n;
      LawAt(o, c, m * n);
    }
    forall u, v {:trigger At2(u, v)} ensures o.xtrA(d(u), d(v), d(u - v), d(u - v - v)) == d(u + v) {
      assert m * (u - v) == m * u - m * v;
      assert m * (u - v - v) == m * u - m * v - m * v;
      assert m * (u + v) == m * u + m * v;
      LawSum(o, c, m * u, m * v, m * (u - v), m * (u - v - v), m * (u + v));
    }
    assert m * 0 == 0;
  }

  /** BIG_shr(v, i). */
  function Shr(v: nat, i: nat): nat {
    if i == 0 then v else Shr(v, i - 1) / 2
  }

  /** BIG_bit(v, i). */
  function Bit(v: nat, i: nat): nat {
    Shr(v, i) % 2
  }

  /** BIG_nbits(v). */
  function BitLength(v: nat): nat {
    if v == 0 then 0 else 1 + BitLength(v / 2)
  }

  lemma {:induction false} ShrAgain(v: nat, i: nat)
    ensures Shr(v / 2, i) == Shr(v, i + 1)
  {
    if i > 0 { ShrAgain(v, i - 1); }
  }

  lemma {:induction false} ShrBitLength(v: nat)
    ensures Shr(v, BitLength(v)) == 0
  {
    if v > 0 {
      ShrBitLength(v / 2);
      ShrAgain(v, BitLength(v / 2));
    }
  }

  /** The three traces kept by the ladder: those of the powers 2k, 2k+1 and 2k+2. */
  ghost predicate Rung<K>(c: int -> K, a: K, b: K, cc: K, k: int) {
    a == c(k + k) && b == c(k + k + 1) && cc == c(k + k + 2)
  }

  /** The rung for 2k, from the rung for k. */
  lemma RungZero<K>(o: XtrOps<K>, c: int -> K, a: K, b: K, cc: K, k: int)
    requires Lawful(o, c) && Rung(c, a, b, cc, k)
    ensures Rung(c, o.xtrD(a), o.xtrA(a, b, o.conj(c(1)), o.conj(cc)), o.xtrD(b), k + k)
    ensures o.conj(o.conj(c(1))) == c(1)
  {
    LawAt(o, c, 1);
    LawAt(o, c, -1);
    LawAt(o, c, k + k);
    LawAt(o, c, k + k + 1);
    LawAt(o, c, k + k + 2);
    LawSum(o, c, k + k, k + k + 1, -1, -(k + k + 2), (k + k) + (k + k) + 1);
  }

  /** The rung for 2k+1, from the rung for k. */
  lemma RungOne<K>(o: XtrOps<K>, c: int -> K, a: K, b: K, cc: K, k: int)
    requires Lawful(o, c) && Rung(c, a, b, cc, k)
    ensures Rung(c, o.xtrD(b), o.xtrA(cc, b, c(1), o.conj(a)), o.xtrD(cc), k + k + 1)
  {
    LawAt(o, c, k + k);
    LawAt(o, c, k + k + 1);
    LawAt(o, c, k + k + 2);
    LawSum(o, c, k + k + 2, k + k + 1, 1, -(k + k), (k + k + 1) + (k + k + 1) + 1);
  }

  /** One turn of the single exponentiation. */
  method PowTurn<K>(o: XtrOps<K>, x: K, a: K, b: K, cc: K, bit: int, ghost c: int -> K, ghost k: int)
    returns (a': K, b': K, cc': K)
    requires Lawful(o, c) && x == c(1) && Rung(c, a, b, cc, k) && 0 <= bit < 2
    ensures Rung(c, a', b', cc', k + k + bit)
  {
    if bit == 0 {
      RungZero(o, c, a, b, cc, k);
      var t := b;
      var xc, cconj := o.conj(x), o.conj(cc);
      b' := o.xtrA(a, b, xc, cconj);
      cc' := o.xtrD(t);
      a' := o.xtrD(a);
    } else {
      RungOne(o, c, a, b, cc, k);
      var t := o.conj(a);
      a' := o.xtrD(b);
      b' := o.xtrA(cc, b, x, t);
      cc' := o.xtrD(cc);
    }
  }

  /** Single exponentiation: the trace of g^n from the trace of g. */
  method XtrPow<K>(o: XtrOps<K>, x: K, n: nat, ghost c: int -> K) returns (r: K)
    requires n > 0
    requires Lawful(o, c) && x == c(1)
    ensures r == c(n)
  {
    var par := n % 2;
    var v := if par == 0 then n / 2 - 1 else n / 2;
    var b, cc := PowLoop(o, x, v, c);
    r := if par == 0 then cc else b;
  }

  /** The loop over the bits of v, from the top. */
  method PowLoop<K>(o: XtrOps<K>, x: K, v: nat, ghost c: int -> K) returns (b: K, cc: K)
    requires Lawful(o, c) && x == c(1)
    ensures b == c(v + v + 1) && cc == c(v + v + 2)
  {
    var a := o.three;
    b, cc := x, o.xtrD(x);
    LawAt(o, c, 1);
    var i := BitLength(v);
    ShrBitLength(v);
    while i > 0
      invariant i >= 0
      invariant Rung(c, a, b, cc, Shr(v, i))
    {
      i := i - 1;
      a, b, cc := PowTurn(o, x, a, b, cc, Bit(v, i), c, Shr(v, i + 1));
    }
  }

  /** The same, started from the trace of any power g^m. */
  method XtrPowAt<K>(o: XtrOps<K>, x: K, n: nat, ghost c: int -> K, ghost m: int) returns (r: K)
    requires n > 0
    requires Lawful(o, c) && x == c(m)
    ensures r == c(m * n)
  {
    LawfulScaled(o, c, m);
    assert m * 1 == m;
    r := XtrPow(o, x, n, j => c(m * j));
  }

  // ---------- double exponentiation ----------

  /** The exponent pair and the four traces that the main loop moves in step. */
  datatype Walk<K> = Walk(d: int, e: int, cu: K, cv: K, cumv: K, cum2v: K)

  /** The traces belong to indices (u, v), and d*u + e*v has not moved. */
  ghost predicate Tracks<K>(c: int -> K, w: Walk<K>, u: int, v: int, total: int) {
    && w.d > 0 && w.e > 0
    && w.cu == c(u) && w.cv == c(v) && w.cumv == c(u - v) && w.cum2v == c(u - v - v)
    && w.d * u + w.e * v == total
  }

  ghost predicate OnCourse<K>(c: int -> K, w: Walk<K>, total: int) {
    exists u, v :: Tracks(c, w, u, v, total)
  }

  // The six moves behind the eight branches (two of them serve both halves of the loop).

  function Add<K>(o: XtrOps<K>, w: Walk<K>): K {
    o.xtrA(w.cu, w.cv, w.cumv, w.cum2v)
  }

  function Fibonacci<K>(o: XtrOps<K>, w: Walk<K>): Walk<K> {
    Walk(w.e, w.d - w.e, Add(o, w), w.cu, w.cv, o.conj(w.cumv))
  }

  function HalveD<K>(o: XtrOps<K>, w: Walk<K>): Walk<K> {
    var t := o.xtrA(w.cu, w.cumv, w.cv, o.conj(w.cum2v));
    Walk(w.d / 2, w.e, o.xtrD(w.cu), w.cv, t, o.xtrD(w.cumv))
  }

  function OddDown<K>(o: XtrOps<K>, w: Walk<K>): Walk<K> {
    Walk((w.d - w.e) / 2, w.e, o.xtrD(w.cu), Add(o, w), w.cumv, o.conj(o.xtrD(w.cv)))
  }

  function HalveE<K>(o: XtrOps<K>, w: Walk<K>): Walk<K> {
    Walk(w.e / 2, w.d, o.xtrD(w.cv), w.cu, o.conj(w.cum2v), o.conj(o.xtrD(w.cumv)))
  }

  function SubtractD<K>(o: XtrOps<K>, w: Walk<K>): Walk<K> {
    Walk(w.d, w.e - w.d, Add(o, w), w.cv, w.cu, w.cumv)
  }

  function OddUp<K>(o: XtrOps<K>, w: Walk<K>): Walk<K> {
    Walk((w.e - w.d) / 2, w.d, o.xtrD(w.cv), Add(o, w), o.conj(w.cumv), o.conj(o.xtrD(w.cu)))
  }

  /** The branches taken when d > e. */
  function StepDown<K>(o: XtrOps<K>, w: Walk<K>): Walk<K> {
    if w.d <= 4 * w.e then Fibonacci(o, w)
    else if w.d % 2 == 0 then HalveD(o, w)
    else if w.e % 2 == 1 then OddDown(o, w)
    else HalveE(o, w)
  }

  /** The branches taken when d < e. */
  function StepUp<K>(o: XtrOps<K>, w: Walk<K>): Walk<K> {
    if w.e <= 4 * w.d then SubtractD(o, w)
    else if w.e % 2 == 0 then HalveE(o, w)
    else if w.d % 2 == 1 then OddUp(o, w)
    else HalveD(o, w)
  }

  lemma FibonacciTracks<K>(o: XtrOps<K>, c: int -> K, w: Walk<K>, u: int, v: int, total: int)
    requires Lawful(o, c) && Tracks(c, w, u, v, total) && w.d > w.e
    ensures Tracks(c, Fibonacci(o, w), u + v, u, total)
  {
    LawSum(o, c, u, v, u - v, u - v - v, u + v);
    LawAt(o, c, u - v);
    assert w.e * (u + v) + (w.d - w.e) * u == w.d * u + w.e * v;
    assert u + v - u == v && u + v - u - u == -(u - v);
  }

  lemma HalveDTracks<K>(o: XtrOps<K>, c: int -> K, w: Walk<K>, u: int, v: int, total: int)
    requires Lawful(o, c) && Tracks(c, w, u, v, total) && w.d % 2 == 0
    ensures Tracks(c, HalveD(o, w), u + u, v, total)
  {
    LawAt(o, c, u);
    LawAt(o, c, u - v);
    LawAt(o, c, u - v - v);
    LawSum(o, c, u, u - v, v, -(u - v - v), u + u - v);
    Halve(w.d, u);
    assert u - v + (u - v) == u + u - v - v;
  }

  lemma OddDownTracks<K>(o: XtrOps<K>, c: int -> K, w: Walk<K>, u: int, v: int, total: int)
    requires Lawful(o, c) && Tracks(c, w, u, v, total) && w.d > w.e && w.d % 2 == 1 && w.e % 2 == 1
    ensures Tracks(c, OddDown(o, w), u + u, u + v, total)
  {
    LawAt(o, c, u);
    LawAt(o, c, v);
    LawAt(o, c, v + v);
    LawSum(o, c, u, v, u - v, u - v - v, u + v);
    OddDownTotal(w.d, w.e, u, v);
    assert u + u - (u + v) == u - v && u + u - (u + v) - (u + v) == -(v + v);
  }

  lemma OddDownTotal(d: int, e: int, u: int, v: int)
    requires d % 2 == 1 && e % 2 == 1
    ensures ((d - e) / 2) * (u + u) + e * (u + v) == d * u + e * v
  {
    Halve(d - e, u);
    assert e * (u + v) == e * u + e * v && (d - e) * u == d * u - e * u;
  }

  lemma HalveETracks<K>(o: XtrOps<K>, c: int -> K, w: Walk<K>, u: int, v: int, total: int)
    requires Lawful(o, c) && Tracks(c, w, u, v, total) && w.e % 2 == 0
    ensures Tracks(c, HalveE(o, w), v + v, u, total)
  {
    LawAt(o, c, v);
    LawAt(o, c, u - v);
    LawAt(o, c, u - v - v);
    LawAt(o, c, u - v + (u - v));
    Halve(w.e, v);
    assert v + v - u == -(u - v - v) && v + v - u - u == -(u - v + (u - v));
  }

  lemma SubtractDTracks<K>(o: XtrOps<K>, c: int -> K, w: Walk<K>, u: int, v: int, total: int)
    requires Lawful(o, c) && Tracks(c, w, u, v, total) && w.d < w.e
    ensures Tracks(c, SubtractD(o, w), u + v, v, total)
  {
    LawSum(o, c, u, v, u - v, u - v - v, u + v);
    assert w.d * (u + v) + (w.e - w.d) * v == w.d * u + w.e * v;
    assert u + v - v == u && u + v - v - v == u - v;
  }

  lemma OddUpTracks<K>(o: XtrOps<K>, c: int -> K, w: Walk<K>, u: int, v: int, total: int)
    requires Lawful(o, c) && Tracks(c, w, u, v, total) && w.d < w.e && w.d % 2 == 1 && w.e % 2 == 1
    ensures Tracks(c, OddUp(o, w), v + v, u + v, total)
  {
    LawAt(o, c, u);
    LawAt(o, c, v);
    LawAt(o, c, u + u);
    LawAt(o, c, u - v);
    LawSum(o, c, u, v, u - v, u - v - v, u + v);
    Halve(w.e - w.d, v);
    assert w.d * (u + v) == w.d * u + w.d * v && (w.e - w.d) * v == w.e * v - w.d * v;
    assert v + v - (u + v) == -(u - v) && v + v - (u + v) - (u + v) == -(u + u);
  }

  /** Every branch for d > e keeps the walk on course and makes d + e smaller. */
  lemma StepDownTracks<K>(o: XtrOps<K>, c: int -> K, w: Walk<K>, total: int)
    requires Lawful(o, c) && OnCourse(c, w, total) && w.d > w.e
    ensures OnCourse(c, StepDown(o, w), total)
    ensures StepDown(o, w).d + StepDown(o, w).e < w.d + w.e
  {
    var u, v :| Tracks(c, w, u, v, total);
    if w.d <= 4 * w.e {
      FibonacciTracks(o, c, w, u, v, total);
    } else if w.d % 2 == 0 {
      HalveDTracks(o, c, w, u, v, total);
    } else if w.e % 2 == 1 {
      OddDownTracks(o, c, w, u, v, total);
    } else {
      HalveETracks(o, c, w, u, v, total);
    }
  }

  /** Every branch for d < e keeps the walk on course and makes d + e smaller. */
  lemma StepUpTracks<K>(o: XtrOps<K>, c: int -> K, w: Walk<K>, total: int)
    requires Lawful(o, c) && OnCourse(c, w, total) && w.d < w.e
    ensures OnCourse(c, StepUp(o, w), total)
    ensures StepUp(o, w).d + StepUp(o, w).e < w.d + w.e
  {
    var u, v :| Tracks(c, w, u, v, total);
    if w.e <= 4 * w.d {
      SubtractDTracks(o, c, w, u, v, total);
    } else if w.e % 2 == 0 {
      HalveETracks(o, c, w, u, v, total);
    } else if w.d % 2 == 1 {
      OddUpTracks(o, c, w, u, v, total);
    } else {
      HalveDTracks(o, c, w, u, v, total);
    }
  }

  lemma Halve(d: int, u: int)
    requires d % 2 == 0
    ensures (d / 2) * (u + u) == d * u
  {
    assert d == 2 * (d / 2);
    assert (d / 2) * (u + u) == (2 * (d / 2)) * u;
  }

  lemma HalveBoth(d: int, e: int, k: int, l: int, f: nat)
    requires d % 2 == 0 && e % 2 == 0
    ensures ((d / 2) * k + (e / 2) * l) * Pow(2, f + 1) == (d * k + e * l) * Pow(2, f)
  {
    var x, y := d / 2, e / 2;
    assert d * k + e * l == (x * k + y * l) * 2 by {
      assert (2 * x) * k == 2 * (x * k) && (2 * y) * l == 2 * (y * l);
    }
    assert (x * k + y * l) * (2 * Pow(2, f)) == ((x * k + y * l) * 2) * Pow(2, f);
  }

  lemma {:induction false} DoubledIndex(m: int, i: nat)
    ensures m * Pow(2, i) + m * Pow(2, i) == m * Pow(2, i + 1)
  {
    assert m * (2 * Pow(2, i)) == 2 * (m * Pow(2, i));
  }

  lemma FinalIndex(d: int, u: int, v: int, p: int, target: int)
    requires (d * u + d * v) * p == target
    ensures ((u + v) * p) * d == target
  {
    assert d * u + d * v == d * (u + v);
  }

  /** The opening loop: take out the common power of two. */
  method StripTwos(a: int, b: int, ghost k: int, ghost l: int) returns (d: int, e: int, f2: nat)
    requires a > 0 && b > 0
    ensures d > 0 && e > 0
    ensures (d * k + e * l) * Pow(2, f2) == b * k + a * l
  {
    e, d := a, b;
    f2 := 0;
    while d % 2 == 0 && e % 2 == 0
      invariant d > 0 && e > 0
      invariant (d * k + e * l) * Pow(2, f2) == b * k + a * l
      decreases d
    {
      HalveBoth(d, e, k, l, f2);
      d, e := d / 2, e / 2;
      f2 := f2 + 1;
    }
  }

  /** The closing loop: double the index f2 times. */
  method DoubleTimes<K>(o: XtrOps<K>, x: K, f2: nat, ghost c: int -> K, ghost m: int) returns (r: K)
    requires Lawful(o, c) && x == c(m)
    ensures r == c(m * Pow(2, f2))
  {
    r := x;
    var i := 0;
    while i < f2
      invariant 0 <= i <= f2
      invariant r == c(m * Pow(2, i))
    {
      LawAt(o, c, m * Pow(2, i));
      r := o.xtrD(r);
      DoubledIndex(m, i);
      i := i + 1;
    }
  }

  /** Double exponentiation: from the traces of g^k, g^l, g^(k-l) and g^(k-2l), the trace of
      g^(b*k + a*l).  The exponents a and b must be positive. */
  method XtrPow2<K>(o: XtrOps<K>, ck: K, cl: K, ckml: K, ckm2l: K, a: int, b: int,
                    ghost c: int -> K, ghost k: int, ghost l: int) returns (r: K)
    requires a > 0 && b > 0
    requires Lawful(o, c)
    requires ck == c(k) && cl == c(l) && ckml == c(k - l) && ckm2l == c(k - l - l)
    ensures r == c(b * k + a * l)
  {
    var d, e, f2 := StripTwos(a, b, k, l);
    var w := Walk(d, e, ck, cl, ckml, ckm2l);
    ghost var total := d * k + e * l;
    assert Tracks(c, w, k, l, total);
    ghost var u, v;
    w, u, v := XtrWalk(o, w, c, total);
    r := o.xtrA(w.cu, w.cv, w.cumv, w.cum2v);
    r := DoubleTimes(o, r, f2, c, u + v);
    r := XtrPowAt(o, r, w.d, c, (u + v) * Pow(2, f2));
    FinalIndex(w.d, u, v, Pow(2, f2), b * k + a * l);
  }

  /** The main loop: walk until the two exponents meet. */
  method XtrWalk<K>(o: XtrOps<K>, start: Walk<K>, ghost c: int -> K, ghost total: int)
    returns (w: Walk<K>, ghost u: int, ghost v: int)
    requires Lawful(o, c) && OnCourse(c, start, total)
    ensures w.d == w.e && Tracks(c, w, u, v, total)
    ensures Add(o, w) == c(u + v)
  {
    w := start;
    while w.d != w.e
      invariant OnCourse(c, w, total)
      decreases w.d + w.e
    {
      if w.d > w.e {
        StepDownTracks(o, c, w, total);
        w := StepDown(o, w);
      }
      if w.d < w.e {
        StepUpTracks(o, c, w, total);
        w := StepUp(o, w);
      }
    }
    u, v :| Tracks(c, w, u, v, total);
    LawSum(o, c, u, v, u - v, u - v - v, u + v);
  }

  // ---------- a zero exponent never leaves the main loop ----------

  /** One turn of the main loop. */
  function Turn<K>(o: XtrOps<K>, w: Walk<K>): Walk<K> {
    var z := if w.d > w.e then StepDown(o, w) else w;
    if z.d < z.e then StepUp(o, z) else z
  }

  function Turns<K>(o: XtrOps<K>, w: Walk<K>, n: nat): Walk<K>
    decreases n
  {
    if n == 0 then w else Turns(o, Turn(o, w), n - 1)
  }

  /** Exactly when both exponents are positive do finitely many turns make them equal. */
  lemma {:induction false} ExitIffPositive<K>(o: XtrOps<K>, w: Walk<K>)
    requires w.d >= 0 && w.e >= 0 && (w.d > 0 || w.e > 0)
    ensures (exists n: nat :: Turns(o, w, n).d == Turns(o, w, n).e) <==> (w.d > 0 && w.e > 0)
  {
    if w.d > 0 && w.e > 0 {
      PositiveExits(o, w);
    } else {
      forall n: nat ensures Turns(o, w, n).d != Turns(o, w, n).e {
        ZeroStays(o, w, n);
      }
    }
  }

  lemma TurnShrinks<K>(o: XtrOps<K>, w: Walk<K>)
    requires w.d > 0 && w.e > 0 && w.d != w.e
    ensures Turn(o, w).d > 0 && Turn(o, w).e > 0
    ensures Turn(o, w).d + Turn(o, w).e < w.d + w.e
  {
  }

  lemma {:induction false} PositiveExits<K>(o: XtrOps<K>, w: Walk<K>)
    requires w.d > 0 && w.e > 0
    ensures exists n: nat :: Turns(o, w, n).d == Turns(o, w, n).e
    decreases w.d + w.e
  {
    if w.d == w.e {
      assert Turns(o, w, 0) == w;
    } else {
      TurnShrinks(o, w);
      PositiveExits(o, Turn(o, w));
      var n: nat :| Turns(o, Turn(o, w), n).d == Turns(o, Turn(o, w), n).e;
      assert Turns(o, w, n + 1) == Turns(o, Turn(o, w), n);
    }
  }

  lemma {:induction false} ZeroStays<K>(o: XtrOps<K>, w: Walk<K>, n: nat)
    requires (w.d == 0 && w.e > 0) || (w.d > 0 && w.e == 0)
    ensures Turns(o, w, n).d != Turns(o, w, n).e
    decreases n
  {
    if n > 0 {
      ZeroStays(o, Turn(o, w), n - 1);
    }
  }

  /** n turns of the opening loop. */
  function Strips<K>(w: Walk<K>, n: nat): Walk<K>
    decreases n
  {
    if n == 0 || w.d % 2 == 1 || w.e % 2 == 1 then w else Strips(w.(d := w.d / 2, e := w.e / 2), n - 1)
  }

  ghost predicate Stripped<K>(w: Walk<K>, n: nat) { Strips(w, n).d % 2 == 1 || Strips(w, n).e % 2 == 1 }

  ghost predicate Meets<K>(o: XtrOps<K>, w: Walk<K>, n: nat) { Turns(o, w, n).d == Turns(o, w, n).e }

  /** The opening loop ends, and then the main loop. */
  ghost predicate Ends<K>(o: XtrOps<K>, w: Walk<K>) {
    exists m: nat :: Stripped(w, m) && exists n: nat :: Meets(o, Strips(w, m), n)
  }

  /** The double exponentiation comes to an end exactly if both exponents are positive. */
  lemma EndsIffPositive<K>(o: XtrOps<K>, w: Walk<K>)
    requires w.d >= 0 && w.e >= 0
    ensures Ends(o, w) <==> w.d > 0 && w.e > 0
  {
    if w.d > 0 && w.e > 0 {
      var m := StripsEnd(w);
      PositiveExits(o, Strips(w, m));
      var n: nat :| Turns(o, Strips(w, m), n).d == Turns(o, Strips(w, m), n).e;
      assert Meets(o, Strips(w, m), n);
    } else if Ends(o, w) {
      var m: nat :| Stripped(w, m) && exists n: nat :: Meets(o, Strips(w, m), n);
      var n: nat :| Meets(o, Strips(w, m), n);
      StripsKeep(w, m);
      ZeroStays(o, Strips(w, m), n);
    }
  }

  lemma {:induction false} StripsEnd<K>(w: Walk<K>) returns (m: nat)
    requires w.d > 0 && w.e > 0
    ensures Stripped(w, m) && Strips(w, m).d > 0 && Strips(w, m).e > 0
    decreases w.d
  {
    if w.d % 2 == 1 || w.e % 2 == 1 {
      m := 0;
    } else {
      m := StripsEnd(w.(d := w.d / 2, e := w.e / 2));
      m := m + 1;
    }
  }

  /** The opening loop keeps zero exponents zero and positive ones positive. */
  lemma {:induction false} StripsKeep<K>(w: Walk<K>, m: nat)
    requires w.d >= 0 && w.e >= 0
    ensures Strips(w, m).d >= 0 && Strips(w, m).e >= 0
    ensures (Strips(w, m).d == 0 <==> w.d == 0) && (Strips(w, m).e == 0 <==> w.e == 0)
    decreases m
  {
    if m > 0 && w.d % 2 == 0 && w.e % 2 == 0 { StripsKeep(w.(d := w.d / 2, e := w.e / 2), m - 1); }
  }
}
