/**
 * Modular inversion by the binary extended Euclidean algorithm (big.c, BIG_invmodp), on limb arrays.
 */
module BigInverse {
  import opened Arith
  import opened Limbs
  import opened BigDiv

  // ---------- the parity of a number is the parity of its lowest limb ----------

  lemma {:induction false} ParityOfLimb(s: seq<int>, k: nat)
    requires 0 < k <= |s|
    ensures ValueTo(s, k) % 2 == s[0] % 2
  {
    if k == 1 {
      TermLow(s[0]);
    } else {
      ParityOfLimb(s, k - 1);
      EvenTerm(s[k - 1], k - 1);
    }
  }

  lemma EvenTerm(x: int, i: nat)
    requires i > 0
    ensures Term(x, i) % 2 == 0
  {
    TermCarry(0x2000_0000 * x, i - 1);
    TermZero(i - 1);
    TermScale(2, 0x1000_0000 * x, i - 1);
  }

  // ---------- arithmetic modulo an odd p ----------

  /** x*a is u modulo p. */
  ghost predicate Tracks(x: int, u: int, a: int, p: int) {
    0 <= x < p && 0 <= u <= p && Cong(x * a, u, p)
  }

  lemma HalfTracks(x: int, h: int, u: int, a: int, p: int)
    requires p % 2 == 1 && Tracks(x, u, a, p) && u % 2 == 0
    requires 2 * h == x || 2 * h == x + p
    ensures Tracks(h, u / 2, a, p)
  {
    CongIntro(2 * h, x, if 2 * h == x then 0 else 1, p);
    CongMul(2 * h, x, a, a, p);
    HalvesCancel(h * a, (2 * h) * a, u / 2, p) by {
      assert (2 * h) * a == 2 * (h * a);
    }
  }

  lemma HalvesCancel(y: int, z: int, u: int, p: int)
    requires p > 0 && p % 2 == 1 && z == 2 * y && Cong(z, 2 * u, p)
    ensures Cong(y, u, p)
  {
    CoprimeIntro(2, p, (p + 1) / 2, -1);
    CongCancel(2, y, u, p);
  }

  lemma DifferenceTracks(x: int, u: int, y: int, v: int, z: int, a: int, p: int)
    requires Tracks(x, u, a, p) && Tracks(y, v, a, p) && u >= v
    requires z == if x >= y then x - y else x - y + p
    ensures Tracks(z, u - v, a, p)
  {
    CongIntro(z, x - y, if x >= y then 0 else 1, p);
    CongMul(z, x - y, a, a, p);
    CongSub(x * a, u, y * a, v, p);
    assert (x - y) * a == x * a - y * a;
  }

  lemma CoprimeHalf(u: int, v: int)
    requires Coprime(u, v) && u % 2 == 0
    ensures Coprime(u / 2, v)
  {
    var s, t :| Bezout(s, u, t, v);
    assert s * u == (2 * s) * (u / 2);
    CoprimeIntro(u / 2, v, 2 * s, t);
  }

  lemma CoprimeDifference(u: int, v: int)
    requires Coprime(u, v)
    ensures Coprime(u - v, v)
  {
    var s, t :| Bezout(s, u, t, v);
    assert s * (u - v) + (t + s) * v == s * u + t * v;
    CoprimeIntro(u - v, v, s, t + s);
  }

  /** Nothing but 1 is coprime to 0. */
  lemma CoprimeZero(v: int)
    requires v >= 0 && Coprime(0, v)
    ensures v == 1
  {
    var s, t :| Bezout(s, 0, t, v);
    assert t * v == 1;
    if v >= 2 {
      if t >= 1 { MulMono(1, t, v); } else { MulMono(t, 0, v); }
    }
  }

  lemma CoprimeRemainder(a: int, p: int)
    requires p > 0 && Coprime(a, p)
    ensures Coprime(a % p, p)
  {
    var s, t :| Bezout(s, a, t, p);
    var q := a / p;
    assert a == q * p + a % p;
    assert s * a == s * (a % p) + (s * q) * p;
    assert (t + s * q) * p == t * p + (s * q) * p;
    CoprimeIntro(a % p, p, s, t + s * q);
  }

  // ---------- the steps on limb arrays ----------

  /** x = x/2 modulo p: p is added first if x is odd. */
  method HalveMod(x: array<int>, p: array<int>)
    requires x.Length == p.Length > 1 && x != p && Reduced(x[..]) && Reduced(p[..])
    requires 0 <= Value(x[..]) < Value(p[..]) && Value(p[..]) % 2 == 1
    modifies x
    ensures Reduced(x[..]) && 0 <= Value(x[..]) < Value(p[..])
    ensures 2 * Value(x[..]) == old(Value(x[..])) || 2 * Value(x[..]) == old(Value(x[..])) + Value(p[..])
  {
    ghost var v := Value(x[..]);
    ParityOfLimb(x[..], x.Length);
    ValueToBounds(p[..], p.Length);
    if x[0] % 2 != 0 {
      BigAdd(x, p, x);
      BigNorm(x);
    }
    TopLimb(x[..]);
    BigHalve(x);
    FitsTop(x[..]);
  }

  /** Halve u while it is even, keeping x*a = u modulo p. */
  method HalveWhileEven(u: array<int>, x: array<int>, p: array<int>, ghost a: int, ghost v: int)
    requires u.Length == x.Length == p.Length > 1 && u != x && u != p && x != p
    requires Reduced(u[..]) && Reduced(x[..]) && Reduced(p[..]) && Value(p[..]) % 2 == 1
    requires Tracks(Value(x[..]), Value(u[..]), a, Value(p[..])) && Value(u[..]) > 0 && Coprime(Value(u[..]), v)
    modifies u, x
    ensures Reduced(u[..]) && Reduced(x[..])
    ensures Tracks(Value(x[..]), Value(u[..]), a, Value(p[..])) && Coprime(Value(u[..]), v)
    ensures 0 < Value(u[..]) <= old(Value(u[..])) && Value(u[..]) % 2 == 1
  {
    ParityOfLimb(u[..], u.Length);
    while u[0] % 2 == 0
      invariant Reduced(u[..]) && Reduced(x[..])
      invariant Tracks(Value(x[..]), Value(u[..]), a, Value(p[..])) && Coprime(Value(u[..]), v)
      invariant 0 < Value(u[..]) <= old(Value(u[..])) && Value(u[..]) % 2 == u[0] % 2
      decreases Value(u[..])
    {
      ghost var uv, xv := Value(u[..]), Value(x[..]);
      ValueToBounds(u[..], u.Length);
      BigHalve(u);
      FitsTop(u[..]);
      CoprimeHalf(uv, v);
      HalveMod(x, p);
      HalfTracks(xv, Value(x[..]), uv, a, Value(p[..]));
      ParityOfLimb(u[..], u.Length);
    }
  }

  /** u = u - v and x = x - y modulo p, where u >= v. */
  method SubtractBoth(u: array<int>, v: array<int>, x: array<int>, y: array<int>, p: array<int>, ghost a: int)
    requires u.Length == v.Length == x.Length == y.Length == p.Length > 1
    requires u != v && u != x && u != y && u != p && x != v && x != y && x != p
    requires Reduced(u[..]) && Reduced(v[..]) && Reduced(x[..]) && Reduced(y[..]) && Reduced(p[..])
    requires Tracks(Value(x[..]), Value(u[..]), a, Value(p[..])) && Tracks(Value(y[..]), Value(v[..]), a, Value(p[..]))
    requires Value(u[..]) >= Value(v[..])
    modifies u, x
    ensures Reduced(u[..]) && Reduced(x[..])
    ensures Value(u[..]) == old(Value(u[..])) - Value(v[..])
    ensures Tracks(Value(x[..]), Value(u[..]), a, Value(p[..]))
  {
    ghost var uv, vv, xv, yv := Value(u[..]), Value(v[..]), Value(x[..]), Value(y[..]);
    ValueToBounds(u[..], u.Length);
    ValueToBounds(p[..], p.Length);
    BigSub(u, u, v);
    BigNorm(u);
    FitsTop(u[..]);
    var c := BigComp(x, y);
    if c >= 0 {
      BigSub(x, x, y);
    } else {
      var t := new int[p.Length];
      BigSub(t, p, y);
      BigAdd(x, x, t);
    }
    BigNorm(x);
    FitsTop(x[..]);
    DifferenceTracks(xv, uv, yv, vv, Value(x[..]), a, Value(p[..]));
  }

  method Duplicate(a: array<int>) returns (b: array<int>)
    ensures fresh(b) && b.Length == a.Length && b[..] == a[..]
  {
    b := new int[a.Length];
    BigCopy(b, a);
  }

  /** The state of the loop. */
  ghost predicate Euclid(u: int, v: int, x1: int, x2: int, a: int, p: int) {
    Tracks(x1, u, a, p) && Tracks(x2, v, a, p) && Coprime(u, v) && v > 0
  }

  /** One turn: both numbers are made odd, then the larger is reduced by the smaller. */
  method EuclidTurn(u: array<int>, v: array<int>, x1: array<int>, x2: array<int>, p: array<int>, ghost a: int)
    requires u.Length == v.Length == x1.Length == x2.Length == p.Length > 1
    requires u != v && u != x1 && u != x2 && u != p && v != x1 && v != x2 && v != p && x1 != x2 && x1 != p && x2 != p
    requires Reduced(u[..]) && Reduced(v[..]) && Reduced(x1[..]) && Reduced(x2[..]) && Reduced(p[..]) && Value(p[..]) % 2 == 1
    requires Euclid(Value(u[..]), Value(v[..]), Value(x1[..]), Value(x2[..]), a, Value(p[..])) && Value(u[..]) > 0
    modifies u, v, x1, x2
    ensures Reduced(u[..]) && Reduced(v[..]) && Reduced(x1[..]) && Reduced(x2[..])
    ensures Euclid(Value(u[..]), Value(v[..]), Value(x1[..]), Value(x2[..]), a, Value(p[..]))
    ensures Value(u[..]) + Value(v[..]) < old(Value(u[..]) + Value(v[..]))
  {
    HalveWhileEven(u, x1, p, a, Value(v[..]));
    CoprimeFlip(Value(u[..]), Value(v[..]));
    HalveWhileEven(v, x2, p, a, Value(u[..]));
    CoprimeFlip(Value(v[..]), Value(u[..]));
    var c := BigComp(u, v);
    if c >= 0 {
      CoprimeDifference(Value(u[..]), Value(v[..]));
      SubtractBoth(u, v, x1, x2, p, a);
    } else {
      CoprimeFlip(Value(u[..]), Value(v[..]));
      CoprimeDifference(Value(v[..]), Value(u[..]));
      CoprimeFlip(Value(v[..]) - Value(u[..]), Value(u[..]));
      SubtractBoth(v, u, x2, x1, p, a);
    }
  }

  /** BIG_invmodp: the inverse of a modulo p, for every odd p > 1 and every a coprime to p. */
  method BigInvmodp(r: array<int>, a: array<int>, p: array<int>)
    requires r.Length == a.Length == p.Length > 1 && r != p && a != p
    requires LooseDividend(a[..]) && Reduced(p[..]) && Value(p[..]) > 1 && Value(p[..]) % 2 == 1
    requires Coprime(Value(a[..]), Value(p[..]))
    modifies r, a, p
    ensures p[..] == old(p[..]) && Reduced(r[..]) && 0 <= Value(r[..]) < Value(p[..])
    ensures Cong(Value(r[..]) * old(Value(a[..])), 1, Value(p[..]))
  {
    ghost var a0, pv := Value(a[..]), Value(p[..]);
    CoprimeRemainder(a0, pv);
    ValueToBounds(p[..], p.Length);
    BigMod(a, p);
    FitsTop(a[..]);
    ghost var av := Value(a[..]);
    var u := Duplicate(a);
    var v := Duplicate(p);
    var one := BigOne(p.Length);
    var x1 := Duplicate(one);
    var x2 := new int[p.Length];
    BigZero(x2);
    StartOfLoop(av, pv);
    var fromU := EuclidLoop(u, v, x1, x2, one, p, av);
    CongMod(a0, pv);
    if fromU {
      CongMul(Value(x1[..]), Value(x1[..]), av, a0, pv);
      BigCopy(r, x1);
    } else {
      CongMul(Value(x2[..]), Value(x2[..]), av, a0, pv);
      BigCopy(r, x2);
    }
  }

  /** The loop ends with u or v equal to 1; in the latter case u may have become 0. */
  method EuclidLoop(u: array<int>, v: array<int>, x1: array<int>, x2: array<int>, one: array<int>, p: array<int>, ghost a: int)
    returns (fromU: bool)
    requires u.Length == v.Length == x1.Length == x2.Length == p.Length == one.Length > 1
    requires u != v && u != x1 && u != x2 && u != p && v != x1 && v != x2 && v != p && x1 != x2 && x1 != p && x2 != p
    requires one != u && one != v && one != x1 && one != x2 && Reduced(one[..]) && Value(one[..]) == 1
    requires Reduced(u[..]) && Reduced(v[..]) && Reduced(x1[..]) && Reduced(x2[..]) && Reduced(p[..]) && Value(p[..]) % 2 == 1
    requires Euclid(Value(u[..]), Value(v[..]), Value(x1[..]), Value(x2[..]), a, Value(p[..]))
    modifies u, v, x1, x2
    ensures Reduced(x1[..]) && Reduced(x2[..])
    ensures fromU ==> Tracks(Value(x1[..]), 1, a, Value(p[..]))
    ensures !fromU ==> Tracks(Value(x2[..]), 1, a, Value(p[..]))
  {
    var cu := BigComp(u, one);
    var cv := BigComp(v, one);
    while cu != 0 && cv != 0
      invariant Reduced(u[..]) && Reduced(v[..]) && Reduced(x1[..]) && Reduced(x2[..])
      invariant Euclid(Value(u[..]), Value(v[..]), Value(x1[..]), Value(x2[..]), a, Value(p[..]))
      invariant cu == 0 <==> Value(u[..]) == 1
      invariant cv == 0 <==> Value(v[..]) == 1
      decreases Value(u[..]) + Value(v[..])
    {
      ghost var vv := Value(v[..]);
      if Value(u[..]) == 0 { CoprimeZero(vv); }
      EuclidTurn(u, v, x1, x2, p, a);
      cu := BigComp(u, one);
      cv := BigComp(v, one);
    }
    fromU := cu == 0;
  }

  lemma StartOfLoop(a: int, p: int)
    requires p > 1 && 0 <= a < p && Coprime(a, p)
    ensures Euclid(a, p, 1, 0, a, p)
  {
    CongIntro(0, p, -1, p);
  }

  // ---------- when the loop ends ----------

  /** What a halving loop leaves; for 0 it would never end. */
  function Strip(u: int): (r: int)
    requires u > 0
    ensures 0 < r <= u && r % 2 == 1
  {
    if u % 2 == 0 then Strip(u / 2) else u
  }

  /** The loop exits within n turns. */
  ghost predicate Comes(u: int, v: int, n: nat)
    decreases n
  {
    u == 1 || v == 1 ||
    (n > 0 && u > 0 && v > 0 &&
     var x, y := Strip(u), Strip(v);
     if x >= y then Comes(x - y, y, n - 1) else Comes(x, y - x, n - 1))
  }

  lemma {:induction false} StripCoprime(u: int, v: int)
    requires u > 0 && (u % 2 == 1 || v % 2 == 1)
    ensures Coprime(Strip(u), v) <==> Coprime(u, v)
    decreases u
  {
    if u % 2 == 0 {
      StripCoprime(u / 2, v);
      if Coprime(u, v) { CoprimeHalf(u, v); }
      if Coprime(u / 2, v) {
        assert 2 * -(v / 2) + v * 1 == 1;
        CoprimeIntro(2, v, -(v / 2), 1);
        CoprimeMul(2, u / 2, v);
      }
    }
  }

  lemma DifferenceCoprime(u: int, v: int)
    ensures Coprime(u - v, v) <==> Coprime(u, v)
  {
    if Coprime(u, v) { CoprimeDifference(u, v); }
    if Coprime(u - v, v) {
      var s, t :| s * (u - v) + t * v == 1;
      assert s * u + (t - s) * v == s * (u - v) + t * v;
      CoprimeIntro(u, v, s, t - s);
    }
  }

  lemma Flip(u: int, v: int)
    ensures Coprime(u, v) <==> Coprime(v, u)
  {
    if Coprime(u, v) { CoprimeFlip(u, v); }
    if Coprime(v, u) { CoprimeFlip(v, u); }
  }

  /** One turn keeps whether the numbers are coprime. */
  lemma TurnCoprime(u: int, v: int)
    requires u > 0 && v > 0 && (u % 2 == 1 || v % 2 == 1)
    ensures var x, y := Strip(u), Strip(v); (Coprime(x - y, y) <==> Coprime(u, v)) && (Coprime(x, y - x) <==> Coprime(u, v))
  {
    var x, y := Strip(u), Strip(v);
    StripCoprime(u, v);
    Flip(x, v);
    StripCoprime(v, x);
    Flip(y, x);
    DifferenceCoprime(x, y);
    DifferenceCoprime(y, x);
    Flip(y - x, x);
  }

  lemma {:induction false} ExitMeansCoprime(u: int, v: int, n: nat)
    requires u >= 0 && v > 0 && (u % 2 == 1 || v % 2 == 1) && Comes(u, v, n)
    ensures Coprime(u, v)
    decreases n
  {
    if u == 1 {
      CoprimeIntro(u, v, 1, 0);
    } else if v == 1 {
      CoprimeIntro(u, v, 0, 1);
    } else {
      TurnCoprime(u, v);
      var x, y := Strip(u), Strip(v);
      if x >= y { ExitMeansCoprime(x - y, y, n - 1); } else { ExitMeansCoprime(x, y - x, n - 1); }
    }
  }

  lemma {:induction false} CoprimeExits(u: int, v: int) returns (n: nat)
    requires u >= 0 && v > 0 && (u % 2 == 1 || v % 2 == 1) && Coprime(u, v)
    ensures Comes(u, v, n)
    decreases u + v
  {
    n := 0;
    if u == 0 { CoprimeZero(v); }
    if u != 1 && v != 1 {
      TurnCoprime(u, v);
      var x, y := Strip(u), Strip(v);
      if x >= y { n := CoprimeExits(x - y, y); } else { n := CoprimeExits(x, y - x); }
      n := n + 1;
    }
  }

  /** The loop exits. */
  ghost predicate Exits(u: int, v: int) { exists n: nat :: Comes(u, v, n) }

  lemma ExitsIff(u: int, v: int)
    requires u >= 0 && v > 0 && (u % 2 == 1 || v % 2 == 1)
    ensures Exits(u, v) <==> Coprime(u, v)
  {
    if Coprime(u, v) {
      var n := CoprimeExits(u, v);
    }
    if Exits(u, v) {
      var n: nat :| Comes(u, v, n);
      ExitMeansCoprime(u, v, n);
    }
  }

  /** BIG_invmodp returns if and only if a is coprime to p. */
  lemma ReturnsIff(a: int, p: int)
    requires p > 1 && p % 2 == 1
    ensures Exits(a % p, p) <==> Coprime(a, p)
  {
    ExitsIff(a % p, p);
    if Coprime(a, p) { CoprimeRemainder(a, p); }
    if Coprime(a % p, p) {
      var s, t :| Bezout(s, a % p, t, p);
      BackFromRemainder(a, a / p, p, s, t);
    }
  }

  lemma BackFromRemainder(a: int, q: int, p: int, s: int, t: int)
    requires s * (a - q * p) + t * p == 1
    ensures Coprime(a, p)
  {
    assert s * (a - q * p) == s * a - (s * q) * p;
    assert s * a + (t - s * q) * p == 1;
    CoprimeIntro(a, p, s, t - s * q);
  }
}
