/**
 * M-Pin Full (mpin.c): enrolment, the two passes of authentication and the key agreement, over any
 * bilinear pairing.  Hashing to a curve point is a parameter; so are the random scalars.
 */
module MPin {
  import opened Arith
  import opened Algebra
  import opened Pairing
  import opened ScalarMul
  import Xtr

  // The contracts below give results by number: 0 for success, -14 for octets that are no point, -19 for a wrong PIN.
  const MPIN_OK := 0
  const MPIN_INVALID_POINT := -14
  const MPIN_BAD_PIN := -19
  const MAXPIN := 10000
  const PBLEN := 14

  /** An octet string holding a curve point, or nothing that decodes to one. */
  datatype Octet<A> = Blank | Point(p: A)

  /** o is what ECP_toOctet writes for a: at infinity, whatever is in its uninitialised coordinates. */
  ghost predicate Writes<A>(g: Group<A>, a: A, o: Octet<A>) { a != g.zero ==> o == Point(a) }

  /** ECP_toOctet and ECP2_toOctet. */
  method ToOctet<A(==)>(g: Group<A>, a: A) returns (o: Octet<A>)
    ensures Writes(g, a, o)
  {
    if a == g.zero { o := *; } else { o := Point(a); }
  }

  /** The remainder of C: its sign is that of the dividend. */
  function CRem(a: int, b: int): int
    requires b > 0
  {
    if a >= 0 then a % b else -((-a) % b)
  }

  /** It is the remainder of a division that rounds towards zero. */
  lemma CRemIs(a: int, b: int)
    requires b > 0
    ensures var r := CRem(a, b); -b < r < b && (a - r) % b == 0 && (a >= 0 ==> r >= 0) && (a <= 0 ==> r <= 0)
  {
    var q := if a >= 0 then a / b else -((-a) / b);
    assert a - CRem(a, b) == q * b;
    DivModUnique(a - CRem(a, b), b, q, 0);
  }

  /** The multiple of H(ID) that a PIN stands for, after the reduction by MAXPIN. */
  function Alpha(pin: int): int { CRem(pin, MAXPIN) % 16384 }

  /** A PIN that is not negative stands for its last four digits. */
  lemma AlphaNatural(pin: int)
    requires pin >= 0
    ensures Alpha(pin) == pin % 10000
  {
  }

  /** ECP_pinmul over PBLEN bits; FP12_pinpow in the target group. */
  method PinMultiple<A(!new)>(g: Group<A>, a: A, pin: int) returns (r: A)
    requires AbelianGroup(g)
    ensures r == Times(g, pin % 16384, a)
  {
    assert Pow(2, 14) == 16384;
    r := PinMul(g, a, pin, PBLEN);
  }

  /** MPIN_EXTRACT_PIN: the token is the secret minus Alpha(pin)*H(ID). */
  method ExtractPin<A(==,!new)>(g: Group<A>, hid: A, pin: int, token: Octet<A>) returns (res: int, token': Octet<A>)
    requires AbelianGroup(g)
    ensures token.Blank? ==> res == -14 && token' == token
    ensures token.Point? ==> res == 0 && Writes(g, g.Sub(token.p, Times(g, Alpha(pin), hid)), token')
  {
    if token.Blank? { return MPIN_INVALID_POINT, token; }
    var q := CRem(pin, MAXPIN);
    var r := PinMultiple(g, hid, q);
    res := MPIN_OK;
    token' := ToOctet(g, g.Sub(token.p, r));
  }

  /** What MPIN_CLIENT_1 writes. */
  datatype Pass1<A> = Pass1(sec: Octet<A>, xid: Octet<A>, xcid: Octet<A>)

  /** Whether PERMIT was passed, and what it holds. */
  datatype Permit<A> = NoPermit | Permit(o: Octet<A>)

  /** The client's secret put together again: token, PIN part and time permit. */
  ghost function Secret<A>(g: Group<A>, date: int, hid: A, pin: int, token: A, permit: Permit<A>): A {
    var t := g.add(token, Times(g, Alpha(pin), hid));
    if date != 0 && permit.Permit? && permit.o.Point? then g.add(t, permit.o.p) else t
  }

  /** MPIN_CLIENT_1 with X passed in. */
  method Client1<A(==,!new)>(g: Group<A>, date: int, hid: A, htid: A, x: nat, pin: int, token: Octet<A>, permit: Permit<A>)
    returns (res: int, out: Pass1<A>)
    requires AbelianGroup(g) && x < SCALAR_LIMIT
    ensures token.Blank? ==> res == -14
    ensures token.Point? ==> res == if date != 0 && permit == Permit(Blank) then -14 else 0
    ensures res == 0 ==>
      && Writes(g, Secret(g, date, hid, pin, token.p, permit), out.sec)
      && Writes(g, Times(g, x, hid), out.xid)
      && (date != 0 ==> Writes(g, Times(g, x, g.add(hid, htid)), out.xcid))
  {
    var sec: Octet<A>, xid: Octet<A>, xcid: Octet<A> := Blank, Blank, Blank;
    res := MPIN_OK;
    if token.Blank? { return MPIN_INVALID_POINT, Pass1(sec, xid, xcid); }
    var T := token.p;
    var q := CRem(pin, MAXPIN);
    var W := PinMultiple(g, hid, q);
    T := g.add(T, W);
    if date != 0 {
      if permit.Permit? {
        if permit.o.Blank? {
          res := MPIN_INVALID_POINT;
        } else {
          T := g.add(T, permit.o.p);
        }
      }
      var P := Mul(g, hid, x);
      xid := ToOctet(g, P);
      W := Mul(g, htid, x);
      TimesSum(g, x, hid, htid);
      P := g.add(P, W);
      xcid := ToOctet(g, P);
    } else {
      var P := Mul(g, hid, x);
      xid := ToOctet(g, P);
    }
    if res == MPIN_OK { sec := ToOctet(g, T); }
    out := Pass1(sec, xid, xcid);
  }

  /** MPIN_CLIENT_2: minus (x+y) times the secret, with the sum reduced modulo the group order. */
  method Client2<A(==,!new), B(!new), T(!new)>(p: Pair<A, B, T>, x: nat, y: nat, sec: Octet<A>) returns (res: int, sec': Octet<A>)
    requires Bilinear(p) && p.order < SCALAR_LIMIT
    ensures sec.Blank? ==> res == -14 && sec' == sec
    ensures sec.Point? ==> res == 0 && Writes(p.g1, p.g1.neg(Times(p.g1, x + y, sec.p)), sec')
  {
    if sec.Blank? { return MPIN_INVALID_POINT, sec; }
    var px := x + y;
    CongMod(px, p.order);
    OrderMod1(p, px % p.order, px, sec.p);
    px := px % p.order;
    var P := Mul(p.g1, sec.p, px);
    P := p.g1.neg(P);
    res := MPIN_OK;
    sec' := ToOctet(p.g1, P);
  }

  /** MPIN_SERVER_1 */
  method Server1<A(==)>(g: Group<A>, date: int, hid: A, htid: A) returns (HID: Octet<A>, HTID: Octet<A>)
    ensures Writes(g, hid, HID) && (date != 0 ==> Writes(g, g.add(hid, htid), HTID))
  {
    HID := ToOctet(g, hid);
    HTID := Blank;
    if date != 0 { HTID := ToOctet(g, g.add(hid, htid)); }
  }

  /** What MPIN_SERVER_2 reports: the error, and on a wrong PIN the pair (E, F), or E alone. */
  datatype Verdict<T> = Verdict(res: int, clue: Clue<T>)
  datatype Clue<T> = NoClue | HalfClue(E: T) | Clue(E: T, F: T)

  /** The value that must be the unity: e(Q, V) * e(sQ, U + y*H). */
  ghost function Check<A, B, T>(p: Pair<A, B, T>, Q: B, sQ: B, U: A, H: A, y: nat, V: A): T {
    p.gt.add(p.e(Q, V), p.e(sQ, p.g1.add(Times(p.g1, y, H), U)))
  }

  /** MPIN_SERVER_2: accept exactly when the check value is the unity; otherwise, if asked (all four pointers given),
      report E, and F for H(ID) unless one of its octets is bad. */
  method Server2<A(==,!new), B(==,!new), T(==,!new)>(p: Pair<A, B, T>, Q: B, date: int, HID: Octet<A>, HTID: Octet<A>, y: nat,
      sst: Octet<B>, xID: Octet<A>, xCID: Octet<A>, mSEC: Octet<A>, ask: bool) returns (v: Verdict<T>)
    requires Bilinear(p) && y < SCALAR_LIMIT
    ensures var U, H := if date != 0 then xCID else xID, if date != 0 then HTID else HID;
      if sst.Blank? || U.Blank? || H.Blank? || mSEC.Blank? then v == Verdict(-14, NoClue)
      else
        var g := Check(p, Q, sst.p, U.p, H.p, y, mSEC.p);
        v == if g == p.gt.zero then Verdict(0, NoClue)
             else Verdict(-19,
               if !ask then NoClue
               else if HID.Blank? || xID.Blank? then HalfClue(g)
               else Clue(g, p.e(Q, p.g1.add(Times(p.g1, y, HID.p), xID.p))))
  {
    var invalid := Verdict(MPIN_INVALID_POINT, NoClue);
    if sst.Blank? { return invalid; }
    var U := if date != 0 then xCID else xID;
    if U.Blank? { return invalid; }
    var H := if date != 0 then HTID else HID;
    if H.Blank? { return invalid; }
    var P := Mul(p.g1, H.p, y);
    P := p.g1.add(P, U.p);
    if mSEC.Blank? { return invalid; }
    var g := p.gt.add(p.e(Q, mSEC.p), p.e(sst.p, P));
    if g == p.gt.zero { return Verdict(MPIN_OK, NoClue); }
    if !ask { return Verdict(MPIN_BAD_PIN, NoClue); }
    var E, ok := g, true;
    if date != 0 {
      if HID.Blank? || xID.Blank? {
        ok := false;
      } else {
        P := Mul(p.g1, HID.p, y);
        P := p.g1.add(P, xID.p);
      }
    }
    v := Verdict(MPIN_BAD_PIN, if ok then Clue(E, p.e(Q, P)) else HalfClue(E));
  }

  // ---------- a whole run ----------

  /** The points of a run, from the master secret s, the scalars x and y, and the points H(ID), H(T|ID). */
  ghost function Identity<A>(g: Group<A>, date: int, hid: A, htid: A): A {
    if date != 0 then g.add(hid, htid) else hid
  }

  /** The secret a client with the wrong PIN ends up with: off by Alpha(pin') - Alpha(pin) times H(ID). */
  ghost function Assembled<A>(g: Group<A>, date: int, s: int, hid: A, htid: A, pin: int, pin': int): A {
    g.add(Times(g, s, Identity(g, date, hid, htid)), Times(g, Alpha(pin') - Alpha(pin), hid))
  }

  /** No point that is sent or stored during the run is the point at infinity. */
  ghost predicate Finite<A, B, T>(p: Pair<A, B, T>, Q: B, date: int, s: nat, x: nat, y: nat, hid: A, htid: A, pin: int, pin': int) {
    var g := p.g1;
    var D, V := Identity(g, date, hid, htid), Assembled(g, date, s, hid, htid, pin, pin');
    && Times(g, s, hid) != g.zero && Times(g, s - Alpha(pin), hid) != g.zero
    && (date != 0 ==> Times(g, s, htid) != g.zero)
    && D != g.zero && Times(g, x, D) != g.zero && Times(p.g2, s, Q) != p.g2.zero
    && V != g.zero && g.neg(Times(g, x + y, V)) != g.zero
  }

  lemma Reassemble<A(!new)>(g: Group<A>, s: int, a: A, alpha: int, alpha': int)
    requires AbelianGroup(g)
    ensures g.Sub(Times(g, s, a), Times(g, alpha, a)) == Times(g, s - alpha, a)
    ensures g.add(Times(g, s - alpha, a), Times(g, alpha', a)) == g.add(Times(g, s, a), Times(g, alpha' - alpha, a))
  {
    TimesSub(g, s, alpha, a);
    TimesAdd(g, s - alpha, alpha', a);
    TimesAdd(g, s, alpha' - alpha, a);
  }

  /** With a time permit added, the secret is s times the combined identity, plus the PIN error. */
  lemma WithPermit<A(!new)>(g: Group<A>, s: int, hid: A, htid: A, err: A)
    requires AbelianGroup(g)
    ensures g.add(g.add(Times(g, s, hid), err), Times(g, s, htid)) == g.add(Times(g, s, g.add(hid, htid)), err)
  {
    var a, b := Times(g, s, hid), Times(g, s, htid);
    GAssociate(g, a, err, b);
    GCommute(g, err, b);
    GAssociate(g, a, b, err);
    TimesSum(g, s, hid, htid);
  }

  lemma SecretIsAssembled<A(!new)>(g: Group<A>, date: int, s: int, hid: A, htid: A, pin: int, pin': int, permit: Permit<A>)
    requires AbelianGroup(g) && (date != 0 ==> permit == Permit(Point(Times(g, s, htid))))
    ensures Secret(g, date, hid, pin', Times(g, s - Alpha(pin), hid), permit) == Assembled(g, date, s, hid, htid, pin, pin')
  {
    Reassemble(g, s, hid, Alpha(pin), Alpha(pin'));
    WithPermit(g, s, hid, htid, Times(g, Alpha(pin') - Alpha(pin), hid));
  }

  /** The check value of a run: all that depends on s cancels, and the PIN error is left. */
  lemma CheckOfRun<A(!new), B(!new), T(!new)>(p: Pair<A, B, T>, Q: B, s: nat, x: nat, y: nat, D: A, hid: A, err: int)
    requires Bilinear(p)
    ensures var V := p.g1.add(Times(p.g1, s, D), Times(p.g1, err, hid));
      Check(p, Q, Times(p.g2, s, Q), Times(p.g1, x, D), D, y, p.g1.neg(Times(p.g1, x + y, V)))
      == Times(p.gt, -((x + y) * err), p.e(Q, hid))
  {
    var g, n := p.g1, x + y;
    var V := g.add(Times(g, s, D), Times(g, err, hid));
    var d, h := p.e(Q, D), p.e(Q, hid);
    TimesAdd(g, y, x, D);
    ScalarLeft(p, s, Q, Times(g, n, D));
    ScalarRight(p, n, Q, D);
    TimesMul(p.gt, s, n, d);
    NegRight(p, Q, Times(g, n, V));
    ScalarRight(p, n, Q, V);
    AddRight(p, Q, Times(g, s, D), Times(g, err, hid));
    ScalarRight(p, s, Q, D);
    IntRight(p, err, Q, hid);
    TimesSum(p.gt, n, Times(p.gt, s, d), Times(p.gt, err, h));
    TimesMul(p.gt, n, s, d);
    TimesMul(p.gt, n, err, h);
    assert n * s == s * n;
    Cancel(p.gt, Times(p.gt, n * s, d), Times(p.gt, n * err, h));
    TimesNeg(p.gt, n * err, h);
  }

  lemma Cancel<G(!new)>(g: Group<G>, a: G, b: G)
    requires AbelianGroup(g)
    ensures g.add(g.neg(g.add(a, b)), a) == g.neg(b)
  {
    GNegAdd(g, a, b);
    GCommute(g, g.neg(a), g.neg(b));
    GAssociate(g, g.neg(b), g.neg(a), a);
    GUnit(g, a);
    GUnit(g, g.neg(b));
  }

  /** F is the pairing with (x+y)*H(ID), and E is F to the power of the PIN error. */
  lemma ClueOfRun<A(!new), B(!new), T(!new)>(p: Pair<A, B, T>, Q: B, x: nat, y: nat, hid: A, err: int)
    requires Bilinear(p)
    ensures var F := Times(p.gt, x + y, p.e(Q, hid));
      && p.e(Q, p.g1.add(Times(p.g1, y, hid), Times(p.g1, x, hid))) == F
      && Times(p.gt, -((x + y) * err), p.e(Q, hid)) == Times(p.gt, -err, F)
  {
    TimesAdd(p.g1, y, x, hid);
    ScalarRight(p, x + y, Q, hid);
    TimesMul(p.gt, -err, x + y, p.e(Q, hid));
    assert (-err) * (x + y) == -((x + y) * err);
  }

  /** Both client passes, from the token and permit of an enrolment. */
  method ClientSide<A(==,!new), B(!new), T(!new)>(p: Pair<A, B, T>, date: int, x: nat, y: nat, hid: A, htid: A, pin': int,
      token: Octet<A>, permit: Permit<A>, ghost s: int, ghost pin: int)
    returns (ok: bool, pass1: Pass1<A>, mSEC: Octet<A>)
    requires Bilinear(p) && p.order < SCALAR_LIMIT && x < SCALAR_LIMIT && y < SCALAR_LIMIT
    ensures var V := Assembled(p.g1, date, s, hid, htid, pin, pin');
      token == Point(Times(p.g1, s - Alpha(pin), hid)) && (date != 0 ==> permit == Permit(Point(Times(p.g1, s, htid)))) && V != p.g1.zero ==>
      && ok && Writes(p.g1, p.g1.neg(Times(p.g1, x + y, V)), mSEC)
      && Writes(p.g1, Times(p.g1, x, hid), pass1.xid)
      && (date != 0 ==> Writes(p.g1, Times(p.g1, x, p.g1.add(hid, htid)), pass1.xcid))
  {
    mSEC := Blank;
    if date == 0 || permit == Permit(Point(Times(p.g1, s, htid))) { SecretIsAssembled(p.g1, date, s, hid, htid, pin, pin', permit); }
    var res;
    res, pass1 := Client1(p.g1, date, hid, htid, x, pin', token, permit);
    if res == MPIN_OK {
      res, mSEC := Client2(p, x, y, pass1.sec);
    }
    ok := res == MPIN_OK;
  }

  /** What the server must find: acceptance exactly if (x+y) times the PIN error kills e(Q, H(ID)); otherwise E, and,
      if x*H(ID) is a point that can be sent, F with E = F^(-error). */
  ghost predicate RightVerdict<A, B, T>(p: Pair<A, B, T>, Q: B, date: int, x: nat, y: nat, hid: A, err: int, v: Verdict<T>) {
    var g, F := Times(p.gt, -((x + y) * err), p.e(Q, hid)), Times(p.gt, x + y, p.e(Q, hid));
    if g == p.gt.zero then v == Verdict(0, NoClue)
    else
      && v.res == -19 && v.clue != NoClue && v.clue.E == g
      && (hid != p.g1.zero && Times(p.g1, x, hid) != p.g1.zero ==> v.clue == Clue(g, F) && g == Times(p.gt, -err, F))
  }

  /** Both server passes. */
  method ServerSide<A(==,!new), B(==,!new), T(==,!new)>(p: Pair<A, B, T>, Q: B, date: int, x: nat, y: nat, hid: A, htid: A,
      sst: Octet<B>, pass1: Pass1<A>, mSEC: Octet<A>, ghost s: nat, ghost err: int) returns (v: Verdict<T>)
    requires Bilinear(p) && y < SCALAR_LIMIT
    ensures var D := Identity(p.g1, date, hid, htid);
      D != p.g1.zero && sst == Point(Times(p.g2, s, Q)) && (if date != 0 then pass1.xcid else pass1.xid) == Point(Times(p.g1, x, D))
      && mSEC == Point(p.g1.neg(Times(p.g1, x + y, p.g1.add(Times(p.g1, s, D), Times(p.g1, err, hid)))))
      && Writes(p.g1, Times(p.g1, x, hid), pass1.xid)
      ==> RightVerdict(p, Q, date, x, y, hid, err, v)
  {
    var HID, HTID := Server1(p.g1, date, hid, htid);
    CheckOfRun(p, Q, s, x, y, Identity(p.g1, date, hid, htid), hid, err);
    ClueOfRun(p, Q, x, y, hid, err);
    v := Server2(p, Q, date, HID, HTID, y, sst, pass1.xid, pass1.xcid, mSEC, true);
  }

  /** Enrolment with one PIN and a login with another, with or without time permit.  If no point that must be sent is
      the point at infinity, the verdict is right; otherwise indeterminate octets are sent and nothing is known. */
  method Run<A(==,!new), B(==,!new), T(==,!new)>(p: Pair<A, B, T>, Q: B, date: int, s: nat, x: nat, y: nat, hid: A, htid: A, pin: int, pin': int)
    returns (v: Verdict<T>)
    requires Bilinear(p) && p.order < SCALAR_LIMIT && s < SCALAR_LIMIT && x < SCALAR_LIMIT && y < SCALAR_LIMIT
    ensures Finite(p, Q, date, s, x, y, hid, htid, pin, pin') ==> RightVerdict(p, Q, date, x, y, hid, Alpha(pin') - Alpha(pin), v)
    ensures Finite(p, Q, date, s, x, y, hid, htid, pin, pin') ==>
      (v.res == 0 <==> Times(p.gt, -((x + y) * (Alpha(pin') - Alpha(pin))), p.e(Q, hid)) == p.gt.zero)
  {
    var token, permit, sst := Enrol(p, Q, date, s, hid, htid, pin);
    v := Verdict(MPIN_INVALID_POINT, NoClue);
    var ok, pass1, mSEC := ClientSide(p, date, x, y, hid, htid, pin', token, permit, s, pin);
    if ok {
      v := ServerSide(p, Q, date, x, y, hid, htid, sst, pass1, mSEC, s, Alpha(pin') - Alpha(pin));
    }
  }

  // ---------- what the verdict means in a group of prime order ----------

  /** t has order exactly r. */
  ghost predicate ExactOrder<T(!new)>(g: Group<T>, r: int, t: T) {
    r > 0 && forall n: int {:trigger Times(g, n, t)} :: Times(g, n, t) == g.zero <==> n % r == 0
  }

  /** Euclid's property of a prime. */
  ghost predicate PrimeOrder(r: int) {
    r > 1 && forall a: int, b: int {:trigger At2(a, b)} :: At2(a, b) && (a * b) % r == 0 ==> a % r == 0 || b % r == 0
  }

  lemma MultipleMod(a: int, b: int, r: int)
    requires r > 0 && a % r == 0
    ensures (a * b) % r == 0
  {
    var q := a / r;
    assert a * b == (q * b) * r;
    DivModUnique(a * b, r, q * b, 0);
  }

  /** Among complete runs, exactly those with an equivalent PIN are accepted. */
  lemma AcceptedIff<A(!new), B(!new), T(!new)>(p: Pair<A, B, T>, Q: B, date: int, s: nat, x: nat, y: nat, hid: A, htid: A, pin: int, pin': int)
    requires Bilinear(p) && PrimeOrder(p.order) && p.order > 16384 && ExactOrder(p.gt, p.order, p.e(Q, hid))
    requires Finite(p, Q, date, s, x, y, hid, htid, pin, pin')
    ensures Times(p.gt, -((x + y) * (Alpha(pin') - Alpha(pin))), p.e(Q, hid)) == p.gt.zero <==> Alpha(pin') == Alpha(pin)
  {
    var n, err, r := x + y, Alpha(pin') - Alpha(pin), p.order;
    if n % r == 0 {
      var V := Assembled(p.g1, date, s, hid, htid, pin, pin');
      CongMod(n, r);
      OrderMod1(p, 0, n, V);
      TimesNone(p.g1, V);
      GZeroNeg(p.g1);
    }
    NegMod(n * err, r);
    ProductVanishes(n, err, r);
  }

  /** The result of a right verdict: 0 for acceptance, which is for the right PIN; -19 otherwise. */
  lemma VerdictMeans<A(!new), B(!new), T(!new)>(p: Pair<A, B, T>, Q: B, date: int, s: nat, x: nat, y: nat, hid: A, htid: A, pin: int, pin': int, v: Verdict<T>)
    requires Bilinear(p) && PrimeOrder(p.order) && p.order > 16384 && ExactOrder(p.gt, p.order, p.e(Q, hid))
    requires Finite(p, Q, date, s, x, y, hid, htid, pin, pin')
    requires RightVerdict(p, Q, date, x, y, hid, Alpha(pin') - Alpha(pin), v)
    ensures (v.res == 0 <==> Alpha(pin') == Alpha(pin)) && (v.res == 0 || v.res == -19)
    ensures 0 <= pin && 0 <= pin' ==> (v.res == 0 <==> pin % 10000 == pin' % 10000)
  {
    AcceptedIff(p, Q, date, s, x, y, hid, htid, pin, pin');
    if 0 <= pin && 0 <= pin' {
      AlphaNatural(pin);
      AlphaNatural(pin');
    }
  }

  /** A login in groups of prime order: accepted exactly if the last four digits of the PIN are those enrolled. */
  method Login<A(==,!new), B(==,!new), T(==,!new)>(p: Pair<A, B, T>, Q: B, date: int, s: nat, x: nat, y: nat, hid: A, htid: A, pin: int, pin': int)
    returns (v: Verdict<T>)
    requires Bilinear(p) && 16384 < p.order < SCALAR_LIMIT && PrimeOrder(p.order) && ExactOrder(p.gt, p.order, p.e(Q, hid))
    requires s < SCALAR_LIMIT && x < SCALAR_LIMIT && y < SCALAR_LIMIT && 0 <= pin && 0 <= pin'
    requires Finite(p, Q, date, s, x, y, hid, htid, pin, pin')
    ensures v.res == if pin % 10000 == pin' % 10000 then 0 else -19
    ensures pin < 10000 && pin' < 10000 ==> (v.res == 0 <==> pin == pin')
  {
    v := Run(p, Q, date, s, x, y, hid, htid, pin, pin');
    VerdictMeans(p, Q, date, s, x, y, hid, htid, pin, pin', v);
  }

  /** A small error times a non-multiple of a prime is a multiple of it only if it is 0. */
  lemma ProductVanishes(n: int, err: int, r: int)
    requires PrimeOrder(r) && n % r != 0 && -r < err < r
    ensures (n * err) % r == 0 <==> err == 0
  {
    if err == 0 {
      assert n * err == 0;
    } else if (n * err) % r == 0 {
      assert At2(n, err);
      assert err % r == 0;
      SmallMultiple(err, r);
    }
  }

  lemma NegMod(a: int, r: int)
    requires r > 0
    ensures (-a) % r == 0 <==> a % r == 0
  {
    if a % r == 0 { MultipleMod(a, -1, r); }
    if (-a) % r == 0 { MultipleMod(-a, -1, r); }
  }

  lemma SmallMultiple(a: int, r: int)
    requires r > 0 && -r < a < r && a % r == 0
    ensures a == 0
  {
    if a > 0 { DivModUnique(a, r, 0, a); }
    if a < 0 { DivModUnique(a, r, -1, a + r); }
  }

  /** MPIN_GET_CLIENT_SECRET and MPIN_EXTRACT_PIN, MPIN_GET_CLIENT_PERMIT, MPIN_GET_SERVER_SECRET. */
  method Enrol<A(==,!new), B(==,!new), T(!new)>(p: Pair<A, B, T>, Q: B, date: int, s: nat, hid: A, htid: A, pin: int)
    returns (token: Octet<A>, permit: Permit<A>, sst: Octet<B>)
    requires Bilinear(p) && s < SCALAR_LIMIT
    ensures Times(p.g1, s, hid) != p.g1.zero ==> Writes(p.g1, Times(p.g1, s - Alpha(pin), hid), token)
    ensures if date != 0 then permit.Permit? && Writes(p.g1, Times(p.g1, s, htid), permit.o) else permit == NoPermit
    ensures Writes(p.g2, Times(p.g2, s, Q), sst)
  {
    var c := Mul(p.g1, hid, s);
    var res;
    TimesSub(p.g1, s, Alpha(pin), hid);
    token := ToOctet(p.g1, c);
    res, token := ExtractPin(p.g1, hid, pin, token);
    permit := NoPermit;
    if date != 0 {
      var t := Mul(p.g1, htid, s);
      var o := ToOctet(p.g1, t);
      permit := Permit(o);
    }
    var q := Mul(p.g2, Q, s);
    sst := ToOctet(p.g2, q);
  }

  // ---------- M-Pin Full: the session key ----------

  /** What the key derivation adds: Frobenius, the trace into FP4 and the trace arithmetic. */
  datatype KeyOps<!T, !K> = KeyOps(frob: T -> T, modulus: int, trace: T -> K, xtr: Xtr.XtrOps<K>)

  /** The traces of the powers of t. */
  ghost function Traces<T, K>(gt: Group<T>, k: KeyOps<T, K>, t: T): int -> K {
    n => k.trace(Times(gt, n, t))
  }

  ghost predicate KeyLaws<A, B, T(!new), K>(p: Pair<A, B, T>, k: KeyOps<T, K>) {
    && p.order > 0 && k.modulus > 0
    && forall t: T {:trigger At1(t)} :: At1(t) ==>
         k.frob(t) == Times(p.gt, k.modulus, t) && Xtr.Lawful(k.xtr, Traces(p.gt, k, t))
  }

  lemma KeyLawsAt<A, B, T(!new), K>(p: Pair<A, B, T>, k: KeyOps<T, K>, t: T)
    requires KeyLaws(p, k)
    ensures k.frob(t) == Times(p.gt, k.modulus, t) && Xtr.Lawful(k.xtr, Traces(p.gt, k, t))
  {
    assert At1(t);
  }

  /** What mpin_hash is given: a trace and a point. */
  datatype KeyInput<K, A> = NoKey | KeyInput(c: K, W: A)

  /** MPIN_PRECOMPUTE with the fixed generator. */
  method Precompute<A(!new), B(!new), T(!new)>(p: Pair<A, B, T>, Q: B, token: Octet<A>, hid: A) returns (res: int, g1: T, g2: T)
    ensures token.Blank? ==> res == -14
    ensures token.Point? ==> res == 0 && g1 == p.e(Q, token.p) && g2 == p.e(Q, hid)
  {
    if token.Blank? { return MPIN_INVALID_POINT, p.gt.zero, p.gt.zero; }
    return MPIN_OK, p.e(Q, token.p), p.e(Q, hid);
  }

  /** z = a + b*m with m the modulus reduced by the order, so g^(a + b*modulus) is g^z. */
  lemma SplitExponent<A(!new), B(!new), T(!new)>(p: Pair<A, B, T>, modulus: int, z: int, t: T)
    requires Bilinear(p) && modulus % p.order > 0
    ensures var m := modulus % p.order;
      Times(p.gt, (z / m) * modulus + (z % m), t) == Times(p.gt, z, t)
  {
    var m, r := modulus % p.order, p.order;
    var a, b := z % m, z / m;
    CongMod(modulus, r);
    CongMul(b, b, modulus, m, r);
    CongAdd(b * modulus, b * m, a, a, r);
    assert b * m + a == z;
    OrderModT(p, b * modulus + a, z, t);
  }

  /** The exponents MPIN_CLIENT_KEY hands to the double exponentiation. */
  function KeyExponent(r: nat, h: nat, order: int): int
    requires order > 0
  {
    (r + h) % order
  }

  /** Both parts of the split exponent are positive. */
  ghost predicate BothParts(z: int, m: int)
    requires m > 0
  {
    z % m > 0 && z / m > 0
  }

  /** Exactly then does MPIN_CLIENT_KEY come back from the double exponentiation. */
  lemma KeyStepEnds<K>(o: Xtr.XtrOps<K>, z: nat, m: nat, cu: K, cv: K, cumv: K, cum2v: K)
    requires m > 0
    ensures Xtr.Ends(o, Xtr.Walk(z / m, z % m, cu, cv, cumv, cum2v)) <==> BothParts(z, m)
  {
    QuotientAtLeast(z, m, 0);
    Xtr.EndsIffPositive(o, Xtr.Walk(z / m, z % m, cu, cv, cumv, cum2v));
  }

  /** MPIN_CLIENT_KEY: the trace of (g1 * g2^pin)^z for z = (r + h) mod order, and the point x*W, whenever it
      comes back (KeyStepEnds). */
  method ClientKey<A(!new,==), B(!new), T(!new), K>(p: Pair<A, B, T>, k: KeyOps<T, K>, g1: T, g2: T, pin: int, r: nat, x: nat, h: nat, wCID: Octet<A>)
    returns (res: int, key: KeyInput<K, A>)
    requires Bilinear(p) && KeyLaws(p, k) && k.modulus % p.order > 0 && x < SCALAR_LIMIT
    requires wCID.Point? ==> BothParts(KeyExponent(r, h, p.order), k.modulus % p.order)
    ensures wCID.Blank? ==> res == -14 && key == NoKey
    ensures wCID.Point? ==> res == 0 && key == KeyInput(
      k.trace(Times(p.gt, KeyExponent(r, h, p.order), p.gt.add(g1, Times(p.gt, pin % 16384, g2)))), Times(p.g1, x, wCID.p))
  {
    if wCID.Blank? { return MPIN_INVALID_POINT, NoKey; }
    var z := (r + h) % p.order;
    var W := Mul(p.g1, wCID.p, x);
    var m := k.modulus % p.order;
    var a, b := z % m, z / m;
    var gp := PinMultiple(p.gt, g2, pin);
    var g := p.gt.add(g1, gp);
    var c := k.trace(g);
    var f := k.frob(g);
    var cp := k.trace(f);
    var inv := p.gt.neg(g);
    f := p.gt.add(f, inv);
    var cpm1 := k.trace(f);
    f := p.gt.add(f, inv);
    var cpm2 := k.trace(f);
    ghost var n := k.modulus;
    KeyLawsAt(p, k, g);
    TimesOne(p.gt, g);
    TimesPrev(p.gt, n, g);
    TimesPrev(p.gt, n - 1, g);
    c := Xtr.XtrPow2(k.xtr, cp, c, cpm1, cpm2, a, b, Traces(p.gt, k, g), n, 1);
    SplitExponent(p, n, z, g);
    return MPIN_OK, KeyInput(c, W);
  }

  /** MPIN_SERVER_KEY: the trace of e(sQ, Z + h*A), and the point w*U. */
  method ServerKey<A(!new,==), B(!new), T(!new), K>(p: Pair<A, B, T>, k: KeyOps<T, K>, Z: Octet<A>, sst: Octet<B>, w: nat, h: nat,
      HID: Octet<A>, xID: Octet<A>, xCID: Permit<A>) returns (res: int, key: KeyInput<K, A>)
    requires Bilinear(p) && w < SCALAR_LIMIT && h < SCALAR_LIMIT
    ensures var U := if xCID.Permit? then xCID.o else xID;
      if sst.Blank? || Z.Blank? || HID.Blank? || U.Blank? then res == -14 && key == NoKey
      else res == 0 && key == KeyInput(k.trace(p.e(sst.p, p.g1.add(Z.p, Times(p.g1, h, HID.p)))), Times(p.g1, w, U.p))
  {
    res, key := MPIN_OK, NoKey;
    if sst.Blank? { res := MPIN_INVALID_POINT; }
    if Z.Blank? { res := MPIN_INVALID_POINT; }
    if HID.Blank? { res := MPIN_INVALID_POINT; }
    var U := if xCID.Permit? then xCID.o else xID;
    if U.Blank? { res := MPIN_INVALID_POINT; }
    if res == MPIN_OK {
      var A := Mul(p.g1, HID.p, h);
      var R := p.g1.add(Z.p, A);
      var g := p.e(sst.p, R);
      var uw := Mul(p.g1, U.p, w);
      var c := k.trace(g);
      key := KeyInput(c, uw);
    }
  }

  /** The two sides exponentiate the same element: e(Q, (s + d)A)^z against e(sQ, (r + h)A), for a PIN
      part that is off by d. */
  lemma KeysOnOneElement<A(!new), B(!new), T(!new)>(p: Pair<A, B, T>, Q: B, s: nat, r: nat, h: nat, a: A, d: int)
    requires Bilinear(p)
    ensures var e := p.e(Q, a);
      && Times(p.gt, KeyExponent(r, h, p.order), Times(p.gt, s + d, e)) == Times(p.gt, (s + d) * (r + h), e)
      && p.e(Times(p.g2, s, Q), p.g1.add(Times(p.g1, r, a), Times(p.g1, h, a))) == Times(p.gt, s * (r + h), e)
  {
    var e, n := p.e(Q, a), r + h;
    CongMod(n, p.order);
    OrderModT(p, n % p.order, n, Times(p.gt, s + d, e));
    TimesMul(p.gt, n, s + d, e);
    assert n * (s + d) == (s + d) * n;
    TimesAdd(p.g1, r, h, a);
    ScalarLeft(p, s, Q, Times(p.g1, n, a));
    ScalarRight(p, n, Q, a);
    TimesMul(p.gt, s, n, e);
  }

  /** g1 * g2^pin is e(Q, (s + d)A) with d the pin that the key step uses minus the one that was extracted. */
  lemma KeyBase<A(!new), B(!new), T(!new)>(p: Pair<A, B, T>, Q: B, s: nat, a: A, alpha: int, beta: int)
    requires Bilinear(p)
    ensures p.gt.add(p.e(Q, Times(p.g1, s - alpha, a)), Times(p.gt, beta, p.e(Q, a))) == Times(p.gt, s + (beta - alpha), p.e(Q, a))
  {
    IntRight(p, s - alpha, Q, a);
    TimesAdd(p.gt, s - alpha, beta, p.e(Q, a));
  }

  /** Both key inputs of an honest session: w*(A or A+AT) was sent to the client, r*A and x*(A or A+AT) to
      the server.  The points agree always; the traces are of elements that differ by
      (pin mod 2^14 - Alpha(pin)) * (r + h) times e(Q, A). */
  method SessionKeys<A(==,!new), B(==,!new), T(!new), K>(p: Pair<A, B, T>, k: KeyOps<T, K>, Q: B, s: nat, x: nat, w: nat, r: nat, h: nat,
      hid: A, D: A, pin: int) returns (client: KeyInput<K, A>, server: KeyInput<K, A>)
    requires Bilinear(p) && KeyLaws(p, k) && k.modulus % p.order > 0
    requires s < SCALAR_LIMIT && x < SCALAR_LIMIT && w < SCALAR_LIMIT && r < SCALAR_LIMIT && h < SCALAR_LIMIT
    requires BothParts(KeyExponent(r, h, p.order), k.modulus % p.order)
    requires hid != p.g1.zero && Times(p.g1, s - Alpha(pin), hid) != p.g1.zero && Times(p.g1, r, hid) != p.g1.zero
    requires Times(p.g1, x, D) != p.g1.zero && Times(p.g1, w, D) != p.g1.zero && Times(p.g2, s, Q) != p.g2.zero
    ensures client.KeyInput? && server.KeyInput? && client.W == server.W == Times(p.g1, x * w, D)
    ensures server.c == k.trace(Times(p.gt, s * (r + h), p.e(Q, hid)))
    ensures client.c == k.trace(Times(p.gt, (s + (pin % 16384 - Alpha(pin))) * (r + h), p.e(Q, hid)))
  {
    client := ClientSession(p, k, Q, s, x, w, r, h, hid, D, pin);
    server := ServerSession(p, k, Q, s, x, w, r, h, hid, D);
  }

  method ClientSession<A(==,!new), B(!new), T(!new), K>(p: Pair<A, B, T>, k: KeyOps<T, K>, Q: B, s: nat, x: nat, w: nat, r: nat, h: nat,
      hid: A, D: A, pin: int) returns (key: KeyInput<K, A>)
    requires Bilinear(p) && KeyLaws(p, k) && k.modulus % p.order > 0 && s < SCALAR_LIMIT && x < SCALAR_LIMIT && w < SCALAR_LIMIT
    requires BothParts(KeyExponent(r, h, p.order), k.modulus % p.order)
    requires Times(p.g1, s - Alpha(pin), hid) != p.g1.zero
    ensures key == KeyInput(k.trace(Times(p.gt, (s + (pin % 16384 - Alpha(pin))) * (r + h), p.e(Q, hid))), Times(p.g1, x * w, D))
  {
    var token := Token(p.g1, s, hid, pin);
    var res, g1, g2 := Precompute(p, Q, token, hid);
    var wD := Mul(p.g1, D, w);
    TimesMul(p.g1, x, w, D);
    KeyBase(p, Q, s, hid, Alpha(pin), pin % 16384);
    KeysOnOneElement(p, Q, s, r, h, hid, pin % 16384 - Alpha(pin));
    res, key := ClientKey(p, k, g1, g2, pin, r, x, h, Point(wD));
  }

  method ServerSession<A(==,!new), B(==,!new), T(!new), K>(p: Pair<A, B, T>, k: KeyOps<T, K>, Q: B, s: nat, x: nat, w: nat, r: nat, h: nat,
      hid: A, D: A) returns (key: KeyInput<K, A>)
    requires Bilinear(p) && s < SCALAR_LIMIT && x < SCALAR_LIMIT && w < SCALAR_LIMIT && r < SCALAR_LIMIT && h < SCALAR_LIMIT
    ensures key == KeyInput(k.trace(Times(p.gt, s * (r + h), p.e(Q, hid))), Times(p.g1, x * w, D))
  {
    var xD := Mul(p.g1, D, x);
    var rA := Mul(p.g1, hid, r);
    var sQ := Mul(p.g2, Q, s);
    TimesMul(p.g1, w, x, D);
    assert w * x == x * w;
    KeysOnOneElement(p, Q, s, r, h, hid, 0);
    var res;
    res, key := ServerKey(p, k, Point(rA), Point(sQ), w, h, Point(hid), Point(xD), NoPermit);
  }

  method Token<A(==,!new)>(g: Group<A>, s: nat, hid: A, pin: int) returns (token: Octet<A>)
    requires AbelianGroup(g) && s < SCALAR_LIMIT && Times(g, s - Alpha(pin), hid) != g.zero
    ensures token == Point(Times(g, s - Alpha(pin), hid))
  {
    var c := Mul(g, hid, s);
    var t := PinMultiple(g, hid, CRem(pin, MAXPIN));
    TimesSub(g, s, Alpha(pin), hid);
    token := ToOctet(g, g.Sub(c, t));
  }

  /** MPIN_CLIENT_KEY does not reduce the PIN by MAXPIN as the other steps do.  The two agree exactly when
      the quotient that the reduction discards is a multiple of 1024: for every PIN below MAXPIN, and for
      no other below 1024*MAXPIN. */
  lemma KeyPinAgrees(pin: int)
    ensures pin % 16384 == Alpha(pin) <==> ((if pin >= 0 then pin else -pin) / 10000) % 1024 == 0
  {
    var n := if pin >= 0 then pin else -pin;
    var q := n / 10000;
    assert n == 10000 * q + n % 10000;
    if pin >= 0 {
      PinQuotient(pin, n % 10000, q);
    } else {
      PinQuotient(pin, -(n % 10000), -q);
      NegMod(q, 1024);
    }
  }

  lemma PinQuotient(a: int, b: int, q: int)
    requires a == b + 10000 * q
    ensures a % 16384 == b % 16384 <==> q % 1024 == 0
  {
    if q % 1024 == 0 {
      var j := q / 1024;
      assert 10000 * q == (625 * j) * 16384;
      CongIntro(a, b, 625 * j, 16384);
    }
    if Cong(a, b, 16384) {
      var k := CongElim(a, b, 16384);
      assert 625 * q == 1024 * k;
      Coprime625(q, k);
    }
  }

  /** 625 has the inverse 657 modulo 1024. */
  lemma Coprime625(q: int, k: int)
    requires 625 * q == 1024 * k
    ensures q % 1024 == 0
  {
    assert q == 1024 * (657 * k - 401 * q);
  }

  /** In a group of prime order the two sides take the trace of one element exactly for those PINs. */
  lemma SameElementIff<A(!new), B(!new), T(!new)>(p: Pair<A, B, T>, Q: B, s: nat, r: nat, h: nat, hid: A, pin: int)
    requires Bilinear(p) && PrimeOrder(p.order) && p.order > 16384 && ExactOrder(p.gt, p.order, p.e(Q, hid))
    requires KeyExponent(r, h, p.order) > 0
    ensures Times(p.gt, (s + (pin % 16384 - Alpha(pin))) * (r + h), p.e(Q, hid)) == Times(p.gt, s * (r + h), p.e(Q, hid))
       <==> ((if pin >= 0 then pin else -pin) / 10000) % 1024 == 0
  {
    var t, n, d := p.e(Q, hid), r + h, pin % 16384 - Alpha(pin);
    assert (s + d) * n == s * n + n * d;
    TimesAdd(p.gt, s * n, n * d, t);
    var a, b := Times(p.gt, s * n, t), Times(p.gt, n * d, t);
    GUnit(p.gt, a);
    if p.gt.add(a, b) == a {
      GAssociate(p.gt, p.gt.neg(a), a, b);
      GUnit(p.gt, b);
    }
    ProductVanishes(n, d, p.order);
    KeyPinAgrees(pin);
  }

  /** A PIN of MAXPIN already parts the two sides. */
  lemma KeyPinDiffers()
    ensures 10000 % 16384 != Alpha(10000)
  {
  }
}
