/**
 * Simultaneous normalisation of Jacobian points (ecp.c and ecp2.c, ECP_multiaffine and ECP2_multiaffine): one inversion
 * for the whole table.  The field is any commutative ring with an inversion that is right on units.
 */
module MultiAffine {
  import opened Algebra

  /** Jacobian coordinates: the affine point is (x/z^2, y/z^3). */
  datatype Jac<R> = Jac(x: R, y: R, z: R)

  ghost predicate Inverse<R>(k: Ring<R>, x: R, w: R) { k.mul(x, w) == k.one }

  ghost predicate Unit1<R(!new)>(k: Ring<R>, x: R) { exists w :: Inverse(k, x, w) }

  /** FP_inv: right on every unit. */
  ghost predicate Inversion<R(!new)>(k: Ring<R>, inv: R -> R) { forall x :: Unit1(k, x) ==> Inverse(k, x, inv(x)) }

  // ---------- products of z coordinates ----------

  /** z[0] * ... * z[i-1] */
  ghost function Before<R>(k: Ring<R>, z: seq<R>, i: nat): R
    requires i <= |z|
  {
    if i == 0 then k.one else k.mul(Before(k, z, i - 1), z[i - 1])
  }

  /** z[i] * ... * z[|z|-1] */
  ghost function From<R>(k: Ring<R>, z: seq<R>, i: nat): R
    requires i <= |z|
    decreases |z| - i
  {
    if i == |z| then k.one else k.mul(z[i], From(k, z, i + 1))
  }

  lemma {:induction false} Whole<R(!new)>(k: Ring<R>, z: seq<R>, i: nat)
    requires CommutativeRing(k) && i <= |z|
    ensures k.mul(Before(k, z, i), From(k, z, i)) == Before(k, z, |z|)
    decreases |z| - i
  {
    if i == |z| {
      Unit(k, Before(k, z, i));
    } else {
      Whole(k, z, i + 1);
      Associate(k, Before(k, z, i), z[i], From(k, z, i + 1));
    }
  }

  /** The product is a unit exactly if every factor is. */
  lemma {:induction false} UnitsIff<R(!new)>(k: Ring<R>, z: seq<R>, n: nat)
    requires CommutativeRing(k) && n <= |z|
    ensures Unit1(k, Before(k, z, n)) <==> forall i :: 0 <= i < n ==> Unit1(k, z[i])
  {
    if n == 0 {
      Unit(k, k.one);
      assert Inverse(k, k.one, k.one);
    } else {
      UnitsIff(k, z, n - 1);
      UnitProduct(k, Before(k, z, n - 1), z[n - 1]);
    }
  }

  lemma UnitProduct<R(!new)>(k: Ring<R>, x: R, y: R)
    requires CommutativeRing(k)
    ensures Unit1(k, k.mul(x, y)) <==> Unit1(k, x) && Unit1(k, y)
  {
    if Unit1(k, x) && Unit1(k, y) {
      var u :| Inverse(k, x, u);
      var v :| Inverse(k, y, v);
      Associate(k, x, y, k.mul(v, u));
      Associate(k, y, v, u);
      Unit(k, u);
      assert Inverse(k, k.mul(x, y), k.mul(v, u));
    }
    if Unit1(k, k.mul(x, y)) {
      var w :| Inverse(k, k.mul(x, y), w);
      Associate(k, x, y, w);
      assert Inverse(k, x, k.mul(y, w));
      Commute(k, x, y);
      Associate(k, y, x, w);
      assert Inverse(k, y, k.mul(x, w));
    }
  }

  /** The inverse of one coordinate from the product of all others and the inverse of the product of all. */
  lemma OneOfAll<R(!new)>(k: Ring<R>, z: seq<R>, i: nat, t: R)
    requires CommutativeRing(k) && i < |z| && Inverse(k, Before(k, z, |z|), t)
    ensures Inverse(k, z[i], k.mul(k.mul(Before(k, z, i), From(k, z, i + 1)), t))
  {
    var a, b, c := Before(k, z, i), z[i], From(k, z, i + 1);
    Whole(k, z, i);
    Associate(k, b, k.mul(a, c), t);
    Associate(k, b, a, c);
    Commute(k, b, a);
    Associate(k, a, b, c);
  }

  // ---------- the method ----------

  /** p and q are one affine point. */
  ghost predicate SamePoint<R>(k: Ring<R>, p: Jac<R>, q: Jac<R>)
  {
    q.z == k.one && k.mul(q.x, k.mul(p.z, p.z)) == p.x && k.mul(q.y, k.mul(p.z, k.mul(p.z, p.z))) == p.y
  }

  lemma Normalised<R(!new)>(k: Ring<R>, p: Jac<R>, w: R)
    requires CommutativeRing(k) && Inverse(k, p.z, w)
    ensures SamePoint(k, p, Jac(k.mul(p.x, k.mul(w, w)), k.mul(p.y, k.mul(w, k.mul(w, w))), k.one))
  {
    var z, ww, zz := p.z, k.mul(w, w), k.mul(p.z, p.z);
    Commute(k, z, w);
    Cancels(k, w, z, w, z);
    Unit(k, k.one);
    Cancels(k, w, z, ww, zz);
    Associate(k, p.x, ww, zz);
    Associate(k, p.y, k.mul(w, ww), k.mul(z, zz));
    Unit(k, p.x);
    Unit(k, p.y);
  }

  lemma Cancels<R(!new)>(k: Ring<R>, w: R, z: R, v: R, y: R)
    requires CommutativeRing(k) && k.mul(w, z) == k.one && k.mul(v, y) == k.one
    ensures k.mul(k.mul(w, v), k.mul(z, y)) == k.one
  {
    Associate(k, w, v, k.mul(z, y));
    Associate(k, v, z, y);
    Commute(k, v, z);
    Associate(k, z, v, y);
    Unit(k, z);
  }

  /** z holds the last coordinates of the points. */
  ghost predicate Zs<R>(s: seq<Jac<R>>, z: seq<R>) { |z| == |s| && forall i :: 0 <= i < |s| ==> s[i].z == z[i] }

  /** The forward pass: work[i] is the product of the coordinates before i. */
  method Products<R(!new)>(k: Ring<R>, P: array<Jac<R>>, work: array<R>, ghost z: seq<R>)
    requires CommutativeRing(k) && 2 <= P.Length == work.Length && (P as object) != (work as object) && Zs(P[..], z)
    modifies work
    ensures forall j :: 0 <= j < P.Length ==> work[j] == Before(k, z, j)
  {
    work[0] := k.one;
    work[1] := P[0].z;
    Unit(k, P[0].z);
    assert Before(k, z, 1) == k.mul(Before(k, z, 0), z[0]);
    var i := 2;
    while i < P.Length
      invariant 2 <= i <= P.Length && forall j :: 0 <= j < i ==> work[j] == Before(k, z, j)
    {
      assert Before(k, z, i) == k.mul(Before(k, z, i - 1), z[i - 1]);
      work[i] := k.mul(work[i - 1], P[i - 1].z);
      i := i + 1;
    }
  }

  /** The backward pass: work[i] becomes the inverse of coordinate i. */
  method Inverses<R(!new)>(k: Ring<R>, P: array<Jac<R>>, work: array<R>, t1: R, ghost z: seq<R>)
    requires CommutativeRing(k) && 2 <= P.Length == work.Length && (P as object) != (work as object) && Zs(P[..], z)
    requires forall j :: 0 <= j < P.Length ==> work[j] == Before(k, z, j)
    requires Inverse(k, Before(k, z, |z|), t1)
    modifies work
    ensures forall j :: 0 <= j < P.Length ==> Inverse(k, z[j], work[j])
  {
    var m := P.Length;
    var t2 := P[m - 1].z;
    LastInverse(k, z, t1);
    work[m - 1] := k.mul(work[m - 1], t1);
    var i := m - 2;
    while i > 0
      invariant 0 <= i <= m - 2 && t2 == From(k, z, i + 1)
      invariant forall j :: 0 <= j <= i ==> work[j] == Before(k, z, j)
      invariant forall j :: i < j < m ==> Inverse(k, z[j], work[j])
    {
      BackTurn(k, z, i, t1, work[i], t2);
      work[i] := k.mul(work[i], t2);
      work[i] := k.mul(work[i], t1);
      t2 := k.mul(P[i].z, t2);
      i := i - 1;
    }
    FirstInverse(k, z, t1, t2);
    work[0] := k.mul(t1, t2);
  }

  lemma BackTurn<R(!new)>(k: Ring<R>, z: seq<R>, i: nat, t: R, w: R, t2: R)
    requires CommutativeRing(k) && i < |z| && Inverse(k, Before(k, z, |z|), t) && w == Before(k, z, i) && t2 == From(k, z, i + 1)
    ensures Inverse(k, z[i], k.mul(k.mul(w, t2), t)) && k.mul(z[i], t2) == From(k, z, i)
  {
    OneOfAll(k, z, i, t);
  }

  lemma FirstInverse<R(!new)>(k: Ring<R>, z: seq<R>, t: R, t2: R)
    requires CommutativeRing(k) && |z| > 0 && Inverse(k, Before(k, z, |z|), t) && t2 == From(k, z, 1)
    ensures Inverse(k, z[0], k.mul(t, t2))
  {
    OneOfAll(k, z, 0, t);
    Unit(k, t2);
    Commute(k, t, t2);
  }

  lemma LastInverse<R(!new)>(k: Ring<R>, z: seq<R>, t: R)
    requires CommutativeRing(k) && |z| > 0 && Inverse(k, Before(k, z, |z|), t)
    ensures From(k, z, |z| - 1) == z[|z| - 1] && Inverse(k, z[|z| - 1], k.mul(Before(k, z, |z| - 1), t))
  {
    var n := |z| - 1;
    assert From(k, z, n) == k.mul(z[n], From(k, z, n + 1));
    Unit(k, z[n]);
    Unit(k, Before(k, z, n));
    OneOfAll(k, z, n, t);
  }

  /** Both passes, with the one inversion. */
  method InvertAll<R(!new)>(k: Ring<R>, inv: R -> R, P: array<Jac<R>>, work: array<R>, ghost z: seq<R>)
    requires CommutativeRing(k) && Inversion(k, inv) && 2 <= P.Length == work.Length && (P as object) != (work as object) && Zs(P[..], z)
    requires forall i :: 0 <= i < |z| ==> Unit1(k, z[i])
    modifies work
    ensures forall j :: 0 <= j < P.Length ==> Inverse(k, z[j], work[j])
  {
    var m := P.Length;
    Products(k, P, work, z);
    var t1 := k.mul(work[m - 1], P[m - 1].z);
    UnitsIff(k, z, m);
    t1 := inv(t1);
    Inverses(k, P, work, t1, z);
  }

  /** The last loop: point i is scaled by the inverse of its last coordinate. */
  method ScaleAll<R(!new)>(k: Ring<R>, P: array<Jac<R>>, work: array<R>)
    requires CommutativeRing(k) && P.Length == work.Length && (P as object) != (work as object)
    requires forall j :: 0 <= j < P.Length ==> Inverse(k, P[j].z, work[j])
    modifies P
    ensures forall i :: 0 <= i < P.Length ==> SamePoint(k, old(P[i]), P[i])
  {
    ghost var s := P[..];
    var i := 0;
    while i < P.Length
      invariant 0 <= i <= P.Length
      invariant forall j :: 0 <= j < i ==> SamePoint(k, s[j], P[j])
      invariant forall j :: i <= j < P.Length ==> P[j] == s[j]
    {
      Normalised(k, s[i], work[i]);
      var t1 := k.mul(work[i], work[i]);
      var x := k.mul(P[i].x, t1);
      t1 := k.mul(work[i], t1);
      var y := k.mul(P[i].y, t1);
      P[i] := Jac(x, y, k.one);
      i := i + 1;
    }
  }

  /** Every point becomes its own affine form, with one inversion; UnitsIff says that the product can be inverted
      exactly if every last coordinate can. */
  method Normalise<R(!new)>(k: Ring<R>, inv: R -> R, P: array<Jac<R>>, work: array<R>)
    requires CommutativeRing(k) && Inversion(k, inv) && 2 <= P.Length == work.Length && (P as object) != (work as object)
    requires forall i :: 0 <= i < P.Length ==> Unit1(k, P[i].z)
    modifies P, work
    ensures forall i :: 0 <= i < P.Length ==> SamePoint(k, old(P[i]), P[i])
  {
    ghost var s := P[..];
    ghost var z := seq(|s|, i requires 0 <= i < |s| => s[i].z);
    InvertAll(k, inv, P, work, z);
    ScaleAll(k, P, work);
  }
}
