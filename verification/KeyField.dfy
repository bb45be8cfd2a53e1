/**
 * The session keys of M-Pin Full over the FP4 operations themselves: the trace arithmetic that MPIN_CLIENT_KEY uses is
 * that of fp4.c, applied to traces of unitary elements of an extension ring.
 */
module KeyField {
  import opened Algebra
  import opened Pairing
  import opened ScalarMul
  import opened MPin
  import F4 = Fp4
  import Xtr

  /** The powers of t, and of its two conjugates over FP4, in the extension ring. */
  datatype Conjugates<!T, !L> = Conjugates(e0: T -> int -> L, e1: T -> int -> L, e2: T -> int -> L)

  /** Traces are sums of three conjugates with product one, conjugation of FP4 inverts, and Frobenius is the power by the
      modulus. */
  ghost predicate TracesInFp4<A, B, T(!new), F(!new), L(!new)>(p: Pair<A, B, T>, k: KeyOps<T, F4.Fp4<F>>, f: F4.Base<F>, ring: Ring<L>,
      iota: F4.Fp4<F> -> L, c: Conjugates<T, L>) {
    && p.order > 0 && k.modulus > 0 && k.xtr == f.Ops()
    && f.Valid() && CommutativeRing(ring) && F4.Embeds(f, ring, iota)
    && forall t: T {:trigger At1(t)} :: At1(t) ==>
         && k.frob(t) == Times(p.gt, k.modulus, t)
         && F4.TraceSequence(f, ring, iota, c.e0(t), c.e1(t), c.e2(t), Traces(p.gt, k, t))
  }

  /** What the key agreement assumes of its trace arithmetic holds of the FP4 operations. */
  lemma Fp4KeyLaws<A, B, T(!new), F(!new), L(!new)>(p: Pair<A, B, T>, k: KeyOps<T, F4.Fp4<F>>, f: F4.Base<F>, ring: Ring<L>,
      iota: F4.Fp4<F> -> L, c: Conjugates<T, L>)
    requires TracesInFp4(p, k, f, ring, iota, c)
    ensures KeyLaws(p, k)
  {
    forall t: T {:trigger At1(t)} | At1(t) ensures k.frob(t) == Times(p.gt, k.modulus, t) && Xtr.Lawful(k.xtr, Traces(p.gt, k, t)) {
      F4.Fp4Lawful(f, ring, iota, c.e0(t), c.e1(t), c.e2(t), Traces(p.gt, k, t));
    }
  }

  /** Both key inputs of an honest session, computed with the FP4 operations: for a PIN below MAXPIN they are equal. */
  method SessionKeysInFp4<A(==,!new), B(==,!new), T(!new), F(!new), L(!new)>(p: Pair<A, B, T>, k: KeyOps<T, F4.Fp4<F>>,
      ghost f: F4.Base<F>, ghost ring: Ring<L>, ghost iota: F4.Fp4<F> -> L, ghost c: Conjugates<T, L>,
      Q: B, s: nat, x: nat, w: nat, r: nat, h: nat, hid: A, D: A, pin: int)
    returns (client: KeyInput<F4.Fp4<F>, A>, server: KeyInput<F4.Fp4<F>, A>)
    requires Bilinear(p) && TracesInFp4(p, k, f, ring, iota, c) && k.modulus % p.order > 0
    requires s < SCALAR_LIMIT && x < SCALAR_LIMIT && w < SCALAR_LIMIT && r < SCALAR_LIMIT && h < SCALAR_LIMIT
    requires BothParts(KeyExponent(r, h, p.order), k.modulus % p.order)
    requires hid != p.g1.zero && Times(p.g1, s - Alpha(pin), hid) != p.g1.zero && Times(p.g1, r, hid) != p.g1.zero
    requires Times(p.g1, x, D) != p.g1.zero && Times(p.g1, w, D) != p.g1.zero && Times(p.g2, s, Q) != p.g2.zero
    ensures client.KeyInput? && server.KeyInput? && client.W == server.W == Times(p.g1, x * w, D)
    ensures server.c == k.trace(Times(p.gt, s * (r + h), p.e(Q, hid)))
    ensures client.c == k.trace(Times(p.gt, (s + (pin % 16384 - Alpha(pin))) * (r + h), p.e(Q, hid)))
    ensures 0 <= pin < 10000 ==> client == server
  {
    Fp4KeyLaws(p, k, f, ring, iota, c);
    KeyPinAgrees(pin);
    client, server := SessionKeys(p, k, Q, s, x, w, r, h, hid, D, pin);
  }
}
