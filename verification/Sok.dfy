/**
 * Sakai-Ohgishi-Kasahara key agreement (sok.c) and the encryption built on it (src/crypto.cpp, src/utils.cpp).  Hashing to points, the key derivation and the block cipher are parameters,
 * and so is the random initialisation vector.
 */
module Sok {
  import opened Algebra
  import opened Pairing
  import opened ScalarMul
  import opened Ghash
  import Gcm
  import opened MPin

  type Text = seq<Byte>

  /** idG1, idG2: H(ID) on either curve; dateG1, dateG2: H(date|H(ID)); kdf: trace and hash to an AES key. */
  datatype World<!A, !B, !T, !K> = World(p: Pair<A, B, T>, idG1: Text -> A, idG2: Text -> B,
    dateG1: (int, Text) -> A, dateG2: (int, Text) -> B, kdf: T -> K, aes: K -> (Block -> Block))

  const SOK_OK := 0
  const SOK_INVALID_POINT := -14

  datatype KeyResult<K> = Failed(error: int) | Key(k: K)

  // ---------- key agreement ----------

  /** SOK_PAIR1: the sender's side, e(H(B), s*H(A)), with time permits if date is set. */
  method Pair1<A, B, T, K>(w: World<A, B, T, K>, date: int, aKey: Octet<A>, aPermit: Octet<A>, bid: Text) returns (r: KeyResult<K>)
    ensures aKey.Blank? || (date != 0 && aPermit.Blank?) ==> r == Failed(-14)
    ensures aKey.Point? && date == 0 ==> r == Key(w.kdf(w.p.e(w.idG2(bid), aKey.p)))
    ensures aKey.Point? && date != 0 && aPermit.Point? ==>
      r == Key(w.kdf(w.p.e(w.p.g2.add(w.idG2(bid), w.dateG2(date, bid)), w.p.g1.add(aKey.p, aPermit.p))))
  {
    var BG2 := w.idG2(bid);
    if aKey.Blank? { return Failed(SOK_INVALID_POINT); }
    var sAG1 := aKey.p;
    if date != 0 {
      if aPermit.Blank? { return Failed(SOK_INVALID_POINT); }
      sAG1 := w.p.g1.add(sAG1, aPermit.p);
      BG2 := w.p.g2.add(BG2, w.dateG2(date, bid));
    }
    r := Key(w.kdf(w.p.e(BG2, sAG1)));
  }

  /** SOK_PAIR2: the receiver's side, e(s*H(B), H(A)). */
  method Pair2<A, B, T, K>(w: World<A, B, T, K>, date: int, bKey: Octet<B>, bPermit: Octet<B>, aid: Text) returns (r: KeyResult<K>)
    ensures bKey.Blank? || (date != 0 && bPermit.Blank?) ==> r == Failed(-14)
    ensures bKey.Point? && date == 0 ==> r == Key(w.kdf(w.p.e(bKey.p, w.idG1(aid))))
    ensures bKey.Point? && date != 0 && bPermit.Point? ==>
      r == Key(w.kdf(w.p.e(w.p.g2.add(bKey.p, bPermit.p), w.p.g1.add(w.idG1(aid), w.dateG1(date, aid)))))
  {
    var AG1 := w.idG1(aid);
    if bKey.Blank? { return Failed(SOK_INVALID_POINT); }
    var sBG2 := bKey.p;
    if date != 0 {
      if bPermit.Blank? { return Failed(SOK_INVALID_POINT); }
      sBG2 := w.p.g2.add(sBG2, bPermit.p);
      AG1 := w.p.g1.add(AG1, w.dateG1(date, aid));
    }
    r := Key(w.kdf(w.p.e(sBG2, AG1)));
  }

  /** Two shares of a point: SOK_GET_G1_SECRET and SOK_GET_G2_SECRET (or the permits) for either master
      secret, put together by SOK_RECOMBINE_G1 or SOK_RECOMBINE_G2.  A share at infinity is sent as indeterminate
      octets, and nothing is known of the sum. */
  method Shares<G(==,!new)>(g: Group<G>, s1: nat, s2: nat, h: G) returns (res: int, o: Octet<G>)
    requires AbelianGroup(g) && s1 < SCALAR_LIMIT && s2 < SCALAR_LIMIT
    ensures Times(g, s1, h) != g.zero && Times(g, s2, h) != g.zero ==> res == 0 && Writes(g, Times(g, s1 + s2, h), o)
    ensures res == 0 || res == -14
  {
    var p1 := ScalarMul.Mul(g, h, s1);
    var p2 := ScalarMul.Mul(g, h, s2);
    var o1 := ToOctet(g, p1);
    var o2 := ToOctet(g, p2);
    res, o := SOK_OK, Blank;
    if o1.Blank? { res := SOK_INVALID_POINT; }
    if o2.Blank? { res := SOK_INVALID_POINT; }
    if res == SOK_OK {
      TimesAdd(g, s1, s2, h);
      o := ToOctet(g, g.add(o1.p, o2.p));
    }
  }

  /** A share sum is usable: neither share nor their sum is the point at infinity. */
  ghost predicate Usable<G>(g: Group<G>, s1: nat, s2: nat, h: G) {
    Times(g, s1, h) != g.zero && Times(g, s2, h) != g.zero && Times(g, s1 + s2, h) != g.zero
  }

  /** e(b, s*a) = e(s*b, a). */
  lemma Symmetric<A(!new), B(!new), T(!new)>(p: Pair<A, B, T>, s: nat, a: A, b: B)
    requires Bilinear(p)
    ensures p.e(b, Times(p.g1, s, a)) == p.e(Times(p.g2, s, b), a)
  {
    ScalarRight(p, s, b, a);
    ScalarLeft(p, s, b, a);
  }

  /** Sender and receiver derive one key, with or without time permits. */
  method KeysAgree<A(==,!new), B(==,!new), T(!new), K>(w: World<A, B, T, K>, date: int, s1: nat, s2: nat, aid: Text, bid: Text)
    returns (k1: KeyResult<K>, k2: KeyResult<K>)
    requires Bilinear(w.p) && s1 < SCALAR_LIMIT && s2 < SCALAR_LIMIT
    requires Usable(w.p.g1, s1, s2, w.idG1(aid)) && Usable(w.p.g2, s1, s2, w.idG2(bid))
    requires date != 0 ==> Usable(w.p.g1, s1, s2, w.dateG1(date, aid)) && Usable(w.p.g2, s1, s2, w.dateG2(date, bid))
    ensures k1.Key? && k2 == k1
  {
    var r1, aKey := Shares(w.p.g1, s1, s2, w.idG1(aid));
    var r2, bKey := Shares(w.p.g2, s1, s2, w.idG2(bid));
    var aPermit: Octet<A>, bPermit: Octet<B> := Blank, Blank;
    if date != 0 {
      r1, aPermit := Shares(w.p.g1, s1, s2, w.dateG1(date, aid));
      r2, bPermit := Shares(w.p.g2, s1, s2, w.dateG2(date, bid));
    }
    ghost var s, a, b := s1 + s2, w.idG1(aid), w.idG2(bid);
    if date != 0 {
      TimesSum(w.p.g1, s, a, w.dateG1(date, aid));
      TimesSum(w.p.g2, s, b, w.dateG2(date, bid));
      Symmetric(w.p, s, w.p.g1.add(a, w.dateG1(date, aid)), w.p.g2.add(b, w.dateG2(date, bid)));
    } else {
      Symmetric(w.p, s, a, b);
    }
    k1 := Pair1(w, date, aKey, aPermit, bid);
    k2 := Pair2(w, date, bKey, bPermit, aid);
  }

  // ---------- hexadecimal strings ----------

  function HexChar(n: nat): char
    requires n < 16
  {
    "0123456789abcdef"[n]
  }

  /** The value of a hexadecimal digit of either case; -1 for any other character. */
  function HexNumber(c: char): (r: int)
    ensures -1 <= r < 16
  {
    if '0' <= c <= '9' then c as int - '0' as int
    else if 'a' <= c <= 'f' then c as int - 'a' as int + 10
    else if 'A' <= c <= 'F' then c as int - 'A' as int + 10
    else -1
  }

  ghost predicate IsHexValue(c: char, v: int) {
    -1 <= v < 16 && forall u {:trigger Marked(u)} :: Marked(u) && u == 9 ==> v == HexNumber(c)
  }

  /** The same, pinned down. */
  ghost function HexValue(c: char): (r: int)
    ensures -1 <= r < 16
  {
    assert IsHexValue(c, HexNumber(c));
    var v :| IsHexValue(c, v);
    v
  }

  lemma HexValueIs(c: char)
    ensures HexValue(c) == HexNumber(c)
  {
    assert Marked(9);
  }

  lemma HexCharValue(n: nat)
    requires n < 16
    ensures HexValue(HexChar(n)) == n
  {
    HexValueIs(HexChar(n));
  }

  function Nibble(b: seq<bool>): (n: nat)
    requires |b| == 4
    ensures n < 16
  {
    NibbleBound(b);
    BitsNat(b)
  }

  lemma NibbleBound(b: seq<bool>)
    requires |b| == 4
    ensures BitsNat(b) < 16
  {
    BitsNatBound(b);
    assert Two(4) == 16;
  }

  function HexByte(b: Byte): string { [HexChar(Nibble(b[..4])), HexChar(Nibble(b[4..]))] }

  /** HexEncode, as a function. */
  function Hex(s: Text): (r: string)
    ensures |r| == 2 * |s|
  {
    if |s| == 0 then "" else Hex(s[..|s| - 1]) + HexByte(s[|s| - 1])
  }

  ghost predicate HexDigits(s: string) { forall i :: 0 <= i < |s| ==> HexValue(s[i]) >= 0 }

  function TwoNibbles(hi: nat, lo: nat): Byte { NatBits(hi, 4) + NatBits(lo, 4) }

  ghost predicate IsByteOf(hi: nat, lo: nat, v: Byte) {
    forall u {:trigger Marked(u)} :: Marked(u) && u == 10 ==> v == TwoNibbles(hi, lo)
  }

  /** The byte with the given high and low nibble. */
  ghost function ByteOf(hi: nat, lo: nat): Byte {
    assert IsByteOf(hi, lo, TwoNibbles(hi, lo));
    var v: Byte :| IsByteOf(hi, lo, v);
    v
  }

  lemma ByteOfIs(hi: nat, lo: nat)
    ensures ByteOf(hi, lo) == TwoNibbles(hi, lo)
  {
    assert Marked(10);
  }

  /** The bytes of a string of an even number of hexadecimal digits. */
  ghost function Unhex(s: string): (r: Text)
    requires HexDigits(s) && |s| % 2 == 0
    ensures |r| == |s| / 2
  {
    if |s| == 0 then [] else Unhex(s[..|s| - 2]) + [ByteOf(HexValue(s[|s| - 2]), HexValue(s[|s| - 1]))]
  }

  lemma UnhexTwo(s: string, c: char, d: char)
    requires HexDigits(s) && |s| % 2 == 0 && HexValue(c) >= 0 && HexValue(d) >= 0
    ensures HexDigits(s + [c, d]) && Unhex(s + [c, d]) == Unhex(s) + [ByteOf(HexValue(c), HexValue(d))]
  {
    var t := s + [c, d];
    assert t[..|t| - 2] == s && t[|t| - 2] == c && t[|t| - 1] == d;
  }

  lemma HexByteBack(b: Byte)
    ensures HexDigits(HexByte(b)) && ByteOf(HexValue(HexByte(b)[0]), HexValue(HexByte(b)[1])) == b
  {
    HexCharValue(Nibble(b[..4]));
    HexCharValue(Nibble(b[4..]));
    BitsNatBits(b[..4]);
    BitsNatBits(b[4..]);
    ByteOfIs(Nibble(b[..4]), Nibble(b[4..]));
    assert b[..4] + b[4..] == b;
  }

  /** Every digit of either case has its value, and nothing else is a digit. */
  lemma HexAlphabet(c: char)
    ensures forall n :: 0 <= n < 16 ==> HexNumber("0123456789abcdef"[n]) == n && HexNumber("0123456789ABCDEF"[n]) == n
    ensures HexNumber(c) >= 0 <==> c in "0123456789abcdefABCDEF"
  {
    var s := "0123456789abcdefABCDEF";
    if '0' <= c <= '9' { assert s[c as int - 48] == c; }
    if 'a' <= c <= 'f' { assert s[c as int - 87] == c; }
    if 'A' <= c <= 'F' { assert s[c as int - 49] == c; }
  }

  function FOUR(): nat { 4 }

  /** A byte is written as its high digit and then its low digit, in lower case. */
  lemma HexIsNumber(b: Byte)
    ensures var h := HexByte(b); |h| == 2 && BitsNat(b) == 16 * HexNumber(h[0]) + HexNumber(h[1])
    ensures var h := HexByte(b); h[0] in "0123456789abcdef" && h[1] in "0123456789abcdef"
  {
    var hi, lo := Nibble(b[..4]), Nibble(b[4..]);
    ByteOfNibbles(b[..4], b[4..]);
    assert b[..4] + b[4..] == b;
    DigitIs(hi);
    DigitIs(lo);
  }

  lemma DigitIs(n: nat)
    requires n < 16
    ensures HexNumber(HexChar(n)) == n && HexChar(n) in "0123456789abcdef"
  {
    HexCharValue(n);
    HexValueIs(HexChar(n));
  }

  lemma ByteOfNibbles(a: seq<bool>, b: seq<bool>)
    requires |a| == |b| == 4
    ensures BitsNat(a + b) == 16 * BitsNat(a) + BitsNat(b)
  {
    assert Two(4) == 16;
    BitsNatConcat(a, b);
  }

  /** Two digits are read as that number. */
  lemma ByteOfIsNumber(hi: nat, lo: nat)
    requires hi < 16 && lo < 16
    ensures BitsNat(ByteOf(hi, lo)) == 16 * hi + lo
  {
    ByteOfIs(hi, lo);
    assert Two(FOUR()) == 16;
    NatBitsBack(hi, FOUR());
    NatBitsBack(lo, FOUR());
    ByteOfNibbles(NatBits(hi, FOUR()), NatBits(lo, FOUR()));
  }

  /** The bytes are written in their order. */
  lemma {:induction false} HexAt(s: Text, i: nat)
    requires i < |s|
    ensures Hex(s)[2 * i] == HexByte(s[i])[0] && Hex(s)[2 * i + 1] == HexByte(s[i])[1]
    decreases |s|
  {
    if i < |s| - 1 { HexAt(s[..|s| - 1], i); }
  }

  lemma UnhexNext(h: string, t: Text, b: Byte, p: string)
    requires HexDigits(h) && |h| % 2 == 0 && Unhex(h) == t && p == HexByte(b)
    ensures HexDigits(h + p) && Unhex(h + p) == t + [b]
  {
    HexByteBack(b);
    UnhexTwo(h, p[0], p[1]);
    assert p == [p[0], p[1]];
  }

  lemma HexNext(t: Text, b: Byte)
    ensures Hex(t + [b]) == Hex(t) + HexByte(b)
  {
    assert (t + [b])[..|t|] == t;
  }

  /** h is decoded to s. */
  ghost predicate Decodes(h: string, s: Text) {
    |h| == 2 * |s| && HexDigits(h) && forall u {:trigger Marked(u)} :: Marked(u) && u == 11 ==> Unhex(h) == s
  }

  lemma DecodesNext(h: string, t: Text, b: Byte)
    requires Decodes(h, t)
    ensures Decodes(h + HexByte(b), t + [b])
  {
    assert Marked(11);
    UnhexNext(h, t, b, HexByte(b));
  }

  lemma {:induction false} HexDecodes(s: Text)
    ensures Decodes(Hex(s), s)
    decreases |s|
  {
    if |s| > 0 {
      var t, b := s[..|s| - 1], s[|s| - 1];
      assert s == t + [b];
      HexDecodes(t);
      HexNext(t, b);
      DecodesNext(Hex(t), t, b);
    }
  }

  /** Decoding undoes encoding. */
  lemma UnhexHex(s: Text)
    ensures HexDigits(Hex(s)) && Unhex(Hex(s)) == s
  {
    HexDecodes(s);
    assert Marked(11);
  }

  /** HexEncode */
  method HexEncode(data: Text) returns (result: string)
    ensures result == Hex(data)
  {
    result := "";
    var i := 0;
    assert data[..0] == [];
    while i < |data|
      invariant 0 <= i <= |data| && result == Hex(data[..i])
    {
      result := result + HexByte(data[i]);
      assert data[..i + 1][..i] == data[..i];
      i := i + 1;
    }
    assert data[..i] == data;
  }

  /** Two more digits. */
  method DecodeTwo(ghost h: string, r: Text, c: char, d: char) returns (ok: bool, r': Text)
    requires Decodes(h, r)
    ensures ok <==> HexValue(c) >= 0 && HexValue(d) >= 0
    ensures ok ==> Decodes(h + [c, d], r')
  {
    var hi, lo := HexNumber(c), HexNumber(d);
    HexValueIs(c);
    HexValueIs(d);
    if hi < 0 || lo < 0 { return false, []; }
    assert Marked(11);
    UnhexTwo(h, c, d);
    ByteOfIs(hi, lo);
    ok, r' := true, r + [TwoNibbles(hi, lo)];
  }

  /** HexDecode: the empty string for anything that is not pairs of hexadecimal digits. */
  method HexDecode(data: string) returns (result: Text)
    ensures |data| % 2 == 0 && HexDigits(data) ==> result == Unhex(data)
    ensures !(|data| % 2 == 0 && HexDigits(data)) ==> result == []
  {
    if |data| % 2 != 0 { return []; }
    result := [];
    var i := 0;
    assert data[..0] == "";
    while i < |data|
      invariant 0 <= i <= |data| && i % 2 == 0 && Decodes(data[..i], result)
    {
      var ok, next := DecodeTwo(data[..i], result, data[i], data[i + 1]);
      if !ok { return []; }
      assert data[..i] + [data[i], data[i + 1]] == data[..i + 2];
      result := next;
      i := i + 2;
    }
    assert data[..i] == data;
    assert Marked(11);
  }

  // ---------- encryption under a pairing key ----------

  datatype Result<T> = Ok(value: T) | CryptoError

  /** A key as the client holds it: a string whose size is checked before it is decoded. */
  datatype KeyString<A> = KeyString(size: nat, content: Octet<A>)

  const PFS := 32
  const G1S := 2 * PFS + 1
  const G2S := 4 * PFS

  datatype SokData = SokData(iv: Text, ciphertext: Text, tag: Text)

  /** The block cipher under the key of a pairing value. */
  function CipherOf<A, B, T, K>(w: World<A, B, T, K>, t: T): Block -> Block { w.aes(w.kdf(t)) }

  /** Crypto::SokEncrypt, with the initialisation vector passed in. */
  method SokEncrypt<A, B, T, K>(w: World<A, B, T, K>, message: Text, sendKey: KeyString<A>, idFrom: Text, idTo: Text, iv: Text)
    returns (r: Result<SokData>)
    ensures sendKey.size != 65 || sendKey.content.Blank? ==> r == CryptoError
    ensures sendKey.size == 65 && sendKey.content.Point? ==>
      var e := CipherOf(w, w.p.e(w.idG2(idTo), sendKey.content.p));
      r == Ok(SokData(iv, Gcm.Encrypt(e, iv, message), Gcm.Tag(e, iv, idFrom, Gcm.Encrypt(e, iv, message))))
  {
    if sendKey.size != G1S { return CryptoError; }
    var k := Pair1(w, 0, sendKey.content, Blank, idTo);
    if k.Failed? { return CryptoError; }
    One(idFrom);
    One(message);
    var cipher, tag := Gcm.Seal(w.aes(k.k), iv, [idFrom], [message]);
    r := Ok(SokData(iv, cipher, tag));
  }

  lemma One(s: Text)
    ensures Gcm.Concat([s]) == s && Gcm.Pieces([s])
  {
    assert [s][..0] == [];
    assert Gcm.Concat([s][..0]) == [];
  }

  /** Crypto::SokDecrypt */
  method SokDecrypt<A, B, T, K>(w: World<A, B, T, K>, data: SokData, recvKey: KeyString<B>, idFrom: Text) returns (r: Result<Text>)
    ensures recvKey.size != 128 || recvKey.content.Blank? ==> r == CryptoError
    ensures recvKey.size == 128 && recvKey.content.Point? ==>
      var e := CipherOf(w, w.p.e(recvKey.content.p, w.idG1(idFrom)));
      r == if data.tag == Gcm.Tag(e, data.iv, idFrom, data.ciphertext) then Ok(Gcm.Encrypt(e, data.iv, data.ciphertext)) else CryptoError
  {
    if recvKey.size != G2S { return CryptoError; }
    var k := Pair2(w, 0, recvKey.content, Blank, idFrom);
    if k.Failed? { return CryptoError; }
    One(idFrom);
    One(data.ciphertext);
    var plain, tag := Gcm.Open(w.aes(k.k), data.iv, [idFrom], [data.ciphertext]);
    if data.tag != tag { return CryptoError; }
    r := Ok(plain);
  }
}
