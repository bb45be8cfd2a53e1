/**
 * The counter blocks and the length block of GCM as numbers: which blocks the cipher is applied to, and that no two of them
 * are the same.
 */
module GcmCounter {
  import opened Ghash
  import opened Gcm

  // ---------- bytes and words as numbers ----------

  /** The first bit counts most. */
  function ByteValue(b: Byte): nat {
    (if b[0] then 128 else 0) + (if b[1] then 64 else 0) + (if b[2] then 32 else 0) + (if b[3] then 16 else 0)
    + (if b[4] then 8 else 0) + (if b[5] then 4 else 0) + (if b[6] then 2 else 0) + (if b[7] then 1 else 0)
  }

  /** The first byte counts most. */
  function WordValue(s: seq<Byte>): nat
    requires |s| == 4
  {
    0x100_0000 * ByteValue(s[0]) + 0x1_0000 * ByteValue(s[1]) + 0x100 * ByteValue(s[2]) + ByteValue(s[3])
  }

  lemma FourBits(a: seq<bool>)
    requires |a| == 4
    ensures BitsNat(a) == (if a[0] then 8 else 0) + (if a[1] then 4 else 0) + (if a[2] then 2 else 0) + (if a[3] then 1 else 0)
  {
    var b, c, d := a[..3], a[..2], a[..1];
    assert b[..2] == c && c[..1] == d && d[..0] == [];
    assert BitsNat(d) == (if a[0] then 1 else 0) && BitsNat(c) == 2 * BitsNat(d) + (if a[1] then 1 else 0);
    assert BitsNat(b) == 2 * BitsNat(c) + if a[2] then 1 else 0;
  }

  lemma ByteValueIs(b: Byte)
    ensures BitsNat(b) == ByteValue(b) < 256
  {
    assert Two(4) == 16;
    FourBits(b[..4]);
    FourBits(b[4..]);
    BitsNatConcat(b[..4], b[4..]);
    assert b[..4] + b[4..] == b;
  }

  lemma AppendByte(a: seq<bool>, b: Byte)
    ensures BitsNat(a + b) == 256 * BitsNat(a) + ByteValue(b)
  {
    assert Two(8) == 256;
    ByteValueIs(b);
    BitsNatConcat(a, b);
  }

  lemma WordValueIs(s: seq<Byte>)
    requires |s| == 4
    ensures BitsNat(Pack(s)) == WordValue(s)
  {
    var a: seq<bool> := s[0];
    ByteValueIs(s[0]);
    AppendByte(a, s[1]);
    AppendByte(a + s[1], s[2]);
    AppendByte(a + s[1] + s[2], s[3]);
  }

  lemma PackUnpack(w: Word)
    ensures Pack(Unpack(w)) == w
  {
    assert w[0..8] + w[8..16] + w[16..24] + w[24..32] == w;
  }

  lemma WordOfNat(n: nat)
    requires n < 0x1_0000_0000
    ensures WordValue(Unpack(NatBits(n, WORD_BITS()))) == n
  {
    var w := NatBits(n, WORD_BITS());
    TwoIs();
    NatBitsBack(n, WORD_BITS());
    PackUnpack(w);
    WordValueIs(Unpack(w));
  }

  // ---------- counter blocks ----------

  ghost predicate IsCount(b: Block, v: nat) {
    forall u {:trigger Marked(u)} :: Marked(u) && u == 14 ==> v == WordValue(b[12..16])
  }

  /** The number in the last four bytes of a block, unfolded by CountIs. */
  ghost function Count(b: Block): nat {
    assert IsCount(b, WordValue(b[12..16]));
    var v: nat :| IsCount(b, v);
    v
  }

  lemma CountIs(b: Block)
    ensures Count(b) == WordValue(b[12..16])
  {
    assert Marked(14);
  }

  lemma IncCounts(b: Block)
    ensures Inc(b)[..12] == b[..12] && Count(Inc(b)) == (Count(b) + 1) % 0x1_0000_0000
  {
    IncIs(b);
    CountIs(b);
    CountIs(Inc(b));
    var n := (BitsNat(Pack(b[12..16])) + 1) % TWO32;
    var u := Unpack(NatBits(n, WORD_BITS()));
    WordValueIs(b[12..16]);
    WordOfNat(n);
    assert IncBytes(b)[12..16] == u;
  }

  lemma CountBound(b: Block)
    ensures Count(b) < 0x1_0000_0000
  {
    CountIs(b);
    ByteValueIs(b[12]);
    ByteValueIs(b[13]);
    ByteValueIs(b[14]);
    ByteValueIs(b[15]);
  }

  /** The block d holds the number x modulo 2^32 after the bytes p. */
  ghost predicate Holds(d: Block, p: seq<Byte>, x: nat) { d[..12] == p && Count(d) == x % 0x1_0000_0000 }

  lemma HoldsNext(d: Block, p: seq<Byte>, x: nat)
    requires Holds(d, p, x)
    ensures Holds(Inc(d), p, x + 1)
  {
    IncCounts(d);
  }

  lemma HoldsItself(c: Block)
    ensures Holds(c, c[..12], Count(c))
  {
    CountBound(c);
  }

  lemma {:induction false} AfterHolds(c: Block, p: seq<Byte>, x: nat, n: nat)
    requires Holds(c, p, x)
    ensures Holds(After(c, n), p, x + n)
  {
    if n > 0 {
      AfterHolds(c, p, x, n - 1);
      HoldsNext(After(c, n - 1), p, x + (n - 1));
    }
  }

  lemma AfterCounts(c: Block, n: nat)
    ensures After(c, n)[..12] == c[..12] && Count(After(c, n)) == (Count(c) + n) % 0x1_0000_0000
  {
    HoldsItself(c);
    AfterHolds(c, c[..12], Count(c), n);
  }

  /** For an IV of 96 bits: the IV, and the number of the block from 1 on. */
  lemma CounterIs(e: Block -> Block, iv: seq<Byte>, n: nat)
    requires |iv| == 12
    ensures var b := After(InitialCounter(e, iv), n); b[..12] == iv && Count(b) == (n + 1) % 0x1_0000_0000
  {
    var c := InitialCounter(e, iv);
    assert c[..12] == iv && c[12] == BYTE0 && c[13] == BYTE0 && c[14] == BYTE0 && c[15] == LastOne();
    CountIs(c);
    assert Count(c) == 1;
    AfterCounts(c, n);
  }

  /** From any first block: 2^32 blocks in a row are different. */
  lemma CountersDiffer(c: Block, i: nat, j: nat)
    requires i < j < i + 0x1_0000_0000
    ensures After(c, i) != After(c, j)
  {
    AfterCounts(c, i);
    AfterCounts(c, j);
    ApartMod(Count(c) + i, j - i);
  }

  lemma ApartMod(a: nat, d: nat)
    requires 0 < d < 0x1_0000_0000
    ensures (a + d) % 0x1_0000_0000 != a % 0x1_0000_0000
  {
  }

  /** Block i of the key stream is the cipher of block number i + 2 of the IV, and within 2^32 blocks never of one that was
      used before, nor of the one under the tag. */
  lemma KeyStreamIs(e: Block -> Block, iv: seq<Byte>, i: nat) returns (b: Block)
    requires |iv| == 12
    ensures KeyStream(e, InitialCounter(e, iv))(i) == e(b) && b[..12] == iv && Count(b) == (i + 2) % 0x1_0000_0000
    ensures i + 1 < 0x1_0000_0000 ==> forall k :: 0 <= k <= i ==> After(InitialCounter(e, iv), k) != b
  {
    var c := InitialCounter(e, iv);
    b := After(c, i + 1);
    CounterIs(e, iv, i + 1);
    if i + 1 < 0x1_0000_0000 {
      forall k | 0 <= k <= i ensures After(c, k) != b { CountersDiffer(c, k, i + 1); }
    }
  }

  /** Byte k of the ciphertext, for an IV of 96 bits. */
  lemma CipherByte(e: Block -> Block, iv: seq<Byte>, p: seq<Byte>, k: nat) returns (b: Block)
    requires |iv| == 12 && k < |p|
    ensures b[..12] == iv && Count(b) == (k / 16 + 2) % 0x1_0000_0000
    ensures forall j :: 0 <= j < 8 ==> Encrypt(e, iv, p)[k][j] == (p[k][j] != e(b)[k % 16][j])
  {
    var ks := KeyStream(e, InitialCounter(e, iv));
    EncryptIs(e, iv, p);
    CtrIs(ks, 0, p);
    CtrAt(ks, 0, p, k);
    b := KeyStreamIs(e, iv, k / 16);
  }

  /** What GHASH runs over. */
  function Hashed(a: seq<Byte>, c: seq<Byte>): (s: seq<Byte>)
    ensures |s| % 16 == 0
  {
    Join(Join(Pad(a), Pad(c)), Chop(LenBits(|a|, |c|)))
  }

  /** Header and text, each with less than a block of zero bytes after it, and the block of their lengths. */
  lemma HashedIs(a: seq<Byte>, c: seq<Byte>) returns (p: nat, q: nat)
    ensures p < 16 && q < 16 && Hashed(a, c) == a + ZeroBytes(p) + (c + ZeroBytes(q)) + Chop(LenBits(|a|, |c|))
  {
    p, q := (16 - |a| % 16) % 16, (16 - |c| % 16) % 16;
  }

  lemma HashIsWeighted(h: Bits, a: seq<Byte>, c: seq<Byte>)
    ensures Hash(h, a, c) == Weighted(h, Hashed(a, c))
  {
    var s := Hashed(a, c);
    FoldIsWeighted(h, Zero(), s);
    ZeroMul(Raised(h, |s| / 16));
    XorRules(Zero(), Weighted(h, s), Zero());
    XorRules(Weighted(h, s), Zero(), Zero());
  }

  lemma ZeroBlockIs(i: nat)
    requires i < 16
    ensures ByteValue(ZeroBlock()[i]) == 0
  {
  }

  lemma XorBlockBits(s: Block, v: Bits)
    ensures BlockBits(XorBytes(s, Chop(v))) == Xor(BlockBits(s), v)
  {
    var t := XorBytes(s, Chop(v));
    forall j | 0 <= j < 128 ensures BlockBits(t)[j] == Xor(BlockBits(s), v)[j] {
      assert Chop(v)[j / 8][j % 8] == v[j];
    }
  }

  lemma TagBits(e: Block -> Block, iv: seq<Byte>, a: seq<Byte>, c: seq<Byte>)
    ensures BlockBits(Tag(e, iv, a, c)) == Xor(BlockBits(e(InitialCounter(e, iv))), Weighted(SubKey(e), Hashed(a, c)))
  {
    TagIs(e, iv, a, c);
    HashIsWeighted(SubKey(e), a, c);
    XorBlockBits(e(InitialCounter(e, iv)), Hash(SubKey(e), a, c));
  }

  lemma FirstBlock(e: Block -> Block, iv: seq<Byte>)
    requires |iv| == 12
    ensures InitialCounter(e, iv)[..12] == iv && Count(InitialCounter(e, iv)) == 1
  {
    CounterIs(e, iv, 0);
  }

  lemma ZeroValues()
    ensures forall i :: 0 <= i < 16 ==> ByteValue(ZeroBlock()[i]) == 0
  {
    forall i | 0 <= i < 16 ensures ByteValue(ZeroBlock()[i]) == 0 { ZeroBlockIs(i); }
  }

  /** The tag: the cipher of block number 1 of the IV, plus the polynomial of header, text and lengths at the cipher of
      the zero block. */
  lemma TagIsPolynomial(e: Block -> Block, iv: seq<Byte>, a: seq<Byte>, c: seq<Byte>) returns (b: Block, z: Block)
    requires |iv| == 12
    ensures b[..12] == iv && Count(b) == 1 && forall i :: 0 <= i < 16 ==> ByteValue(z[i]) == 0
    ensures BlockBits(Tag(e, iv, a, c)) == Xor(BlockBits(e(b)), Weighted(BlockBits(e(z)), Hashed(a, c)))
  {
    b, z := InitialCounter(e, iv), ZeroBlock();
    FirstBlock(e, iv);
    ZeroValues();
    TagBits(e, iv, a, c);
  }

  // ---------- the length block and the reduction word ----------

  lemma BytesOfWords(v: Bits, w: seq<Word>, k: nat)
    requires |w| == 4 && v == RowBits(w) && k < 4
    ensures Chop(v)[4 * k..4 * k + 4] == Unpack(w[k])
  {
    var c, u := Chop(v), Unpack(w[k]);
    forall i | 0 <= i < 4 ensures c[4 * k + i] == u[i] {
      forall j | 0 <= j < 8 ensures c[4 * k + i][j] == u[i][j] {
        assert c[4 * k + i][j] == v[8 * (4 * k + i) + j];
        UnpackAt(w[k], i, j);
      }
    }
  }

  /** Two numbers of 64 bits: the length of the header in bits, then that of the text. */
  lemma LengthBlockIs(a: nat, c: nat)
    ensures var b := Chop(LenBits(a, c));
      && WordValue(b[0..4]) * 0x1_0000_0000 + WordValue(b[4..8]) == (8 * a) % 0x1_0000_0000_0000_0000
      && WordValue(b[8..12]) * 0x1_0000_0000 + WordValue(b[12..16]) == (8 * c) % 0x1_0000_0000_0000_0000
  {
    var x, y := (8 * a) % TWO64, (8 * c) % TWO64;
    var f0, f1, f2, f3 := x / TWO32, x % TWO32, y / TWO32, y % TWO32;
    LenRow(f0, f1, a, f2, f3, c);
    var w := [NatBits(f0, WORD_BITS()), NatBits(f1, WORD_BITS()), NatBits(f2, WORD_BITS()), NatBits(f3, WORD_BITS())];
    BytesOfWords(LenBits(a, c), w, 0);
    BytesOfWords(LenBits(a, c), w, 1);
    BytesOfWords(LenBits(a, c), w, 2);
    BytesOfWords(LenBits(a, c), w, 3);
    WordOfNat(f0);
    WordOfNat(f1);
    WordOfNat(f2);
    WordOfNat(f3);
  }

  /** The word that is added when a bit falls out of the shifted row. */
  lemma ReductionWordIs()
    ensures WordValue(Unpack(ReductionWord())) == 0xE100_0000
  {
    var u := Unpack(ReductionWord());
    assert forall j :: 0 <= j < 8 ==> u[0][j] == Reduction(j) && !u[1][j] && !u[2][j] && !u[3][j];
  }
}
