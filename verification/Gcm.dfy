/**
 * AES-GCM as gcm.c streams it: the state machine, the running hash and the counter, over any block cipher.
 */
module Gcm {
  import opened Ghash

  const ACCEPTING_HEADER := 0
  const ACCEPTING_CIPHER := 1
  const NOT_ACCEPTING_MORE := 2
  const FINISHED := 3

  // ---------- section 7 of NIST SP 800-38D ----------

  function ZeroBlock(): Block { ZeroBytes(16) }

  /** The hash subkey. */
  ghost function SubKey(e: Block -> Block): Bits { BlockBits(e(ZeroBlock())) }

  /** GHASH of padded a, padded c and their lengths. */
  ghost function Hash(h: Bits, a: seq<Byte>, c: seq<Byte>): Bits {
    Fold(h, Zero(), Join(Join(Pad(a), Pad(c)), Chop(LenBits(|a|, |c|))))
  }

  /** Concatenation of whole blocks. */
  function Join(s: seq<Byte>, t: seq<Byte>): (r: seq<Byte>)
    requires |s| % 16 == 0 && |t| % 16 == 0
    ensures |r| % 16 == 0
  {
    s + t
  }

  /** J0: an IV of 96 bits is used as it is, any other is hashed. */
  ghost function InitialCounter(e: Block -> Block, iv: seq<Byte>): Block {
    if |iv| == 12 then iv + ZeroBytes(3) + [LastOne()] else Chop(Hash(SubKey(e), [], iv))
  }

  /** The byte 00000001. */
  function LastOne(): Byte { BYTE0[7 := true] }

  ghost predicate IsEncrypt(e: Block -> Block, iv: seq<Byte>, p: seq<Byte>, v: seq<Byte>) {
    |v| == |p| && forall u {:trigger Marked(u)} :: Marked(u) && u == 7 ==> v == Ctr(KeyStream(e, InitialCounter(e, iv)), 0, p)
  }

  /** Counter mode from J0 on; it decrypts as well. */
  ghost function Encrypt(e: Block -> Block, iv: seq<Byte>, p: seq<Byte>): (c: seq<Byte>)
    ensures |c| == |p|
  {
    assert IsEncrypt(e, iv, p, Ctr(KeyStream(e, InitialCounter(e, iv)), 0, p));
    var v :| IsEncrypt(e, iv, p, v);
    v
  }

  lemma EncryptIs(e: Block -> Block, iv: seq<Byte>, p: seq<Byte>)
    ensures Encrypt(e, iv, p) == Ctr(KeyStream(e, InitialCounter(e, iv)), 0, p)
  {
    assert Marked(7);
  }

  lemma EncryptTwice(e: Block -> Block, iv: seq<Byte>, p: seq<Byte>)
    ensures Encrypt(e, iv, Encrypt(e, iv, p)) == p
  {
    EncryptIs(e, iv, p);
    EncryptIs(e, iv, Encrypt(e, iv, p));
    CtrTwice(KeyStream(e, InitialCounter(e, iv)), 0, p);
  }

  ghost predicate IsTag(e: Block -> Block, iv: seq<Byte>, a: seq<Byte>, c: seq<Byte>, v: seq<Byte>) {
    |v| == 16 && forall u {:trigger Marked(u)} :: Marked(u) && u == 8 ==> v == XorBytes(e(InitialCounter(e, iv)), Chop(Hash(SubKey(e), a, c)))
  }

  /** The authentication tag. */
  ghost function Tag(e: Block -> Block, iv: seq<Byte>, a: seq<Byte>, c: seq<Byte>): (t: seq<Byte>)
    ensures |t| == 16
  {
    assert IsTag(e, iv, a, c, XorBytes(e(InitialCounter(e, iv)), Chop(Hash(SubKey(e), a, c))));
    var v :| IsTag(e, iv, a, c, v);
    v
  }

  lemma TagIs(e: Block -> Block, iv: seq<Byte>, a: seq<Byte>, c: seq<Byte>)
    ensures Tag(e, iv, a, c) == XorBytes(e(InitialCounter(e, iv)), Chop(Hash(SubKey(e), a, c)))
  {
    assert Marked(8);
  }

  /** The state after header a and text c is GHASH up to the length block. */
  lemma HashOfState(h: Bits, a: seq<Byte>, c: seq<Byte>)
    ensures Hash(h, a, c) == Mul(Xor(Absorb(h, Absorb(h, Zero(), a), c), LenBits(|a|, |c|)), h)
  {
    AbsorbIsFold(h, Zero(), a);
    AbsorbIsFold(h, Absorb(h, Zero(), a), c);
    FoldThree(h, Pad(a), Pad(c), Chop(LenBits(|a|, |c|)));
    ChopBits(LenBits(|a|, |c|));
  }

  lemma FoldThree(h: Bits, p: seq<Byte>, q: seq<Byte>, l: seq<Byte>)
    requires |p| % 16 == 0 && |q| % 16 == 0 && |l| == 16
    ensures Fold(h, Zero(), Join(Join(p, q), l)) == Mul(Xor(Fold(h, Fold(h, Zero(), p), q), BlockBits(l)), h)
  {
    FoldSplit(h, Zero(), p, q);
    FoldSplit(h, Zero(), Join(p, q), l);
    FoldBlock(h, Fold(h, Zero(), Join(p, q)), l);
  }

  // ---------- bytes of a block ----------

  lemma XorBlock(x: seq<Byte>, y: seq<Byte>, s: seq<Byte>)
    requires |x| == |y| == 16 && |s| <= 16
    requires forall i :: 0 <= i < 16 ==> y[i] == if i < |s| then Xor(x[i], s[i]) else x[i]
    ensures BlockBits(y) == Xor(BlockBits(x), BlockBits(s + ZeroBytes(16 - |s|)))
  {
    var t := s + ZeroBytes(16 - |s|);
    forall i | 0 <= i < 128 ensures BlockBits(y)[i] == (BlockBits(x)[i] != BlockBits(t)[i]) {
      var k := i / 8;
      assert y[k] == if k < |s| then Xor(x[k], s[k]) else x[k];
      assert t[k] == if k < |s| then s[k] else BYTE0;
    }
  }

  lemma ChopOfBlock(s: seq<Byte>)
    requires |s| == 16
    ensures Chop(BlockBits(s)) == s
  {
    forall i | 0 <= i < 16 ensures Chop(BlockBits(s))[i] == s[i] {
      forall j | 0 <= j < 8 ensures Chop(BlockBits(s))[i][j] == s[i][j] {
        assert (8 * i + j) / 8 == i && (8 * i + j) % 8 == j;
      }
    }
  }

  /** A row of the table holds h * x^i; stated so that it is used only through RowIs. */
  ghost predicate RowOf(h: Bits, row: seq<Word>, i: nat) {
    |row| == 4 && forall u {:trigger Marked(u)} :: Marked(u) && u == 6 ==> RowBits(row) == Power(h, i)
  }

  lemma RowIs(h: Bits, row: seq<Word>, i: nat)
    requires RowOf(h, row, i)
    ensures RowBits(row) == Power(h, i)
  {
    assert Marked(6);
  }

  // ---------- the gcm structure ----------

  class State {
    const aes: Block -> Block
    const table: array<seq<Word>>
    const stateX: array<Byte>
    const f: array<Byte>
    const Y0: array<Byte>
    var lenA0: nat
    var lenA1: nat
    var lenC0: nat
    var lenC1: nat
    var status: int

    /** The header and the ciphertext taken in so far. */
    ghost var A: seq<Byte>
    ghost var C: seq<Byte>
    ghost const J0: Block
    ghost const key: Bits

    ghost predicate Shape()
      reads this, table
    {
      && table.Length == 128 && stateX.Length == f.Length == Y0.Length == 16
      && stateX != f && stateX != Y0 && f != Y0 && key == SubKey(aes) && Rows()
    }

    /** table[i] = H * x^i */
    ghost predicate Rows()
      requires table.Length == 128
      reads table
    {
      forall i :: 0 <= i < 128 ==> RowOf(key, table[i], i)
    }

    /** A two-word counter holds n modulo 2^64; stated so that it is used only through CountIs. */
    ghost predicate Counted(hi: nat, lo: nat, n: nat) {
      forall u {:trigger Marked(u)} :: Marked(u) && u == 4 ==> hi < TWO32 && lo < TWO32 && hi * TWO32 + lo == n % TWO64
    }

    lemma CountIs(hi: nat, lo: nat, n: nat)
      requires Counted(hi, lo, n)
      ensures hi < TWO32 && lo < TWO32 && hi * TWO32 + lo == n % TWO64
    {
      assert Marked(4);
    }

    /** What holds of every state that has not been finished. */
    ghost predicate Live()
      reads this, table, stateX, f, Y0
    {
      && Shape() && ACCEPTING_HEADER <= status <= NOT_ACCEPTING_MORE
      && BlockBits(stateX[..]) == Absorb(key, Absorb(key, Zero(), A), C)
      && Counts(|A|, |C|)
      && (status == ACCEPTING_HEADER ==> |A| % 16 == 0 && C == [])
      && (status == ACCEPTING_CIPHER ==> |C| % 16 == 0)
      && Y0[..] == J0 && f[..] == After(J0, (|C| + 15) / 16)
    }

    ghost predicate Valid()
      reads this, table, stateX, f, Y0
    {
      Shape() && Counts(|A|, |C|) && (status == FINISHED || Live())
    }

    /** gf2mul: the state times H, by looking up the rows of the table. */
    method Gf2mul()
      requires Shape()
      modifies stateX
      ensures BlockBits(stateX[..]) == Mul(old(BlockBits(stateX[..])), key)
    {
      ghost var x, h := BlockBits(stateX[..]), key;
      var P: seq<Word> := [WORD0, WORD0, WORD0, WORD0];
      assert RowBits(P) == MulTo(x, h, 0);
      var j, m, i := 8, 0, 0;
      while i < 128
        invariant 0 <= i <= 128 && |P| == 4 && stateX[..] == old(stateX[..])
        invariant m == i / 8 && j == 8 - i % 8
        invariant RowBits(P) == MulTo(x, h, i)
      {
        j := j - 1;
        var b := stateX[m][7 - j];
        assert b == x[i];
        if b {
          RowIs(key, table[i], i);
          XorRowsBits(P, table[i]);
          P := XorRows(P, table[i]);
        }
        if j == 0 {
          j := 8;
          m := m + 1;
        }
        i := i + 1;
      }
      MulIs(x, h);
      UnpackRowBits(P);
      var s := UnpackRow(P);
      Store(stateX, s);
    }

    static method Store(a: array<Byte>, s: seq<Byte>)
      requires a.Length == |s| == 16
      modifies a
      ensures a[..] == s
    {
      var i := 0;
      while i < 16
        invariant 0 <= i <= 16
        invariant forall j :: 0 <= j < i ==> a[j] == s[j]
      {
        a[i] := s[i];
        i := i + 1;
      }
      assert a[..] == s;
    }

    /** One more byte counted, in two 32-bit words. */
    static lemma CountNext(hi: nat, lo: nat, n: nat)
      requires hi < TWO32 && lo < TWO32 && hi * TWO32 + lo == n % TWO64
      ensures var lo' := (lo + 1) % TWO32; var hi' := if lo' == 0 then (hi + 1) % TWO32 else hi;
        hi' < TWO32 && lo' < TWO32 && hi' * TWO32 + lo' == (n + 1) % TWO64
    {
      var q := n / 0x1_0000_0000_0000_0000;
      assert n + 1 == q * 0x1_0000_0000_0000_0000 + (hi * 0x1_0000_0000 + lo + 1);
    }

    /** The counters hold the numbers of header and text bytes. */
    ghost predicate Counts(a: nat, c: nat)
      reads this
    {
      Counted(lenA0, lenA1, a) && Counted(lenC0, lenC1, c)
    }

    method CountByte(text: bool, ghost a: nat, ghost c: nat)
      requires Counts(a, c)
      modifies `lenA0, `lenA1, `lenC0, `lenC1
      ensures Counts(if text then a else a + 1, if text then c + 1 else c)
    {
      if text {
        CountIs(lenC0, lenC1, c);
        CountNext(lenC0, lenC1, c);
        lenC1 := (lenC1 + 1) % TWO32;
        if lenC1 == 0 { lenC0 := (lenC0 + 1) % TWO32; }
      } else {
        CountIs(lenA0, lenA1, a);
        CountNext(lenA0, lenA1, a);
        lenA1 := (lenA1 + 1) % TWO32;
        if lenA1 == 0 { lenA0 := (lenA0 + 1) % TWO32; }
      }
    }

    /** The inner byte loop: up to 16 bytes added to the state and counted. */
    method AddBytes(chunk: seq<Byte>, text: bool, ghost a: nat, ghost c: nat)
      requires stateX.Length == 16 && |chunk| <= 16 && Counts(a, c)
      modifies stateX, `lenA0, `lenA1, `lenC0, `lenC1
      ensures BlockBits(stateX[..]) == Xor(old(BlockBits(stateX[..])), BlockBits(chunk + ZeroBytes(16 - |chunk|)))
      ensures Counts(if text then a else a + |chunk|, if text then c + |chunk| else c)
    {
      ghost var x := stateX[..];
      var i := 0;
      while i < |chunk|
        invariant 0 <= i <= |chunk|
        invariant forall k :: 0 <= k < 16 ==> stateX[k] == if k < i then Xor(x[k], chunk[k]) else x[k]
        invariant Counts(if text then a else a + i, if text then c + i else c)
      {
        stateX[i] := Xor(stateX[i], chunk[i]);
        CountByte(text, if text then a else a + i, if text then c + i else c);
        i := i + 1;
      }
      XorBlock(x, stateX[..], chunk);
    }

    /** A turn of the byte loops, with the product. */
    method AddBlock(chunk: seq<Byte>, text: bool, ghost a: nat, ghost c: nat)
      requires Shape() && |chunk| <= 16 && Counts(a, c)
      modifies stateX, `lenA0, `lenA1, `lenC0, `lenC1
      ensures BlockBits(stateX[..]) == Turn(key, old(BlockBits(stateX[..])), chunk)
      ensures Counts(if text then a else a + |chunk|, if text then c + |chunk| else c)
    {
      TurnIs(key, BlockBits(stateX[..]), chunk);
      AddBytes(chunk, text, a, c);
      Gf2mul();
    }

    /** The byte loops of GCM_add_header and GCM_ghash. */
    method AbsorbLoop(s: seq<Byte>, text: bool, ghost a: nat, ghost c: nat)
      requires Shape() && Counts(a, c)
      modifies stateX, `lenA0, `lenA1, `lenC0, `lenC1
      ensures BlockBits(stateX[..]) == Absorb(key, old(BlockBits(stateX[..])), s)
      ensures Counts(if text then a else a + |s|, if text then c + |s| else c)
    {
      ghost var x := BlockBits(stateX[..]);
      var j := 0;
      assert s[..0] == [];
      AbsorbNone(key, x);
      ghost var k := 0;
      while j < |s|
        invariant 0 <= j <= |s| && (j == 16 * k || j == |s|) && Shape()
        invariant Counts(if text then a else a + j, if text then c + j else c)
        invariant BlockBits(stateX[..]) == Absorb(key, x, s[..j])
      {
        var n := if |s| - j < 16 then |s| - j else 16;
        AbsorbNext(key, x, s, j, n, k);
        AddBlock(s[j..j + n], text, if text then a else a + j, if text then c + j else c);
        j, k := j + n, k + 1;
      }
      assert s[..j] == s;
    }

    method AbsorbAll(s: seq<Byte>, text: bool)
      requires Shape() && Counts(|A|, |C|)
      modifies stateX, `lenA0, `lenA1, `lenC0, `lenC1, `A, `C
      ensures BlockBits(stateX[..]) == Absorb(key, old(BlockBits(stateX[..])), s)
      ensures A == (if text then old(A) else old(A) + s) && C == (if text then old(C) + s else old(C))
      ensures Counts(|A|, |C|)
    {
      AbsorbLoop(s, text, |A|, |C|);
      if text { C := C + s; } else { A := A + s; }
    }

    /** GCM_wrap: the length block. */
    method Wrap()
      requires Shape() && Counts(|A|, |C|)
      modifies stateX
      ensures BlockBits(stateX[..]) == Mul(Xor(old(BlockBits(stateX[..])), LenBits(|A|, |C|)), key)
    {
      CountIs(lenA0, lenA1, |A|);
      CountIs(lenC0, lenC1, |C|);
      LengthWordsValue(lenA0, lenA1, |A|);
      LengthWordsValue(lenC0, lenC1, |C|);
      var (f0, f1) := LengthWords(lenA0, lenA1);
      var (f2, f3) := LengthWords(lenC0, lenC1);
      var F := LengthRow(f0, f1, f2, f3, |A|, |C|);
      XorInto(UnpackRow(F));
      UnpackRowBits(F);
      Gf2mul();
    }

    static method LengthRow(f0: nat, f1: nat, f2: nat, f3: nat, ghost a: nat, ghost c: nat) returns (F: seq<Word>)
      requires f1 < TWO32 && f0 * TWO32 + f1 == (8 * a) % TWO64
      requires f3 < TWO32 && f2 * TWO32 + f3 == (8 * c) % TWO64
      ensures |F| == 4 && RowBits(F) == LenBits(a, c)
    {
      LenRow(f0, f1, a, f2, f3, c);
      F := [NatBits(f0, WORD_BITS()), NatBits(f1, WORD_BITS()), NatBits(f2, WORD_BITS()), NatBits(f3, WORD_BITS())];
    }

    /** stateX ^= L */
    method XorInto(L: seq<Byte>)
      requires |L| == 16 && stateX.Length == 16
      modifies stateX
      ensures BlockBits(stateX[..]) == Xor(old(BlockBits(stateX[..])), BlockBits(L))
    {
      ghost var x := stateX[..];
      var i := 0;
      while i < 16
        invariant 0 <= i <= 16
        invariant forall k :: 0 <= k < 16 ==> stateX[k] == if k < i then Xor(x[k], L[k]) else x[k]
      {
        stateX[i] := Xor(stateX[i], L[i]);
        i := i + 1;
      }
      XorBlock(x, stateX[..], L);
      assert L + ZeroBytes(0) == L;
    }

    /** GCM_add_header: accepted only before any text and after whole blocks. */
    method AddHeader(header: seq<Byte>) returns (ok: bool)
      requires Valid()
      modifies this, stateX
      ensures ok <==> old(status) == ACCEPTING_HEADER
      ensures !ok ==> unchanged(this) && unchanged(stateX)
      ensures ok ==> Live() && A == old(A) + header && C == []
      ensures ok ==> status == if |header| % 16 == 0 then ACCEPTING_HEADER else ACCEPTING_CIPHER
    {
      if status != ACCEPTING_HEADER { return false; }
      ghost var a := A;
      AbsorbNone(key, Absorb(key, Zero(), A));
      AbsorbAll(header, false);
      AbsorbSplit(key, Zero(), a, header);
      AbsorbNone(key, Absorb(key, Zero(), A));
      WholeBlocks(a, header);
      if |header| % 16 != 0 { status := ACCEPTING_CIPHER; }
      ok := true;
    }

    static lemma WholeBlocks(a: seq<Byte>, b: seq<Byte>)
      requires |a| % 16 == 0
      ensures |a + b| % 16 == |b| % 16
    {
    }

    static lemma AbsorbNext(h: Bits, x: Bits, s: seq<Byte>, j: nat, n: nat, k: nat)
      requires j + n <= |s| && j == 16 * k && 0 < n <= 16
      ensures Absorb(h, x, s[..j + n]) == Turn(h, Absorb(h, x, s[..j]), s[j..j + n])
    {
      AbsorbSplit(h, x, s[..j], s[j..j + n]);
      AbsorbShort(h, Absorb(h, x, s[..j]), s[j..j + n]);
      assert s[..j] + s[j..j + n] == s[..j + n];
    }

    // text

    /** The next block of the key stream; the counter block moves on. */
    method NextKey(ghost i: nat) returns (B: Block)
      requires f.Length == 16 && f[..] == After(J0, i)
      modifies f
      ensures f[..] == After(J0, i + 1) && B == KeyStream(aes, J0)(i)
    {
      ghost var c := f[..];
      var counter := IncWord(Pack(f[12..16]));
      var b := Unpack(counter);
      f[12], f[13], f[14], f[15] := b[0], b[1], b[2], b[3];
      IncIs(c);
      assert f[..] == IncBytes(c);
      B := aes(f[..]);
    }

    /** One turn of GCM_add_plain or GCM_add_cipher: it is the ciphertext that goes into the hash. */
    method TextTurn(chunk: seq<Byte>, encrypt: bool, ghost i: nat, ghost a: nat, ghost c: nat) returns (out: seq<Byte>)
      requires Shape() && |chunk| <= 16 && Counts(a, c) && f[..] == After(J0, i)
      modifies stateX, f, `lenA0, `lenA1, `lenC0, `lenC1
      ensures Shape() && out == XorBytes(chunk, KeyStream(aes, J0)(i)) && f[..] == After(J0, i + 1)
      ensures BlockBits(stateX[..]) == Turn(key, old(BlockBits(stateX[..])), if encrypt then out else chunk)
      ensures Counts(a, c + |chunk|)
    {
      var B := NextKey(i);
      out := XorBytes(chunk, B);
      AddBlock(if encrypt then out else chunk, true, a, c);
    }

    static lemma CtrNext(ks: nat -> Block, i: nat, s: seq<Byte>, j: nat, n: nat, k: nat)
      requires j + n <= |s| && j == 16 * k && 0 < n <= 16
      ensures Ctr(ks, i, s[..j + n]) == Ctr(ks, i, s[..j]) + XorBytes(s[j..j + n], ks(i + k))
    {
      CtrSplit(ks, i, s[..j], s[j..j + n], k);
      CtrShort(ks, i + k, s[j..j + n]);
      assert s[..j] + s[j..j + n] == s[..j + n];
    }

    static lemma AbsorbAppend(h: Bits, x: Bits, s: seq<Byte>, t: seq<Byte>, k: nat)
      requires |s| == 16 * k && 0 < |t| <= 16
      ensures Absorb(h, x, s + t) == Turn(h, Absorb(h, x, s), t)
    {
      AbsorbSplit(h, x, s, t);
      AbsorbShort(h, Absorb(h, x, s), t);
    }

    /** A turn in the middle of the text s. */
    method TextStep(s: seq<Byte>, out: seq<Byte>, j: nat, n: nat, encrypt: bool, ghost i: nat, ghost k: nat, ghost a: nat, ghost c: nat, ghost x: Bits)
      returns (out': seq<Byte>)
      requires Shape() && Counts(a, c + j) && f[..] == After(J0, i + k)
      requires j + n <= |s| && j == 16 * k && 0 < n <= 16 && out == Ctr(KeyStream(aes, J0), i, s[..j])
      requires BlockBits(stateX[..]) == Absorb(key, x, if encrypt then out else s[..j])
      modifies stateX, f, `lenA0, `lenA1, `lenC0, `lenC1
      ensures Shape() && Counts(a, c + (j + n)) && f[..] == After(J0, i + (k + 1)) && out' == Ctr(KeyStream(aes, J0), i, s[..j + n])
      ensures BlockBits(stateX[..]) == Absorb(key, x, if encrypt then out' else s[..j + n])
    {
      CtrNext(KeyStream(aes, J0), i, s, j, n, k);
      var o := TextTurn(s[j..j + n], encrypt, i + k, a, c + j);
      AbsorbAppend(key, x, if encrypt then out else s[..j], if encrypt then o else s[j..j + n], k);
      assert s[..j] + s[j..j + n] == s[..j + n];
      out' := out + o;
    }

    /** The loops of GCM_add_plain and GCM_add_cipher, from block i of the key stream on. */
    method TextLoop(s: seq<Byte>, encrypt: bool, ghost i: nat, ghost a: nat, ghost c: nat) returns (out: seq<Byte>)
      requires Shape() && Counts(a, c) && f[..] == After(J0, i)
      modifies stateX, f, `lenA0, `lenA1, `lenC0, `lenC1
      ensures Shape() && out == Ctr(KeyStream(aes, J0), i, s) && Counts(a, c + |s|)
      ensures f[..] == After(J0, i + (|s| + 15) / 16)
      ensures BlockBits(stateX[..]) == Absorb(key, old(BlockBits(stateX[..])), if encrypt then out else s)
    {
      ghost var x, ks, k := BlockBits(stateX[..]), KeyStream(aes, J0), 0;
      out := [];
      var j := 0;
      assert s[..0] == [];
      AbsorbNone(key, x);
      while j < |s|
        invariant 0 <= j <= |s| && (j == 16 * k || (j == |s| && 16 * k - 16 < j < 16 * k)) && Shape()
        invariant Counts(a, c + j) && f[..] == After(J0, i + k) && out == Ctr(ks, i, s[..j])
        invariant BlockBits(stateX[..]) == Absorb(key, x, if encrypt then out else s[..j])
      {
        var n := if |s| - j < 16 then |s| - j else 16;
        out := TextStep(s, out, j, n, encrypt, i, k, a, c, x);
        j, k := j + n, k + 1;
      }
      assert s[..j] == s;
    }

    /** The common part of the two: text is accepted until a piece that is not whole blocks. */
    method AddText(s: seq<Byte>, encrypt: bool) returns (ok: bool, out: seq<Byte>)
      requires Valid()
      modifies this, stateX, f
      ensures ok <==> old(status) == ACCEPTING_HEADER || old(status) == ACCEPTING_CIPHER
      ensures !ok ==> unchanged(this) && unchanged(stateX) && unchanged(f) && out == []
      ensures ok ==> Live() && A == old(A) && C == old(C) + (if encrypt then out else s)
      ensures ok ==> out == Ctr(KeyStream(aes, J0), old(|C|) / 16, s)
      ensures ok ==> status == if |s| % 16 == 0 then ACCEPTING_CIPHER else NOT_ACCEPTING_MORE
    {
      if status == ACCEPTING_HEADER { status := ACCEPTING_CIPHER; }
      if status != ACCEPTING_CIPHER { return false, []; }
      out := TakeText(s, encrypt);
      if |s| % 16 != 0 { status := NOT_ACCEPTING_MORE; }
      ok := true;
    }

    method TakeText(s: seq<Byte>, encrypt: bool) returns (out: seq<Byte>)
      requires Live() && |C| % 16 == 0
      modifies stateX, f, `lenA0, `lenA1, `lenC0, `lenC1, `C
      ensures Shape() && Counts(|A|, |C|) && C == old(C) + (if encrypt then out else s)
      ensures out == Ctr(KeyStream(aes, J0), old(|C|) / 16, s) && |C| % 16 == |s| % 16
      ensures BlockBits(stateX[..]) == Absorb(key, Absorb(key, Zero(), A), C)
      ensures Y0[..] == J0 && f[..] == After(J0, (|C| + 15) / 16)
    {
      ghost var c, i := C, |C| / 16;
      assert (|C| + 15) / 16 == i;
      out := TextLoop(s, encrypt, i, |A|, |C|);
      ghost var t := if encrypt then out else s;
      C := C + t;
      AbsorbSplit(key, Absorb(key, Zero(), A), c, t);
      BlockCount(c, t, i);
    }

    static lemma BlockCount(c: seq<Byte>, t: seq<Byte>, i: nat)
      requires |c| == 16 * i
      ensures (|c + t| + 15) / 16 == i + (|t| + 15) / 16 && |c + t| % 16 == |t| % 16
    {
    }

    /** GCM_add_plain */
    method AddPlain(plain: seq<Byte>) returns (ok: bool, cipher: seq<Byte>)
      requires Valid()
      modifies this, stateX, f
      ensures ok <==> old(status) == ACCEPTING_HEADER || old(status) == ACCEPTING_CIPHER
      ensures !ok ==> unchanged(this) && unchanged(stateX) && unchanged(f) && cipher == []
      ensures ok ==> Live() && A == old(A) && C == old(C) + cipher
      ensures ok ==> cipher == Ctr(KeyStream(aes, J0), old(|C|) / 16, plain)
      ensures ok ==> status == if |plain| % 16 == 0 then ACCEPTING_CIPHER else NOT_ACCEPTING_MORE
    {
      ok, cipher := AddText(plain, true);
    }

    /** GCM_add_cipher */
    method AddCipher(cipher: seq<Byte>) returns (ok: bool, plain: seq<Byte>)
      requires Valid()
      modifies this, stateX, f
      ensures ok <==> old(status) == ACCEPTING_HEADER || old(status) == ACCEPTING_CIPHER
      ensures !ok ==> unchanged(this) && unchanged(stateX) && unchanged(f) && plain == []
      ensures ok ==> Live() && A == old(A) && C == old(C) + cipher
      ensures ok ==> plain == Ctr(KeyStream(aes, J0), old(|C|) / 16, cipher)
      ensures ok ==> status == if |cipher| % 16 == 0 then ACCEPTING_CIPHER else NOT_ACCEPTING_MORE
    {
      ok, plain := AddText(cipher, false);
    }

    /** GCM_finish: the length block, and the tag if it is wanted.  AES_end leaves a key schedule of zeros; wiped is that
        cipher, which a second call meets. */
    method Finish(wanted: bool, wiped: Block -> Block) returns (tag: seq<Byte>)
      requires Valid()
      modifies this, stateX, Y0
      ensures Valid() && status == FINISHED && |tag| == if wanted then 16 else 0
      ensures wanted && old(status) != FINISHED ==> tag == XorBytes(aes(J0), Chop(Hash(key, old(A), old(C))))
      ensures wanted && old(status) == FINISHED ==> tag == XorBytes(wiped(old(Y0[..])), Chop(Mul(Xor(old(BlockBits(stateX[..])), LenBits(|A|, |C|)), key)))
      ensures wanted ==> stateX[..] == ZeroBytes(16) && Y0[..] == ZeroBytes(16)
    {
      if status != FINISHED { HashOfState(key, A, C); }
      Wrap();
      tag := [];
      if wanted {
        ChopOfBlock(stateX[..]);
        var e := if status == FINISHED then wiped(Y0[..]) else aes(Y0[..]);
        tag := XorBytes(e, stateX[..]);
        Store(Y0, ZeroBytes(16));
        Store(stateX, ZeroBytes(16));
      }
      status := FINISHED;
    }

    // initialisation

    static function PackRow(s: seq<Byte>): (r: seq<Word>)
      requires |s| == 16
      ensures |r| == 4
    {
      [Pack(s[0..4]), Pack(s[4..8]), Pack(s[8..12]), Pack(s[12..16])]
    }

    static lemma UnpackPack(b: seq<Byte>)
      requires |b| == 4
      ensures Unpack(Pack(b)) == b
    {
      var w := Pack(b);
      assert w[0..8] == b[0] && w[8..16] == b[1] && w[16..24] == b[2] && w[24..32] == b[3];
    }

    static lemma PackRowBits(s: seq<Byte>)
      requires |s| == 16
      ensures RowBits(PackRow(s)) == BlockBits(s)
    {
      UnpackPack(s[0..4]);
      UnpackPack(s[4..8]);
      UnpackPack(s[8..12]);
      UnpackPack(s[12..16]);
      assert UnpackRow(PackRow(s)) == s[0..4] + s[4..8] + s[8..12] + s[12..16] == s;
      UnpackRowBits(PackRow(s));
    }

    /** precompute: the table of multiples of H. */
    method Precompute(H: seq<Byte>)
      requires |H| == 16 && BlockBits(H) == key && table.Length == 128
      modifies table
      ensures Rows()
    {
      var row := FirstRow(H, key);
      table[0] := row;
      var i := 1;
      while i < 128
        invariant 1 <= i <= 128
        invariant forall k :: 0 <= k < i ==> RowOf(key, table[k], k)
      {
        row := MakeRow(table[i - 1], key, i);
        table[i] := row;
        i := i + 1;
      }
    }

    static method FirstRow(H: seq<Byte>, ghost h: Bits) returns (row: seq<Word>)
      requires |H| == 16 && BlockBits(H) == h
      ensures RowOf(h, row, 0)
    {
      PackRowBits(H);
      row := PackRow(H);
    }

    static method MakeRow(last: seq<Word>, ghost h: Bits, ghost i: nat) returns (row: seq<Word>)
      requires i > 0 && RowOf(h, last, i - 1)
      ensures RowOf(h, row, i)
    {
      RowIs(h, last, i - 1);
      NextRowIsTimesX(last);
      row := NextRow(last);
    }

    static lemma ZeroBlockBits()
      ensures BlockBits(ZeroBytes(16)) == Zero()
    {
    }

    lemma CountZero()
      ensures Counted(0, 0, 0)
    {
    }

    /** GCM_init */
    constructor (e: Block -> Block, iv: seq<Byte>)
      ensures Live() && aes == e && key == SubKey(e) && J0 == InitialCounter(e, iv) && A == [] && C == [] && status == ACCEPTING_HEADER
      ensures fresh(table) && fresh(stateX) && fresh(f) && fresh(Y0)
    {
      aes, key, J0 := e, SubKey(e), InitialCounter(e, iv);
      table := new seq<Word>[128];
      stateX, f, Y0 := new Byte[16], new Byte[16], new Byte[16];
      lenA0, lenA1, lenC0, lenC1 := 0, 0, 0, 0;
      status := ACCEPTING_CIPHER;
      A, C := [], [];
      new;
      var H := e(ZeroBlock());
      Precompute(H);
      Start(iv);
    }

    /** The rest of GCM_init: the initial counter block. */
    method Start(iv: seq<Byte>)
      requires Shape() && J0 == InitialCounter(aes, iv) && A == [] && C == []
      requires lenA0 == lenA1 == lenC0 == lenC1 == 0
      modifies this, stateX, f, Y0
      ensures Live() && A == [] && C == [] && status == ACCEPTING_HEADER
    {
      Store(stateX, ZeroBytes(16));
      ZeroBlockBits();
      CountZero();
      FirstCounter(iv);
      Store(Y0, f[..]);
      AbsorbNone(key, Zero());
      status := ACCEPTING_HEADER;
    }

    method FirstCounter(iv: seq<Byte>)
      requires Shape() && Counts(0, 0) && J0 == InitialCounter(aes, iv) && A == [] && C == [] && BlockBits(stateX[..]) == Zero()
      modifies stateX, f, `lenA0, `lenA1, `lenC0, `lenC1, `A, `C
      ensures Shape() && Counts(0, 0) && f[..] == J0 && A == [] && C == [] && BlockBits(stateX[..]) == Zero()
    {
      if |iv| == 12 {
        Store(f, iv + ZeroBytes(3) + [LastOne()]);
      } else {
        HashIv(iv);
        Store(f, stateX[..]);
        Store(stateX, ZeroBytes(16));
        ZeroBlockBits();
        lenA0, lenA1, lenC0, lenC1 := 0, 0, 0, 0;
        CountZero();
        C := [];
      }
    }

    /** GHASH of an IV that is not 96 bits long. */
    method HashIv(iv: seq<Byte>)
      requires Shape() && Counts(0, 0) && A == [] && C == [] && BlockBits(stateX[..]) == Zero()
      modifies stateX, `lenA0, `lenA1, `lenC0, `lenC1, `A, `C
      ensures A == [] && stateX[..] == Chop(Hash(key, [], iv))
    {
      AbsorbNone(key, Zero());
      AbsorbAll(iv, true);
      assert C == iv;
      HashOfState(key, [], iv);
      Wrap();
      ChopOfBlock(stateX[..]);
    }
  }

  // ---------- whole messages, in pieces ----------

  function Concat(ps: seq<seq<Byte>>): seq<Byte> {
    if |ps| == 0 then [] else Concat(ps[..|ps| - 1]) + ps[|ps| - 1]
  }

  /** Every piece but the last is made of whole blocks. */
  ghost predicate Pieces(ps: seq<seq<Byte>>) { forall i :: 0 <= i < |ps| - 1 ==> |ps[i]| % 16 == 0 }

  lemma {:induction false} ConcatBlocks(ps: seq<seq<Byte>>)
    requires forall i :: 0 <= i < |ps| ==> |ps[i]| % 16 == 0
    ensures |Concat(ps)| % 16 == 0
  {
    if |ps| > 0 { ConcatBlocks(ps[..|ps| - 1]); }
  }

  lemma ConcatNext(ps: seq<seq<Byte>>, i: nat)
    requires i < |ps|
    ensures Concat(ps[..i + 1]) == Concat(ps[..i]) + ps[i]
  {
    assert ps[..i + 1][..i] == ps[..i];
  }

  /** All header pieces. */
  method AddHeaders(g: State, headers: seq<seq<Byte>>)
    requires g.Live() && g.status == ACCEPTING_HEADER && g.A == [] && g.C == [] && Pieces(headers)
    modifies g, g.stateX
    ensures g.Live() && g.status <= ACCEPTING_CIPHER && g.A == Concat(headers) && g.C == []
  {
    var i := 0;
    assert headers[..0] == [];
    while i < |headers|
      invariant 0 <= i <= |headers| && g.Live() && g.C == [] && g.A == Concat(headers[..i])
      invariant g.status <= ACCEPTING_CIPHER && (i < |headers| ==> g.status == ACCEPTING_HEADER)
    {
      ConcatNext(headers, i);
      var ok := g.AddHeader(headers[i]);
      i := i + 1;
    }
    assert headers[..i] == headers;
  }

  /** All text pieces, encrypted or decrypted. */
  method AddTexts(g: State, texts: seq<seq<Byte>>, encrypt: bool) returns (out: seq<Byte>)
    requires g.Live() && g.status <= ACCEPTING_CIPHER && g.C == [] && Pieces(texts)
    modifies g, g.stateX, g.f
    ensures g.Live() && g.A == old(g.A) && out == Ctr(KeyStream(g.aes, g.J0), 0, Concat(texts))
    ensures g.C == if encrypt then out else Concat(texts)
  {
    out := [];
    var i := 0;
    assert texts[..0] == [];
    while i < |texts|
      invariant 0 <= i <= |texts| && g.Live() && g.A == old(g.A) && out == Ctr(KeyStream(g.aes, g.J0), 0, Concat(texts[..i]))
      invariant g.C == if encrypt then out else Concat(texts[..i])
      invariant i < |texts| ==> g.status <= ACCEPTING_CIPHER
    {
      ghost var t := Concat(texts[..i]);
      ConcatNext(texts, i);
      ConcatBlocks(texts[..i]);
      CtrSplit(KeyStream(g.aes, g.J0), 0, t, texts[i], |t| / 16);
      var ok, o := g.AddText(texts[i], encrypt);
      out := out + o;
      i := i + 1;
    }
    assert texts[..i] == texts;
  }

  /** Encryption of a message in any pieces gives the ciphertext and tag of section 7.1. */
  method Seal(e: Block -> Block, iv: seq<Byte>, headers: seq<seq<Byte>>, plains: seq<seq<Byte>>) returns (cipher: seq<Byte>, tag: seq<Byte>)
    requires Pieces(headers) && Pieces(plains)
    ensures cipher == Encrypt(e, iv, Concat(plains)) && tag == Tag(e, iv, Concat(headers), cipher)
  {
    var g := new State(e, iv);
    AddHeaders(g, headers);
    cipher := AddTexts(g, plains, true);
    tag := g.Finish(true, e);
    EncryptIs(e, iv, Concat(plains));
    TagIs(e, iv, Concat(headers), cipher);
  }

  /** Decryption of a ciphertext in any pieces. */
  method Open(e: Block -> Block, iv: seq<Byte>, headers: seq<seq<Byte>>, ciphers: seq<seq<Byte>>) returns (plain: seq<Byte>, tag: seq<Byte>)
    requires Pieces(headers) && Pieces(ciphers)
    ensures plain == Encrypt(e, iv, Concat(ciphers)) && tag == Tag(e, iv, Concat(headers), Concat(ciphers))
  {
    var g := new State(e, iv);
    AddHeaders(g, headers);
    plain := AddTexts(g, ciphers, false);
    tag := g.Finish(true, e);
    EncryptIs(e, iv, Concat(ciphers));
    TagIs(e, iv, Concat(headers), Concat(ciphers));
  }

  /** What one side seals the other opens, with the same tag, however either side cuts header and text. */
  method SealOpen(e: Block -> Block, iv: seq<Byte>, headers: seq<seq<Byte>>, plains: seq<seq<Byte>>,
                  headers': seq<seq<Byte>>, cut: seq<Byte> -> seq<seq<Byte>>) returns (plain: seq<Byte>, tag: seq<Byte>, tag': seq<Byte>)
    requires Pieces(headers) && Pieces(plains) && Pieces(headers') && Concat(headers') == Concat(headers)
    requires forall c :: Pieces(cut(c)) && Concat(cut(c)) == c
    ensures plain == Concat(plains) && tag' == tag
  {
    var cipher;
    cipher, tag := Seal(e, iv, headers, plains);
    plain, tag' := Open(e, iv, headers', cut(cipher));
    EncryptTwice(e, iv, Concat(plains));
  }
}
