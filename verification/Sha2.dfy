/**
 * The SHA-2 functions of hash.c: bytes are shifted into words one at a time, and the message is padded byte by
 * byte at the end; against section 5.1 of FIPS 180-4.  The compression function is a parameter.
 */
module Sha2 {
  import opened Arith

  // ---------- section 5: padding and parsing ----------

  /** The bytes of a word: 4 for SHA-256, 8 for SHA-384 and SHA-512. */
  ghost predicate WordSize(l: nat) { l == 4 || l == 8 }

  type Compress = (seq<int>, seq<int>) -> seq<int>

  /** Big-endian value. */
  function Value(s: seq<int>): int {
    if |s| == 0 then 0 else 256 * Value(s[..|s| - 1]) + s[|s| - 1]
  }

  function Zeros(n: nat): (r: seq<int>)
    ensures |r| == n && forall i :: 0 <= i < n ==> r[i] == 0
  {
    seq(n, i => 0)
  }

  /** The number of zero bytes after the byte 0x80: the fewest that leave room for two words of length. */
  function ZeroCount(l: nat, n: nat): nat
    requires WordSize(l)
  {
    if l == 4 then (55 - n) % 64 else (111 - n) % 128
  }

  /** The message up to the length, as bytes. */
  function Stuffed(l: nat, m: seq<int>): seq<int>
    requires WordSize(l)
  {
    m + [0x80] + Zeros(ZeroCount(l, |m|))
  }

  /** The whole words of a byte string. */
  function Words(l: nat, s: seq<int>): seq<int>
    decreases |s|
  {
    if l == 0 || |s| < l then [] else [Value(s[..l])] + Words(l, s[l..])
  }

  /** The compression function folded over the blocks of 16 words. */
  function Run(c: Compress, h: seq<int>, ws: seq<int>): seq<int>
    decreases |ws|
  {
    if |ws| < 16 then h else Run(c, c(h, ws[..16]), ws[16..])
  }

  /** 2^(8l) */
  function Modulus(l: nat): int { if l == 4 then 0x1_0000_0000 else 0x1_0000_0000_0000_0000 }

  lemma ModulusIsPow(l: nat)
    requires WordSize(l)
    ensures Modulus(l) == Pow(256, l)
  {
    assert Pow(256, 2) == 0x1_0000;
    PowAdd(256, 2, 2);
    PowAdd(256, 4, 4);
  }

  /** The two words of the length in bits, high word first. */
  function LengthWords(l: nat, n: nat): seq<int> { [(8 * n / Modulus(l)) % Modulus(l), (8 * n) % Modulus(l)] }

  /** The padding leaves two words of the last block free. */
  lemma StuffedSize(l: nat, m: seq<int>) returns (q: nat)
    requires WordSize(l)
    ensures |Stuffed(l, m)| == l * (16 * q + 14)
    ensures |Words(l, Stuffed(l, m))| == 16 * q + 14
  {
    if l == 4 {
      var e := (55 - |m|) / 64;
      assert 55 - |m| == 64 * e + ZeroCount(l, |m|);
      q := -e;
    } else {
      var e := (111 - |m|) / 128;
      assert 111 - |m| == 128 * e + ZeroCount(l, |m|);
      q := -e;
    }
    WordsCount(l, Stuffed(l, m), 16 * q + 14);
  }

  /** The padded message is a whole number of blocks. */
  lemma PaddedWhole(l: nat, m: seq<int>)
    requires WordSize(l)
    ensures |Words(l, Stuffed(l, m)) + LengthWords(l, |m|)| % 16 == 0
  {
    var q := StuffedSize(l, m);
  }

  /** The padding of section 5.1: a one bit, and as few zero bits as leave the length two words of the last block. */
  lemma PaddingIs(l: nat, m: seq<int>)
    requires WordSize(l)
    ensures var s := Stuffed(l, m); s[..|m|] == m && s[|m|] == 128 && (forall i :: |m| < i < |s| ==> s[i] == 0)
    ensures var s := Stuffed(l, m); |s| % (16 * l) == 14 * l && |s| - |m| <= 16 * l
  {
    var s := Stuffed(l, m);
    var q := StuffedSize(l, m);
    DivModUnique(|s|, 16 * l, q, 14 * l);
  }

  /** The last two words of the padded message are its length in bits, high word first. */
  lemma LengthAtEnd(l: nat, m: seq<int>, ws: seq<int>)
    requires WordSize(l) && ws == Words(l, Stuffed(l, m)) + LengthWords(l, |m|)
    ensures |ws| >= 2 && 0 <= ws[|ws| - 2] < Modulus(l) && 0 <= ws[|ws| - 1] < Modulus(l)
    ensures ws[|ws| - 2] * Modulus(l) + ws[|ws| - 1] == (8 * |m|) % (Modulus(l) * Modulus(l))
  {
    var lw := LengthWords(l, |m|);
    assert ws[|ws| - 2] == lw[0] && ws[|ws| - 1] == lw[1];
    HighAndLow(8 * |m|, Modulus(l));
  }

  lemma HighAndLow(x: int, b: int)
    requires b > 0
    ensures b * b > 0 && ((x / b) % b) * b + x % b == x % (b * b)
  {
    var h := x / b;
    MulMono(1, b, b);
    MulMono(0, h % b, b);
    MulMono(h % b, b - 1, b);
    assert (b - 1) * b == b * b - b;
    assert h == (h / b) * b + h % b;
    assert h * b == (h / b) * (b * b) + (h % b) * b by {
      assert ((h / b) * b + h % b) * b == (h / b) * (b * b) + (h % b) * b;
    }
    DivModUnique(x, b * b, h / b, (h % b) * b + x % b);
  }

  /** The first byte of a word counts most. */
  lemma ValueOfFour(s: seq<int>)
    requires |s| == 4
    ensures Value(s) == 0x100_0000 * s[0] + 0x1_0000 * s[1] + 0x100 * s[2] + s[3]
  {
    var a, b, c := s[..3], s[..2], s[..1];
    assert a[..2] == b && b[..1] == c && c[..0] == [];
    assert Value(c) == s[0] && Value(b) == 256 * Value(c) + s[1] && Value(a) == 256 * Value(b) + s[2];
  }

  lemma ValueOfEight(s: seq<int>)
    requires |s| == 8
    ensures Value(s) == 0x1_0000_0000 * Value(s[..4]) + Value(s[4..])
  {
    var a, b, c := s[..7], s[..6], s[..5];
    assert a[..6] == b && b[..5] == c && c[..4] == s[..4];
    ValueOfFour(s[4..]);
    assert Value(c) == 256 * Value(s[..4]) + s[4] && Value(b) == 256 * Value(c) + s[5] && Value(a) == 256 * Value(b) + s[6];
  }

  lemma {:induction false} WordsCount(l: nat, s: seq<int>, n: nat)
    requires l > 0 && |s| == l * n
    ensures |Words(l, s)| == n
    decreases n
  {
    if n > 0 {
      assert l * n == l * (n - 1) + l;
      WordsCount(l, s[l..], n - 1);
    }
  }

  /** A word more at the end. */
  lemma {:induction false} WordsAppend(l: nat, s: seq<int>, t: seq<int>, n: nat)
    requires l > 0 && |s| == l * n && |t| == l
    ensures Words(l, s + t) == Words(l, s) + [Value(t)]
    decreases n
  {
    if n == 0 {
      assert s + t == t && t[..l] == t && t[l..] == [];
      assert Words(l, t) == [Value(t)];
    } else {
      assert l * n == l * (n - 1) + l;
      WordsAppend(l, s[l..], t, n - 1);
      assert (s + t)[..l] == s[..l] && (s + t)[l..] == s[l..] + t;
    }
  }

  /** A block more at the end. */
  lemma {:induction false} RunAppend(c: Compress, h: seq<int>, ws: seq<int>, b: seq<int>, n: nat)
    requires |ws| == 16 * n && |b| == 16
    ensures Run(c, h, ws + b) == c(Run(c, h, ws), b)
    decreases n
  {
    if n == 0 {
      assert ws + b == b && b[..16] == b && b[16..] == [];
    } else {
      RunAppend(c, c(h, ws[..16]), ws[16..], b, n - 1);
      assert (ws + b)[..16] == ws[..16] && (ws + b)[16..] == ws[16..] + b;
    }
  }

  /** The hash value of a message: padded, parsed and folded. */
  function HashValue(c: Compress, iv: seq<int>, l: nat, m: seq<int>): seq<int>
    requires WordSize(l)
  {
    Run(c, iv, Words(l, Stuffed(l, m)) + LengthWords(l, |m|))
  }

  // ---------- bytes shifted into a word ----------

  /** Shifting a byte into a word keeps what the last bytes say, whatever was in the word before. */
  lemma ShiftIn(w: int, v: int, b: int, k: nat, l: nat)
    requires k < l && Pow(256, k) > 0 && Cong(w, v, Pow(256, k))
    ensures Pow(256, l) > 0 && Pow(256, k + 1) > 0 && Cong((w * 256) % Pow(256, l) + b, 256 * v + b, Pow(256, k + 1))
  {
    PowPositive(256, l);
    PowPositive(256, k + 1);
    PowPositive(256, l - k - 1);
    var m := Pow(256, k + 1);
    var d := CongElim(w, v, Pow(256, k));
    assert 256 * (d * Pow(256, k)) == d * m;
    CongIntro(w * 256, 256 * v, d, m);
    CongMod(w * 256, Pow(256, l));
    PowAdd(256, k + 1, l - k - 1);
    CongDivisor((w * 256) % Pow(256, l), w * 256, m, Pow(256, l - k - 1));
    CongAdd((w * 256) % Pow(256, l), 256 * v, b, b, m);
  }

  ghost predicate ByteString(s: seq<int>) { forall i :: 0 <= i < |s| ==> 0 <= s[i] < 256 }

  lemma {:induction false} ValueBound(s: seq<int>)
    requires ByteString(s)
    ensures 0 <= Value(s) < Pow(256, |s|)
  {
    if |s| > 0 { ValueBound(s[..|s| - 1]); }
  }

  ghost predicate Marked(u: int) { true }

  /** The low bytes of the word x are those of s, whatever is above them; used through the lemmas below. */
  ghost predicate LowBytes(x: int, s: seq<int>) {
    forall u {:trigger Marked(u)} :: Marked(u) && u == 1 ==> Pow(256, |s|) > 0 && Cong(x, Value(s), Pow(256, |s|))
  }

  lemma LowBytesIs(x: int, s: seq<int>)
    requires LowBytes(x, s)
    ensures Pow(256, |s|) > 0 && Cong(x, Value(s), Pow(256, |s|))
  {
    assert Marked(1);
  }

  lemma LowBytesNone(x: int)
    ensures LowBytes(x, [])
  {
    assert Pow(256, 0) == 1;
  }

  lemma LowBytesNext(x: int, s: seq<int>, b: int, l: nat)
    requires WordSize(l) && |s| < l && LowBytes(x, s)
    ensures LowBytes((x * 256) % Modulus(l) + b, s + [b])
  {
    LowBytesIs(x, s);
    ModulusIsPow(l);
    ShiftIn(x, Value(s), b, |s|, l);
    assert (s + [b])[..|s|] == s;
  }

  /** Once as many bytes as fit have been shifted in, nothing stale is left. */
  lemma LowBytesFull(x: int, s: seq<int>, l: nat)
    requires WordSize(l) && |s| == l && LowBytes(x, s) && ByteString(s) && 0 <= x < Modulus(l)
    ensures x == Value(s)
  {
    LowBytesIs(x, s);
    ModulusIsPow(l);
    ValueBound(s);
    CongSmall(x, Value(s), Pow(256, l));
  }

  lemma LowByteFree(x: int, b: int, l: nat)
    requires WordSize(l) && 0 <= b < 256
    ensures 0 <= (x * 256) % Modulus(l) + b < Modulus(l)
  {
    if l == 4 { LowByte32(x, b); } else { LowByte64(x, b); }
  }

  lemma LowByte32(x: int, b: int)
    requires 0 <= b < 256
    ensures 0 <= (x * 256) % 0x1_0000_0000 + b < 0x1_0000_0000
  {
    DivModUnique(x * 256, 0x1_0000_0000, x / 0x100_0000, (x % 0x100_0000) * 256);
  }

  lemma LowByte64(x: int, b: int)
    requires 0 <= b < 256
    ensures 0 <= (x * 256) % 0x1_0000_0000_0000_0000 + b < 0x1_0000_0000_0000_0000
  {
    DivModUnique(x * 256, 0x1_0000_0000_0000_0000, x / 0x100_0000_0000_0000, (x % 0x100_0000_0000_0000) * 256);
  }

  /** The first n bytes of the words h. */
  function Bytes(h: seq<int>, l: nat, n: nat): seq<int>
    requires WordSize(l) && n <= l * |h|
  {
    seq(n, i requires 0 <= i < n => ByteAt(h[i / l], l - 1 - i % l))
  }

  function ByteAt(x: int, k: nat): int {
    PowPositive(256, k);
    (x / Pow(256, k)) % 256
  }

  lemma ByteAtNext(x: int, k: nat)
    ensures ByteAt(x, 0) == x % 256 && ByteAt(x, k + 1) == ByteAt(x / 256, k)
  {
    PowPositive(256, k);
    DivByPower(x, Pow(256, k));
  }

  lemma DivByPower(x: int, p: int)
    requires p > 0
    ensures 256 * p > 0 && x / (256 * p) == (x / 256) / p
  {
    var h := x / 256;
    assert h == (h / p) * p + h % p;
    assert x == (h / p) * (256 * p) + (256 * (h % p) + x % 256) by {
      assert 256 * ((h / p) * p) == (h / p) * (256 * p);
    }
    DivModUnique(x, 256 * p, h / p, 256 * (h % p) + x % 256);
  }

  /** The last k bytes of a number. */
  function LastBytes(x: int, k: nat): (r: seq<int>)
    ensures |r| == k
    decreases k
  {
    if k == 0 then [] else LastBytes(x / 256, k - 1) + [x % 256]
  }

  lemma {:induction false} LastBytesAt(x: int, k: nat, i: nat)
    requires i < k
    ensures LastBytes(x, k)[i] == ByteAt(x, k - 1 - i)
    decreases k
  {
    ByteAtNext(x, if i == k - 1 then 0 else k - 2 - i);
    if i < k - 1 { LastBytesAt(x / 256, k - 1, i); }
  }

  lemma {:induction false} LastBytesValue(x: int, k: nat)
    ensures Pow(256, k) > 0 && Value(LastBytes(x, k)) == x % Pow(256, k)
    decreases k
  {
    PowPositive(256, k);
    if k > 0 {
      PowPositive(256, k - 1);
      LastBytesValue(x / 256, k - 1);
      var r, p, h := LastBytes(x, k), Pow(256, k - 1), x / 256;
      assert r[..k - 1] == LastBytes(h, k - 1);
      assert h == (h / p) * p + h % p;
      assert 256 * ((h / p) * p) == (h / p) * (256 * p);
      DivModUnique(x, 256 * p, h / p, 256 * (h % p) + x % 256);
    }
  }

  lemma BytesFirst(h: seq<int>, l: nat)
    requires WordSize(l) && |h| > 0
    ensures var b := Bytes(h, l, l * |h|); |b| >= l && b[..l] == LastBytes(h[0], l) && b[l..] == Bytes(h[1..], l, l * |h[1..]|)
  {
    var b := Bytes(h, l, l * |h|);
    assert l * |h| == l * |h[1..]| + l;
    forall i | 0 <= i < l ensures b[i] == LastBytes(h[0], l)[i] { LastBytesAt(h[0], l, i); }
    forall i | 0 <= i < l * |h[1..]| ensures b[l + i] == Bytes(h[1..], l, l * |h[1..]|)[i] {
      assert (l + i) / l == 1 + i / l && (l + i) % l == i % l;
    }
  }

  /** The bytes of a hash value, read as words again, are the hash value; a shorter digest is a prefix of them. */
  lemma {:induction false} WordsOfBytes(h: seq<int>, l: nat)
    requires WordSize(l) && forall i :: 0 <= i < |h| ==> 0 <= h[i] < Modulus(l)
    ensures Words(l, Bytes(h, l, l * |h|)) == h
    ensures forall n :: 0 <= n <= l * |h| ==> Bytes(h, l, n) == Bytes(h, l, l * |h|)[..n]
    decreases |h|
  {
    if |h| > 0 {
      BytesFirst(h, l);
      LastBytesValue(h[0], l);
      ModulusIsPow(l);
      DivModUnique(h[0], Modulus(l), 0, h[0]);
      WordsOfBytes(h[1..], l);
    }
  }

  // ---------- how far the message has been parsed ----------

  /** The bytes of whole words, the number of full blocks among them, the words of the block being filled, and
      the bytes of the word being filled. */
  datatype Progress = Progress(done: seq<int>, blocks: nat, cur: seq<int>, part: seq<int>)

  ghost predicate ParsedAs(c: Compress, iv: seq<int>, l: nat, m: seq<int>, h: seq<int>, g: Progress) {
    && m == g.done + g.part && |g.done| == Prod(l, 16 * g.blocks + |g.cur|)
    && |Words(l, g.done)| == 16 * g.blocks + |g.cur| && Words(l, g.done)[16 * g.blocks..] == g.cur
    && h == Run(c, iv, Words(l, g.done)[..16 * g.blocks])
  }

  /** m parses as g says, and h is the state after the full blocks; used through ParsedIs. */
  ghost predicate Parsed(c: Compress, iv: seq<int>, l: nat, m: seq<int>, h: seq<int>, g: Progress) {
    && WordSize(l) && |g.part| < l && ByteString(g.part) && |g.cur| < 16
    && |m| == Prod(l, 16 * g.blocks + |g.cur|) + |g.part|
    && forall u {:trigger Marked(u)} :: Marked(u) && u == 0 ==> ParsedAs(c, iv, l, m, h, g)
  }

  lemma ParsedIs(c: Compress, iv: seq<int>, l: nat, m: seq<int>, h: seq<int>, g: Progress)
    requires Parsed(c, iv, l, m, h, g)
    ensures ParsedAs(c, iv, l, m, h, g)
  {
    assert Marked(0);
  }

  lemma ByteInside(c: Compress, iv: seq<int>, l: nat, m: seq<int>, h: seq<int>, g: Progress, b: int)
    requires Parsed(c, iv, l, m, h, g) && 0 <= b < 256 && |g.part| + 1 < l
    ensures Parsed(c, iv, l, m + [b], h, g.(part := g.part + [b]))
  {
    ParsedIs(c, iv, l, m, h, g);
    assert m + [b] == g.done + (g.part + [b]);
  }

  /** A word completed: the words of the message grow by it. */
  lemma WordDone(l: nat, done: seq<int>, part: seq<int>, n: nat)
    requires l > 0 && |done| == Prod(l, n) && |part| == l && |Words(l, done)| == n
    ensures |done + part| == Prod(l, n + 1) && Words(l, done + part) == Words(l, done) + [Value(part)]
  {
    ProdIs(l, n);
    ProdIs(l, n + 1);
    WordsAppend(l, done, part, n);
    assert l * (n + 1) == l * n + l;
  }

  lemma WordInside(c: Compress, iv: seq<int>, l: nat, m: seq<int>, h: seq<int>, g: Progress, b: int)
    requires Parsed(c, iv, l, m, h, g) && 0 <= b < 256 && |g.part| + 1 == l && |g.cur| < 15
    ensures var p := g.part + [b];
      Parsed(c, iv, l, m + [b], h, Progress(g.done + p, g.blocks, g.cur + [Value(p)], []))
  {
    ParsedIs(c, iv, l, m, h, g);
    var p, n := g.part + [b], 16 * g.blocks;
    WordDone(l, g.done, p, n + |g.cur|);
    assert m + [b] == (g.done + p) + [];
    var ws, ws' := Words(l, g.done), Words(l, g.done + p);
    assert ws'[n..] == g.cur + [Value(p)] && ws'[..n] == ws[..n];
  }

  lemma BlockFull(c: Compress, iv: seq<int>, l: nat, m: seq<int>, h: seq<int>, g: Progress, b: int)
    requires Parsed(c, iv, l, m, h, g) && 0 <= b < 256 && |g.part| + 1 == l && |g.cur| == 15
    ensures var p := g.part + [b];
      Parsed(c, iv, l, m + [b], c(h, g.cur + [Value(p)]), Progress(g.done + p, g.blocks + 1, [], []))
  {
    ParsedIs(c, iv, l, m, h, g);
    var p, n := g.part + [b], 16 * g.blocks;
    WordDone(l, g.done, p, n + 15);
    assert m + [b] == (g.done + p) + [];
    var ws, ws' := Words(l, g.done), Words(l, g.done + p);
    BlockDone(c, iv, ws, ws', g.cur + [Value(p)], g.blocks);
  }

  lemma BlockDone(c: Compress, iv: seq<int>, ws: seq<int>, ws': seq<int>, cur: seq<int>, n: nat)
    requires |cur| == 16 && |ws| == 16 * n + 15 && ws' == ws + [cur[15]] && ws[16 * n..] == cur[..15]
    ensures |ws'| == 16 * (n + 1) && Run(c, iv, ws'[..16 * (n + 1)]) == c(Run(c, iv, ws[..16 * n]), cur)
    ensures ws'[16 * (n + 1)..] == []
  {
    RunAppend(c, iv, ws[..16 * n], cur, n);
    assert ws[..16 * n] + cur == ws' == ws'[..16 * (n + 1)];
  }

  // ---------- the counters ----------

  /** n bytes are q blocks, k words and r bytes. */
  lemma Residue32(n: nat, q: nat, k: nat, r: nat)
    requires n == 4 * (16 * q + k) + r && k < 16 && r < 4
    ensures var x := (8 * n) % 0x1_0000_0000; x / 32 % 16 == k && x % 512 == 8 * (4 * k + r)
  {
    var d, e := q % 0x80_0000, q / 0x80_0000;
    var x := 512 * d + 32 * k + 8 * r;
    DivModUnique(8 * n, 0x1_0000_0000, e, x);
    DivModUnique(x, 32, 16 * d + k, 8 * r);
    DivModUnique(16 * d + k, 16, d, k);
    DivModUnique(x, 512, d, 8 * (4 * k + r));
  }

  lemma Residue64(n: nat, q: nat, k: nat, r: nat)
    requires n == 8 * (16 * q + k) + r && k < 16 && r < 8
    ensures var x := (8 * n) % 0x1_0000_0000_0000_0000; x / 64 % 16 == k && x % 1024 == 8 * (8 * k + r)
  {
    var d, e := q % 0x40_0000_0000_0000, q / 0x40_0000_0000_0000;
    var x := 1024 * d + 64 * k + 8 * r;
    DivModUnique(8 * n, 0x1_0000_0000_0000_0000, e, x);
    DivModUnique(x, 64, 16 * d + k, 8 * r);
    DivModUnique(16 * d + k, 16, d, k);
    DivModUnique(x, 1024, d, 8 * (8 * k + r));
  }

  /** The low counter word after n bytes. */
  function Low(l: nat, n: nat): int { (8 * n) % Modulus(l) }

  /** The word being filled, and the place in the block, as the code reads them off the low counter word. */
  lemma WordIndex(l: nat, n: nat, q: nat, k: nat, r: nat)
    requires WordSize(l) && n == Prod(l, 16 * q + k) + r && k < 16 && r < l
    ensures Low(l, n) / (8 * l) % 16 == k && Low(l, n) % (128 * l) == 8 * (l * k + r)
  {
    ProdIs(l, 16 * q + k);
    if l == 4 { Residue32(n, q, k, r); } else { Residue64(n, q, k, r); }
  }

  /** The test for a full block, after a byte more. */
  lemma BlockEnds(l: nat, n: nat, q: nat, k: nat, r: nat)
    requires WordSize(l) && n == Prod(l, 16 * q + k) + r && k < 16 && r < l
    ensures Low(l, n + 1) % (128 * l) == 0 <==> k == 15 && r == l - 1
  {
    ProdIs(l, 16 * q + k);
    if r < l - 1 {
      WordIndex(l, n + 1, q, k, r + 1);
    } else if k < 15 {
      ProdIs(l, 16 * q + (k + 1));
      WordIndex(l, n + 1, q, k + 1, 0);
    } else {
      ProdIs(l, 16 * (q + 1) + 0);
      WordIndex(l, n + 1, q + 1, 0, 0);
    }
  }

  /** The loop that adds zero bytes stops exactly where the padding ends. */
  lemma PadTest(l: nat, n: nat, k: nat)
    requires WordSize(l) && k <= ZeroCount(l, n)
    ensures Low(l, n + 1 + k) % (128 * l) == 112 * l <==> k == ZeroCount(l, n)
  {
    var m := n + 1 + k;
    if l == 4 {
      var q, r := m / 64, m % 64;
      Residue32(m, q, r / 4, r % 4);
      PadTest32(n, k);
    } else {
      var q, r := m / 128, m % 128;
      Residue64(m, q, r / 8, r % 8);
      PadTest64(n, k);
    }
  }

  lemma PadTest32(n: nat, k: nat)
    requires k <= (55 - n) % 64
    ensures (n + 1 + k) % 64 == 56 <==> k == (55 - n) % 64
  {
    var z, e := (55 - n) % 64, (55 - n) / 64;
    assert n + 1 + k == 56 - 64 * e - (z - k);
    if k == z { DivModUnique(n + 1 + k, 64, -e, 56); }
    else if z - k <= 56 { DivModUnique(n + 1 + k, 64, -e, 56 - (z - k)); }
    else { DivModUnique(n + 1 + k, 64, -e - 1, 120 - (z - k)); }
  }

  lemma PadTest64(n: nat, k: nat)
    requires k <= (111 - n) % 128
    ensures (n + 1 + k) % 128 == 112 <==> k == (111 - n) % 128
  {
    var z, e := (111 - n) % 128, (111 - n) / 128;
    assert n + 1 + k == 112 - 128 * e - (z - k);
    if k == z { DivModUnique(n + 1 + k, 128, -e, 112); }
    else if z - k <= 112 { DivModUnique(n + 1 + k, 128, -e, 112 - (z - k)); }
    else { DivModUnique(n + 1 + k, 128, -e - 1, 240 - (z - k)); }
  }

  /** The last block: the padded message but for its length is parsed up to two words. */
  lemma LastBlock(c: Compress, iv: seq<int>, l: nat, m: seq<int>, s: seq<int>, h: seq<int>, g: Progress)
    requires Parsed(c, iv, l, s, h, g) && s == Stuffed(l, m) && |g.cur| == 14 && g.part == []
    ensures c(h, g.cur + LengthWords(l, |m|)) == HashValue(c, iv, l, m)
  {
    ParsedIs(c, iv, l, s, h, g);
    assert s == g.done;
    var ws, n, b := Words(l, s), 16 * g.blocks, g.cur + LengthWords(l, |m|);
    RunAppend(c, iv, ws[..n], b, g.blocks);
    assert ws[..n] + b == ws + LengthWords(l, |m|);
  }

  /** The high counter word after n bytes. */
  function High(l: nat, n: nat): int { (8 * n / Modulus(l)) % Modulus(l) }

  lemma CountByte(l: nat, n: nat)
    requires WordSize(l)
    ensures Low(l, n + 1) == (Low(l, n) + 8) % Modulus(l)
    ensures High(l, n + 1) == if Low(l, n + 1) == 0 then (High(l, n) + 1) % Modulus(l) else High(l, n)
  {
    if l == 4 { CountByte32(n); } else { CountByte64(n); }
  }

  lemma CountByte32(n: nat)
    ensures var m := 0x1_0000_0000; var x := (8 * n) % m; var y := (8 * n + 8) % m;
      && y == (x + 8) % m
      && ((8 * n + 8) / m) % m == if y == 0 then ((8 * n / m) % m + 1) % m else (8 * n / m) % m
  {
    var q, x := (8 * n) / 0x1_0000_0000, (8 * n) % 0x1_0000_0000;
    assert 8 * n + 8 == q * 0x1_0000_0000 + (x + 8);
    assert x <= 0x1_0000_0000 - 8;
    assert (8 * n + 8) / 0x1_0000_0000 == if x + 8 == 0x1_0000_0000 then q + 1 else q;
  }

  lemma CountByte64(n: nat)
    ensures var m := 0x1_0000_0000_0000_0000; var x := (8 * n) % m; var y := (8 * n + 8) % m;
      && y == (x + 8) % m
      && ((8 * n + 8) / m) % m == if y == 0 then ((8 * n / m) % m + 1) % m else (8 * n / m) % m
  {
    var q, x := (8 * n) / 0x1_0000_0000_0000_0000, (8 * n) % 0x1_0000_0000_0000_0000;
    assert 8 * n + 8 == q * 0x1_0000_0000_0000_0000 + (x + 8);
    assert x <= 0x1_0000_0000_0000_0000 - 8;
    assert (8 * n + 8) / 0x1_0000_0000_0000_0000 == if x + 8 == 0x1_0000_0000_0000_0000 then q + 1 else q;
  }

  // ---------- the hash structure ----------

  class Hash {
    const c: Compress
    const iv: seq<int>
    const l: nat
    const hlen: nat
    const w: array<int>
    var length0: int
    var length1: int
    var h: seq<int>

    /** The message so far, and how it parses. */
    ghost var M: seq<int>
    ghost var g: Progress

    /** The current block so far is in w; what is above the bytes of the word being filled is stale. */
    ghost predicate Stored()
      requires w.Length == 16 && |g.cur| < 16
      reads this, w
    {
      && (forall i :: 0 <= i < |g.cur| ==> w[i] == g.cur[i])
      && LowBytes(w[|g.cur|], g.part)
    }

    ghost predicate Counted()
      reads this
    {
      length0 == Low(l, |M|) && length1 == High(l, |M|)
    }

    ghost predicate Valid()
      reads this, w
    {
      w.Length == 16 && Parsed(c, iv, l, M, h, g) && Stored() && Counted()
    }

    /** HASH256_init, HASH384_init and HASH512_init */
    constructor (c: Compress, iv: seq<int>, l: nat, hlen: nat)
      requires WordSize(l)
      ensures Valid() && M == [] && fresh(w) && this.c == c && this.iv == iv && this.l == l && this.hlen == hlen
    {
      this.c, this.iv, this.l, this.hlen := c, iv, l, hlen;
      w := new int[16];
      length0, length1, h := 0, 0, iv;
      M, g := [], Progress([], 0, [], []);
      new;
      Restart();
    }

    method Restart()
      requires w.Length == 16 && WordSize(l)
      modifies this, w
      ensures Valid() && M == []
    {
      var i := 0;
      while i < 16
        invariant 0 <= i <= 16
      {
        w[i] := 0;
        i := i + 1;
      }
      length0, length1, h := 0, 0, iv;
      M, g := [], Progress([], 0, [], []);
      StartOfMessage(c, iv, l);
      LowBytesNone(w[0]);
    }

    static lemma StartOfMessage(c: Compress, iv: seq<int>, l: nat)
      requires WordSize(l)
      ensures Parsed(c, iv, l, [], iv, Progress([], 0, [], [])) && Low(l, 0) == 0 && High(l, 0) == 0
    {
      ProdIs(l, 0);
    }

    /** HASH256_process and HASH512_process */
    method Process(byte: int)
      requires Valid()
      modifies this, w
      ensures Valid() && M == old(M) + [byte % 256]
    {
      var b := byte % 256;
      WordIndex(l, |M|, g.blocks, |g.cur|, |g.part|);
      var cnt := (length0 / (8 * l)) % 16;
      ShiftByte(cnt, b);
      CountByte(l, |M|);
      length0 := (length0 + 8) % Modulus(l);
      if length0 == 0 { length1 := (length1 + 1) % Modulus(l); }
      Take(b);
    }

    /** w[cnt] = w[cnt] << 8 | b */
    method ShiftByte(cnt: nat, b: int)
      requires w.Length == 16 && WordSize(l) && cnt == |g.cur| < 16 && |g.part| < l && 0 <= b < 256 && Stored()
      modifies w
      ensures forall i :: 0 <= i < |g.cur| ==> w[i] == g.cur[i]
      ensures LowBytes(w[cnt], g.part + [b]) && 0 <= w[cnt] < Modulus(l)
    {
      LowBytesNext(w[cnt], g.part, b, l);
      LowByteFree(w[cnt], b, l);
      w[cnt] := (w[cnt] * 256) % Modulus(l) + b;
    }

    /** What the byte just shifted in completes: nothing, a word, or a block, which is then compressed. */
    method Take(b: int)
      requires w.Length == 16 && Parsed(c, iv, l, M, h, g) && 0 <= b < 256
      requires forall i :: 0 <= i < |g.cur| ==> w[i] == g.cur[i]
      requires LowBytes(w[|g.cur|], g.part + [b]) && 0 <= w[|g.cur|] < Modulus(l)
      requires length0 == Low(l, |M| + 1) && length1 == High(l, |M| + 1)
      modifies this
      ensures Valid() && M == old(M) + [b]
    {
      BlockEnds(l, |M|, g.blocks, |g.cur|, |g.part|);
      ParsedIs(c, iv, l, M, h, g);
      if length0 % (128 * l) == 0 {
        TakeBlock(b);
      } else {
        TakeInside(b);
      }
    }

    /** The byte completes a block: it is compressed. */
    method TakeBlock(b: int)
      requires w.Length == 16 && Parsed(c, iv, l, M, h, g) && 0 <= b < 256 && |g.cur| == 15 && |g.part| + 1 == l
      requires forall i :: 0 <= i < |g.cur| ==> w[i] == g.cur[i]
      requires LowBytes(w[|g.cur|], g.part + [b]) && 0 <= w[|g.cur|] < Modulus(l)
      requires length0 == Low(l, |M| + 1) && length1 == High(l, |M| + 1)
      modifies this
      ensures Valid() && M == old(M) + [b]
    {
      ghost var p := g.part + [b];
      ParsedIs(c, iv, l, M, h, g);
      LowBytesFull(w[15], p, l);
      assert w[..] == g.cur + [Value(p)];
      BlockFull(c, iv, l, M, h, g, b);
      h := c(h, w[..]);
      g := Progress(g.done + p, g.blocks + 1, [], []);
      LowBytesNone(w[0]);
      M := M + [b];
    }

    /** The byte completes a word or nothing. */
    method TakeInside(b: int)
      requires w.Length == 16 && Parsed(c, iv, l, M, h, g) && 0 <= b < 256 && |g.cur| < 16 && |g.part| < l
      requires |g.cur| < 15 || |g.part| + 1 < l
      requires forall i :: 0 <= i < |g.cur| ==> w[i] == g.cur[i]
      requires LowBytes(w[|g.cur|], g.part + [b]) && 0 <= w[|g.cur|] < Modulus(l)
      requires length0 == Low(l, |M| + 1) && length1 == High(l, |M| + 1)
      modifies this
      ensures Valid() && M == old(M) + [b]
    {
      ghost var p := g.part + [b];
      ParsedIs(c, iv, l, M, h, g);
      if |p| < l {
        ByteInside(c, iv, l, M, h, g, b);
        g := g.(part := p);
      } else {
        LowBytesFull(w[|g.cur|], p, l);
        WordInside(c, iv, l, M, h, g, b);
        g := Progress(g.done + p, g.blocks, g.cur + [Value(p)], []);
        LowBytesNone(w[|g.cur|]);
      }
      M := M + [b];
    }

    /** The padding of HASH256_hash and HASH512_hash, byte by byte. */
    method PadOut()
      requires Valid()
      modifies this, w
      ensures Valid() && M == Stuffed(l, old(M)) && |g.cur| == 14 && g.part == []
    {
      ghost var m, k := M, 0;
      assert m + [0x80] == m + [0x80] + Zeros(0);
      var more := PadByte(0x80, m, 0);
      while more
        invariant Valid() && 0 <= k <= ZeroCount(l, |m|) && M == m + [0x80] + Zeros(k)
        invariant more <==> k < ZeroCount(l, |m|)
        invariant !more ==> |g.cur| == 14 && g.part == []
        decreases ZeroCount(l, |m|) - k
      {
        assert m + [0x80] + Zeros(k) + [0] == m + [0x80] + Zeros(k + 1);
        k := k + 1;
        more := PadByte(0, m, k);
      }
    }

    /** A byte of padding; the test is the one of the loop. */
    method PadByte(b: int, ghost m: seq<int>, ghost k: nat) returns (more: bool)
      requires Valid() && k <= ZeroCount(l, |m|) && M + [b % 256] == m + [0x80] + Zeros(k)
      modifies this, w
      ensures Valid() && M == m + [0x80] + Zeros(k)
      ensures more <==> k < ZeroCount(l, |m|)
      ensures !more ==> |g.cur| == 14 && g.part == []
    {
      Process(b);
      assert |M| == |m| + 1 + k;
      PadTest(l, |m|, k);
      more := length0 % (128 * l) != 112 * l;
      WordIndex(l, |M|, g.blocks, |g.cur|, |g.part|);
      if !more { Fourteen(l, |g.cur|, |g.part|); }
    }

    static lemma Fourteen(l: nat, k: nat, r: nat)
      requires WordSize(l) && r < l && 8 * (l * k + r) == 112 * l
      ensures k == 14 && r == 0
    {
    }

    /** HASH256_hash and HASH512_hash: the digest of the message, and a fresh start. */
    method Finish() returns (digest: seq<int>)
      requires Valid() && hlen <= l * |HashValue(c, iv, l, M)|
      modifies this, w
      ensures Valid() && M == []
      ensures digest == Bytes(HashValue(c, iv, l, old(M)), l, hlen)
    {
      var len0, len1 := length0, length1;
      ghost var m := M;
      PadOut();
      w[14], w[15] := len1, len0;
      assert w[..] == g.cur + LengthWords(l, |m|);
      LastBlock(c, iv, l, m, M, h, g);
      h := c(h, w[..]);
      digest := Output(h, l, hlen);
      Restart();
    }

    static method Output(h: seq<int>, l: nat, hlen: nat) returns (digest: seq<int>)
      requires WordSize(l) && hlen <= l * |h|
      ensures digest == Bytes(h, l, hlen)
    {
      digest := [];
      var i := 0;
      while i < hlen
        invariant 0 <= i <= hlen && |digest| == i
        invariant forall k :: 0 <= k < i ==> digest[k] == Bytes(h, l, hlen)[k]
      {
        digest := digest + [ByteAt(h[i / l], l - 1 - i % l)];
        i := i + 1;
      }
    }
  }

  /** Byte-at-a-time hashing computes the hash value of the padded message, for every message. */
  method HashMessage(c: Compress, iv: seq<int>, l: nat, hlen: nat, m: seq<int>) returns (digest: seq<int>)
    requires WordSize(l) && ByteString(m) && hlen <= l * |HashValue(c, iv, l, m)|
    ensures digest == Bytes(HashValue(c, iv, l, m), l, hlen)
  {
    var sh := new Hash(c, iv, l, hlen);
    var i := 0;
    while i < |m|
      invariant 0 <= i <= |m| && sh.Valid() && sh.M == m[..i]
      invariant fresh(sh) && fresh(sh.w)
    {
      sh.Process(m[i]);
      assert m[..i] + [m[i]] == m[..i + 1];
      i := i + 1;
    }
    assert m[..i] == m;
    digest := sh.Finish();
  }
}
