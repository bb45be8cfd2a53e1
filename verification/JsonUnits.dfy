/**
 * The unit escapes of JSON strings (reader.inl, ConsumeUnicode): each of four characters is taken as a decimal digit and
 * shifted into place, so that only some escapes give the code unit that they name.
 */
module JsonUnits {
  import opened Arith
  import opened Json
  import W = Words

  /** The value of a hexadecimal digit of section 7 of RFC 8259. */
  ghost predicate HexDigit(c: Octet) { 48 <= c <= 57 || 65 <= c <= 70 || 97 <= c <= 102 }

  function Hex(c: Octet): int { if c <= 57 then c - 48 else if c <= 70 then c - 55 else c - 87 }

  ghost predicate Decimal(c: Octet) { 48 <= c <= 57 }

  /** The number of a word without sign. */
  function Unsigned(w: W.Word): nat {
    if |w| == 0 then 0 else (if w[0] then 1 else 0) + 2 * Unsigned(w[1..])
  }

  lemma {:induction false} SignedIs(w: W.Word)
    requires |w| > 0
    ensures W.Signed(w) == Unsigned(w) - if w[|w| - 1] then Pow(2, |w|) else 0
    decreases |w|
  {
    if |w| > 1 {
      SignedIs(w[1..]);
    } else {
      assert w[1..] == [] && Pow(2, 1) == 2;
    }
  }

  lemma {:induction false} UnsignedConcat(a: W.Word, b: W.Word)
    ensures Unsigned(a + b) == Unsigned(a) + Pow(2, |a|) * Unsigned(b)
    decreases |a|
  {
    if |a| == 0 {
      assert a + b == b;
    } else {
      UnsignedConcat(a[1..], b);
      assert (a + b)[1..] == a[1..] + b;
      Twice(Pow(2, |a| - 1), Unsigned(b));
    }
  }

  lemma Twice(p: int, x: int)
    ensures 2 * (p * x) == (2 * p) * x
  {
  }

  lemma {:induction false} UnsignedBound(w: W.Word)
    ensures Unsigned(w) < Pow(2, |w|)
    decreases |w|
  {
    if |w| > 0 { UnsignedBound(w[1..]); }
  }

  // ---------- four bits at a time ----------

  /** Four words, or-ed as they are in the reader. */
  function Or4(p: int, q: int, r: int, t: int, n: nat): (w: W.Word)
    ensures |w| == n
  {
    W.Or(W.Or(W.Bits(p, n), W.Bits(q, n)), W.Or(W.Bits(r, n), W.Bits(t, n)))
  }

  lemma OneBit(p: int, q: int, r: int, t: int, n: nat)
    requires n > 0
    ensures Or4(p, q, r, t, n) == [p % 2 == 1 || q % 2 == 1 || r % 2 == 1 || t % 2 == 1] + Or4(p / 2, q / 2, r / 2, t / 2, n - 1)
  {
    forall x | x in {p, q, r, t} ensures W.Bits(x, n)[0] == (x % 2 == 1) && W.Bits(x, n)[1..] == W.Bits(x / 2, n - 1) {}
    var w, v := Or4(p, q, r, t, n), Or4(p / 2, q / 2, r / 2, t / 2, n - 1);
    forall i | 0 < i < n ensures w[i] == v[i - 1] {
      assert W.Bits(p, n)[i] == W.Bits(p / 2, n - 1)[i - 1] && W.Bits(q, n)[i] == W.Bits(q / 2, n - 1)[i - 1];
      assert W.Bits(r, n)[i] == W.Bits(r / 2, n - 1)[i - 1] && W.Bits(t, n)[i] == W.Bits(t / 2, n - 1)[i - 1];
    }
  }

  /** The lowest four bits. */
  function Nibble(p: int, q: int, r: int, t: int): W.Word {
    [p % 2 == 1 || q % 2 == 1 || r % 2 == 1 || t % 2 == 1,
     p / 2 % 2 == 1 || q / 2 % 2 == 1 || r / 2 % 2 == 1 || t / 2 % 2 == 1,
     p / 4 % 2 == 1 || q / 4 % 2 == 1 || r / 4 % 2 == 1 || t / 4 % 2 == 1,
     p / 8 % 2 == 1 || q / 8 % 2 == 1 || r / 8 % 2 == 1 || t / 8 % 2 == 1]
  }

  ghost predicate IsNib(p: int, q: int, r: int, t: int, v: nat) {
    forall u {:trigger Marked(u)} :: Marked(u) && u == 15 ==> v == Unsigned(Nibble(p, q, r, t))
  }

  /** Their number, unfolded by NibIs. */
  ghost function Nib(p: int, q: int, r: int, t: int): nat {
    assert IsNib(p, q, r, t, Unsigned(Nibble(p, q, r, t)));
    var v: nat :| IsNib(p, q, r, t, v);
    v
  }

  lemma NibIs(p: int, q: int, r: int, t: int)
    ensures Nib(p, q, r, t) == Unsigned(Nibble(p, q, r, t))
  {
    assert Marked(15);
  }

  lemma FourBits(p: int, q: int, r: int, t: int, n: nat)
    requires n >= 4
    ensures Or4(p, q, r, t, n) == Nibble(p, q, r, t) + Or4(p / 16, q / 16, r / 16, t / 16, n - 4)
  {
    Halved(p, q, r, t);
    TwoBits(p, q, r, t, n);
    TwoBits(p / 4, q / 4, r / 4, t / 4, n - 2);
  }

  lemma TwoBits(p: int, q: int, r: int, t: int, n: nat)
    requires n >= 2
    ensures Or4(p, q, r, t, n) == [p % 2 == 1 || q % 2 == 1 || r % 2 == 1 || t % 2 == 1,
      p / 2 % 2 == 1 || q / 2 % 2 == 1 || r / 2 % 2 == 1 || t / 2 % 2 == 1] + Or4(p / 4, q / 4, r / 4, t / 4, n - 2)
  {
    Halved(p, q, r, t);
    OneBit(p, q, r, t, n);
    OneBit(p / 2, q / 2, r / 2, t / 2, n - 1);
  }

  lemma Halved(p: int, q: int, r: int, t: int)
    ensures p / 2 / 2 == p / 4 && q / 2 / 2 == q / 4 && r / 2 / 2 == r / 4 && t / 2 / 2 == t / 4
    ensures p / 4 / 2 == p / 8 && q / 4 / 2 == q / 8 && r / 4 / 2 == r / 8 && t / 4 / 2 == t / 8
    ensures p / 8 / 2 == p / 16 && q / 8 / 2 == q / 16 && r / 8 / 2 == r / 16 && t / 8 / 2 == t / 16
    ensures p / 4 / 4 == p / 16 && q / 4 / 4 == q / 16 && r / 4 / 4 == r / 16 && t / 4 / 4 == t / 16
  {
  }

  lemma NibbleValue(a: bool, b: bool, c: bool, d: bool)
    ensures Unsigned([a, b, c, d]) == (if a then 1 else 0) + (if b then 2 else 0) + (if c then 4 else 0) + (if d then 8 else 0)
  {
    var w, x, y, z := [a, b, c, d], [b, c, d], [c, d], [d];
    assert w[1..] == x && x[1..] == y && y[1..] == z && z[1..] == [];
    assert Unsigned(z) == if d then 1 else 0;
    assert Unsigned(y) == (if c then 1 else 0) + 2 * Unsigned(z);
    assert Unsigned(x) == (if b then 1 else 0) + 2 * Unsigned(y);
  }

  lemma LastFour(t: int)
    ensures t % 16 == t % 2 + 2 * (t / 2 % 2) + 4 * (t / 4 % 2) + 8 * (t / 8 % 2)
  {
    var a := t / 2;
    var b := a / 2;
    var c := b / 2;
    var d := c / 2;
    Halved(t, t, t, t);
    assert t == 16 * d + (8 * (c % 2) + 4 * (b % 2) + 2 * (a % 2) + t % 2);
  }

  /** A multiple of 16 does not reach the lowest four bits. */
  lemma NibbleOf(p: int, q: int, r: int, t: int)
    requires p % 16 == 0 && q % 16 == 0 && r % 16 == 0
    ensures Unsigned(Nibble(p, q, r, t)) == t % 16
  {
    LastFour(p);
    LastFour(q);
    LastFour(r);
    LastFour(t);
    NibbleValue(t % 2 == 1, t / 2 % 2 == 1, t / 4 % 2 == 1, t / 8 % 2 == 1);
  }

  lemma Swapped(p: int, q: int, r: int, t: int)
    ensures Nibble(p, q, r, t) == Nibble(p, q, t, r) == Nibble(t, p, r, q) == Nibble(t, q, r, p)
  {
  }

  // ---------- the unit of four characters ----------

  lemma UnitSplit(a: int, b: int, c: int, d: int, n: nat)
    requires n == UNIT_BITS()
    ensures Or4(a * 4096, b * 256, c * 16, d, n) == Nibble(a * 4096, b * 256, c * 16, d) + (Nibble(a * 256, b * 16, c, d / 16)
      + (Nibble(a * 16, b, c / 16, d / 16 / 16) + (Nibble(a, b / 16, c / 16 / 16, d / 16 / 16 / 16) + [])))
  {
    Sixteenths(a, b, c);
    FourBits(a * 4096, b * 256, c * 16, d, n);
    FourBits(a * 256, b * 16, c, d / 16, n - 4);
    FourBits(a * 16, b, c / 16, d / 16 / 16, n - 8);
    FourBits(a, b / 16, c / 16 / 16, d / 16 / 16 / 16, n - 12);
    assert Or4(a / 16, b / 16 / 16, c / 16 / 16 / 16, d / 16 / 16 / 16 / 16, n - 16) == [];
  }

  /** The four digits, in base 16, of the word that the reader makes of the numbers a to d. */
  lemma UnitDigits(a: int, b: int, c: int, d: int, n: nat) returns (n0: nat, n1: nat, n2: nat, n3: nat)
    requires n == UNIT_BITS()
    ensures n0 < 16 && n1 < 16 && n2 < 16 && n3 < 16
    ensures Unsigned(Or4(a * 4096, b * 256, c * 16, d, n)) == n0 + 16 * n1 + 256 * n2 + 4096 * n3
    ensures n0 == Nib(a * 4096, b * 256, c * 16, d) && n1 == Nib(a * 256, b * 16, c, d / 16)
    ensures n2 == Nib(a * 16, b, c / 16, d / 16 / 16) && n3 == Nib(a, b / 16, c / 16 / 16, d / 16 / 16 / 16)
  {
    var w0, w1 := Nibble(a * 4096, b * 256, c * 16, d), Nibble(a * 256, b * 16, c, d / 16);
    var w2, w3 := Nibble(a * 16, b, c / 16, d / 16 / 16), Nibble(a, b / 16, c / 16 / 16, d / 16 / 16 / 16);
    UnitSplit(a, b, c, d, n);
    Four(w0, w1, w2, w3);
    NibbleBound(w0, w1, w2, w3);
    NibIs(a * 4096, b * 256, c * 16, d);
    NibIs(a * 256, b * 16, c, d / 16);
    NibIs(a * 16, b, c / 16, d / 16 / 16);
    NibIs(a, b / 16, c / 16 / 16, d / 16 / 16 / 16);
    n0, n1, n2, n3 := Unsigned(w0), Unsigned(w1), Unsigned(w2), Unsigned(w3);
  }

  lemma SecondDigit(a: int, b: int, c: int)
    ensures Nib(a * 256, b * 16, c, 0) == c % 16
  {
    NibIs(a * 256, b * 16, c, 0);
    Sixteenths(a, b, c);
    Swapped(a * 256, b * 16, c, 0);
    NibbleOf(a * 256, b * 16, 0, c);
  }

  lemma ThirdDigit(a: int, b: int)
    ensures Nib(a * 16, b, 0, 0) == b % 16
  {
    NibIs(a * 16, b, 0, 0);
    Sixteenths(a, b, 0);
    Swapped(a * 16, 0, 0, b);
    Swapped(a * 16, b, 0, 0);
    Swapped(0, a * 16, 0, b);
    NibbleOf(0, a * 16, 0, b);
    assert Nibble(a * 16, b, 0, 0) == Nibble(0, a * 16, 0, b);
  }

  lemma FourthDigit(a: int)
    ensures Nib(a, 0, 0, 0) == a % 16
  {
    NibIs(a, 0, 0, 0);
    assert Nibble(a, 0, 0, 0) == Nibble(0, 0, 0, a);
    NibbleOf(0, 0, 0, a);
  }

  lemma Sixteenths(a: int, b: int, c: int)
    ensures a * 4096 / 16 == a * 256 && a * 256 / 16 == a * 16 && a * 16 / 16 == a && b * 256 / 16 == b * 16 && b * 16 / 16 == b && c * 16 / 16 == c
    ensures a * 4096 % 16 == 0 && a * 256 % 16 == 0 && a * 16 % 16 == 0 && b * 256 % 16 == 0 && b * 16 % 16 == 0 && c * 16 % 16 == 0
  {
  }

  lemma NibbleBound(w0: W.Word, w1: W.Word, w2: W.Word, w3: W.Word)
    requires |w0| == |w1| == |w2| == |w3| == 4
    ensures Unsigned(w0) < 16 && Unsigned(w1) < 16 && Unsigned(w2) < 16 && Unsigned(w3) < 16
  {
    assert Pow(2, 4) == 16;
    UnsignedBound(w0);
    UnsignedBound(w1);
    UnsignedBound(w2);
    UnsignedBound(w3);
  }

  lemma Four(w0: W.Word, w1: W.Word, w2: W.Word, w3: W.Word)
    requires |w0| == |w1| == |w2| == |w3| == 4
    ensures Unsigned(w0 + (w1 + (w2 + (w3 + [])))) == Unsigned(w0) + 16 * Unsigned(w1) + 256 * Unsigned(w2) + 4096 * Unsigned(w3)
  {
    assert Pow(2, 4) == 16 && w3 + [] == w3;
    UnsignedConcat(w2, w3);
    UnsignedConcat(w1, w2 + w3);
    UnsignedConcat(w0, w1 + (w2 + w3));
  }

  lemma UnitIsUnsigned(a: Octet, b: Octet, c: Octet, d: Octet, n: nat)
    requires n == UNIT_BITS()
    ensures UnitOf(a, b, c, d) == Unsigned(Or4(Digit(a) * 4096, Digit(b) * 256, Digit(c) * 16, Digit(d), n))
  {
    var w := Or4(Digit(a) * 4096, Digit(b) * 256, Digit(c) * 16, Digit(d), n);
    assert UnitOf(a, b, c, d) == W.Signed(w) % 0x1_0000;
    UnsignedOf(w, n);
  }

  lemma UnsignedOf(w: W.Word, n: nat)
    requires |w| == n == UNIT_BITS()
    ensures W.Signed(w) % 0x1_0000 == Unsigned(w)
  {
    SignedIs(w);
    UnsignedBound(w);
    SixteenBits(n);
  }

  lemma SixteenBits(n: nat)
    requires n == UNIT_BITS()
    ensures Pow(2, n) == 0x1_0000
  {
    assert Pow(2, 8) == 256;
    PowAdd(2, 8, 8);
  }

  /** Numbers of four digits in base 16 are equal digit by digit. */
  lemma SameDigits(n0: int, n1: int, n2: int, n3: int, h0: int, h1: int, h2: int, h3: int)
    requires 0 <= n0 < 16 && 0 <= n1 < 16 && 0 <= n2 < 16 && 0 <= n3 < 16 && 0 <= h0 < 16 && 0 <= h1 < 16 && 0 <= h2 < 16 && 0 <= h3 < 16
    ensures n0 + 16 * n1 + 256 * n2 + 4096 * n3 == 4096 * h3 + 256 * h2 + 16 * h1 + h0 <==> n0 == h0 && n1 == h1 && n2 == h2 && n3 == h3
  {
  }

  /** The digits of the unit, as far as no number reaches into the place of another. */
  lemma DigitsAre(p: int, q: int, r: int, t: int)
    requires 0 <= t
    ensures Nib(p * 4096, q * 256, r * 16, t) == t % 16
    ensures t < 16 ==> Nib(p * 256, q * 16, r, t / 16) == r % 16
    ensures t < 16 && 0 <= r < 16 ==> Nib(p * 16, q, r / 16, t / 16 / 16) == q % 16
    ensures t < 16 && 0 <= r < 16 && 0 <= q < 16 ==> Nib(p, q / 16, r / 16 / 16, t / 16 / 16 / 16) == p % 16
  {
    FirstDigit(p, q, r, t);
    if t < 16 {
      NoSixteenth(t);
      SecondDigit(p, q, r);
      if 0 <= r < 16 {
        NoSixteenth(r);
        ThirdDigit(p, q);
        if 0 <= q < 16 {
          NoSixteenth(q);
          FourthDigit(p);
        }
      }
    }
  }

  lemma NoSixteenth(x: int)
    requires 0 <= x < 16
    ensures x / 16 == 0 && x / 16 / 16 == 0 && x / 16 / 16 / 16 == 0
  {
  }

  lemma FirstDigit(p: int, q: int, r: int, t: int)
    ensures Nib(p * 4096, q * 256, r * 16, t) == t % 16
  {
    NibIs(p * 4096, q * 256, r * 16, t);
    Sixteenths(p, q, r);
    NibbleOf(p * 4096, q * 256, r * 16, t);
  }

  lemma SpilledDigit(r: int)
    ensures Nib(0, 0, r, 0) == r % 16
  {
    NibIs(0, 0, r, 0);
    Swapped(0, 0, r, 0);
    NibbleOf(0, 0, 0, r);
  }

  /** An escape of four hexadecimal digits gives the unit that it names if and only if none of them is a letter. */
  lemma UnitIff(a: Octet, b: Octet, c: Octet, d: Octet)
    requires HexDigit(a) && HexDigit(b) && HexDigit(c) && HexDigit(d)
    ensures UnitOf(a, b, c, d) == 4096 * Hex(a) + 256 * Hex(b) + 16 * Hex(c) + Hex(d)
      <==> Decimal(a) && Decimal(b) && Decimal(c) && Decimal(d)
  {
    UnitIsUnsigned(a, b, c, d, UNIT_BITS());
    var n0, n1, n2, n3 := UnitDigits(Digit(a), Digit(b), Digit(c), Digit(d), UNIT_BITS());
    DigitsAre(Digit(a), Digit(b), Digit(c), Digit(d));
    Letter(a);
    Letter(b);
    Letter(c);
    Letter(d);
    SameDigits(n0, n1, n2, n3, Hex(d), Hex(c), Hex(b), Hex(a));
  }

  /** After two zeros, a letter in the third place reaches into the second. */
  lemma Spills(p: int, q: int, r: int, t: int, n: nat)
    requires p == 0 && q == 0 && 0 <= r < 256 && 0 <= t < 16 && n == UNIT_BITS()
    ensures Unsigned(Or4(p * 4096, q * 256, r * 16, t, n)) == 16 * r + t
  {
    var n0, n1, n2, n3 := UnitDigits(p, q, r, t, n);
    DigitsAre(p, q, r, t);
    NoSixteenth(t);
    SpilledIs(p, q, r);
  }

  lemma SpilledIs(p: int, q: int, r: int)
    requires p == 0 && q == 0 && 0 <= r < 256
    ensures Nib(p * 16, q, r / 16, 0) == r / 16 && Nib(p, q / 16, r / 16 / 16, 0) == 0
  {
    SpilledDigit(r / 16);
    FourthDigit(p);
    assert r / 16 < 16 && r / 16 / 16 == 0;
  }

  /** The escape 00e9, of a lower-case e with an acute accent, is read as 0359. */
  lemma WrongUnit(a: Octet, c: Octet, d: Octet)
    requires a == '0' as int && c == 'e' as int && d == '9' as int
    ensures UnitOf(a, a, c, d) == 0x359 && 4096 * Hex(a) + 256 * Hex(a) + 16 * Hex(c) + Hex(d) == 0xE9
  {
    UnitIsUnsigned(a, a, c, d, UNIT_BITS());
    Spills(Digit(a), Digit(a), Digit(c), Digit(d), UNIT_BITS());
  }

  /** The low four bits of a character less 48 are its digit exactly if it is a decimal digit. */
  lemma Letter(c: Octet)
    requires HexDigit(c)
    ensures 0 <= Hex(c) < 16 && (Digit(c) % 16 == Hex(c) <==> Decimal(c)) && (Decimal(c) ==> 0 <= Digit(c) < 16)
  {
  }
}
