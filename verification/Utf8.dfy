/**
 * The UTF-8 and UTF-16 transcoders of lib/cajun-2.0.2/utf8, against section 4 of RFC 3629.  Octets and 16-bit
 * words are integers in range; an iterator is a position in a sequence.
 */
module Utf8 {

  type Octet = x: int | 0 <= x < 256
  type Word = x: int | 0 <= x < 0x1_0000

  // ---------- code points and their encodings ----------

  predicate Surrogate(cp: int) { 0xD800 <= cp <= 0xDFFF }

  /** is_code_point_valid */
  predicate Valid(cp: int) { 0 <= cp <= 0x10FFFF && !Surrogate(cp) }

  /** The octets that append writes. */
  function Enc(cp: int): (r: seq<Octet>)
    requires Valid(cp)
    ensures 1 <= |r| <= 4
  {
    if cp < 0x80 then [cp]
    else if cp < 0x800 then [cp / 64 + 0xC0, cp % 64 + 0x80]
    else if cp < 0x10000 then [cp / 4096 + 0xE0, cp / 64 % 64 + 0x80, cp % 64 + 0x80]
    else [cp / 262144 + 0xF0, cp / 4096 % 64 + 0x80, cp / 64 % 64 + 0x80, cp % 64 + 0x80]
  }

  /** is_trail; UTF8-tail of the RFC. */
  predicate Trail(b: Octet) { b / 64 == 2 }

  /** UTF8-char of section 4 of RFC 3629. */
  predicate Char(s: seq<Octet>) {
    || (|s| == 1 && s[0] <= 0x7F)
    || (|s| == 2 && 0xC2 <= s[0] <= 0xDF && 0x80 <= s[1] <= 0xBF)
    || (|s| == 3 && 0x80 <= s[2] <= 0xBF && (
        || (s[0] == 0xE0 && 0xA0 <= s[1] <= 0xBF) || (0xE1 <= s[0] <= 0xEC && 0x80 <= s[1] <= 0xBF)
        || (s[0] == 0xED && 0x80 <= s[1] <= 0x9F) || (0xEE <= s[0] <= 0xEF && 0x80 <= s[1] <= 0xBF)))
    || (|s| == 4 && 0x80 <= s[2] <= 0xBF && 0x80 <= s[3] <= 0xBF && (
        || (s[0] == 0xF0 && 0x90 <= s[1] <= 0xBF) || (0xF1 <= s[0] <= 0xF3 && 0x80 <= s[1] <= 0xBF)
        || (s[0] == 0xF4 && 0x80 <= s[1] <= 0x8F)))
  }

  /** a..d in the free bits of the octets. */
  ghost predicate Fill(cp: int, lead: int, size: int, a: int, b: int, c: int, d: int) {
    && 0 <= a - lead < size && 0x80 <= b < 0xC0 && 0x80 <= c < 0xC0 && 0x80 <= d < 0xC0
    && cp == 262144 * (a - lead) + 4096 * (b - 0x80) + 64 * (c - 0x80) + (d - 0x80)
  }

  /** The table of section 3 of RFC 3629: the bits of the code point in the free bits of the octets, highest first. */
  lemma EncIsTable(cp: int)
    requires Valid(cp)
    ensures cp <= 0x7F ==> Enc(cp) == [cp]
    ensures 0x80 <= cp <= 0x7FF ==> var s := Enc(cp); |s| == 2 && 0xC0 <= s[0] < 0xE0 && Fill(cp, 0, 1, 0, 0x80, 0x80 + (s[0] - 0xC0), s[1])
    ensures 0x800 <= cp <= 0xFFFF ==> var s := Enc(cp); |s| == 3 && 0xE0 <= s[0] < 0xF0 && Fill(cp, 0, 1, 0, 0x80 + (s[0] - 0xE0), s[1], s[2])
    ensures cp > 0xFFFF ==> var s := Enc(cp); |s| == 4 && Fill(cp, 0xF0, 8, s[0], s[1], s[2], s[3])
  {
    if 0x800 <= cp < 0x10000 { ThreeSplit(cp); }
    if cp >= 0x10000 { FourSplit(cp); }
  }

  // ---------- decoding one character ----------

  datatype Error = Utf8Ok | NotEnoughRoom | InvalidLead | IncompleteSequence | OverlongSequence | InvalidCodePoint

  /** sequence_length */
  function SequenceLength(lead: Octet): int {
    if lead < 0x80 then 1 else if lead / 32 == 0x6 then 2 else if lead / 16 == 0xE then 3 else if lead / 8 == 0x1E then 4 else 0
  }

  /** is_overlong_sequence */
  predicate Overlong(cp: int, length: int) {
    if cp < 0x80 then length != 1 else if cp < 0x800 then length != 2 else if cp < 0x10000 then length != 3 else false
  }

  /** The code point that get_sequence_1 to get_sequence_4 assemble. */
  function Assemble(s: seq<Octet>): int
    requires 1 <= |s| <= 4
  {
    var a: int := s[0];
    if |s| == 1 then a
    else
      var b: int := s[1];
      if |s| == 2 then a * 64 % 0x800 + b % 64
      else
        var c: int := s[2];
        if |s| == 3 then a * 4096 % 0x10000 + b * 64 % 0x1000 + c % 64
        else a * 262144 % 0x200000 + b * 4096 % 0x40000 + c * 64 % 0x1000 + s[3] % 64
  }

  /** What stops the trail octets from position k on, if anything: the end, or an octet that is no trail. */
  function TrailError(s: seq<Octet>, k: nat, n: nat): Error
    requires k <= |s|
    decreases n - k
  {
    if k >= n then Utf8Ok
    else if k == |s| then NotEnoughRoom
    else if !Trail(s[k]) then IncompleteSequence
    else TrailError(s, k + 1, n)
  }

  /** The verdict on the beginning of s. */
  function Outcome(s: seq<Octet>): Error
    requires |s| > 0
  {
    var n := SequenceLength(s[0]);
    if n == 0 then InvalidLead
    else
      var e := TrailError(s, 1, n);
      if e != Utf8Ok then e
      else
        TrailRoom(s, 1, n);
        var cp := Assemble(s[..n]);
        if !Valid(cp) then InvalidCodePoint else if Overlong(cp, n) then OverlongSequence else Utf8Ok
  }

  lemma {:induction false} TrailRoom(s: seq<Octet>, k: nat, n: nat)
    requires k <= |s| && k <= n && TrailError(s, k, n) == Utf8Ok
    ensures n <= |s| && forall i :: k <= i < n ==> Trail(s[i])
    decreases n - k
  {
    if k < n { TrailRoom(s, k + 1, n); }
  }

  lemma {:induction false} TrailGood(s: seq<Octet>, k: nat, n: nat)
    requires k <= n <= |s| && forall i :: k <= i < n ==> Trail(s[i])
    ensures TrailError(s, k, n) == Utf8Ok
    decreases n - k
  {
    if k < n { TrailGood(s, k + 1, n); }
  }

  /** Every encoding of a code point is a character of the RFC, and decodes to that code point. */
  lemma EncIsChar(cp: int)
    requires Valid(cp)
    ensures Decodes(Enc(cp), cp)
  {
    if cp < 0x80 {
      EncOne(cp);
    } else if cp < 0x800 {
      EncTwo(cp);
    } else if cp < 0x10000 {
      EncThree(cp);
    } else {
      EncFour(cp);
    }
  }

  lemma EncOne(cp: int)
    requires 0 <= cp < 0x80
    ensures Decodes(Enc(cp), cp)
  {
    assert Trails(Enc(cp));
  }

  lemma EncTwo(cp: int)
    requires 0x80 <= cp < 0x800
    ensures Decodes(Enc(cp), cp)
  {
    TwoIsChar(cp / 64, cp % 64);
  }

  lemma EncThree(cp: int)
    requires Valid(cp) && 0x800 <= cp < 0x10000
    ensures Decodes(Enc(cp), cp)
  {
    ThreeSplit(cp);
    ThreeIsChar(cp / 4096, cp / 64 % 64, cp % 64);
  }

  lemma EncFour(cp: int)
    requires 0x10000 <= cp <= 0x10FFFF
    ensures Decodes(Enc(cp), cp)
  {
    FourSplit(cp);
    FourIsChar(cp / 262144, cp / 4096 % 64, cp / 64 % 64, cp % 64);
  }

  ghost predicate Trails(s: seq<Octet>) { forall i :: 1 <= i < |s| ==> Trail(s[i]) }

  /** s is one character, and it stands for cp. */
  ghost predicate Decodes(s: seq<Octet>, cp: int) {
    Char(s) && SequenceLength(s[0]) == |s| && Trails(s) && Assemble(s) == cp && !Overlong(cp, |s|)
  }

  lemma ThreeSplit(cp: int)
    requires Valid(cp) && 0x800 <= cp < 0x10000
    ensures var a, b, c := cp / 4096, cp / 64 % 64, cp % 64;
            0 <= a < 16 && cp == 4096 * a + 64 * b + c && (a == 0 ==> b >= 32) && (a == 13 ==> b < 32)
  {
    assert cp / 64 == 64 * (cp / 4096) + cp / 64 % 64;
  }

  lemma FourSplit(cp: int)
    requires 0x10000 <= cp <= 0x10FFFF
    ensures var a, b, c, d := cp / 262144, cp / 4096 % 64, cp / 64 % 64, cp % 64;
            0 <= a <= 4 && cp == 262144 * a + 4096 * b + 64 * c + d && (a == 0 ==> b >= 16) && (a == 4 ==> b < 16)
  {
    assert cp / 64 == 64 * (cp / 4096) + cp / 64 % 64 && cp / 4096 == 64 * (cp / 262144) + cp / 4096 % 64;
  }

  lemma TwoIsChar(a: int, b: int)
    requires 2 <= a < 32 && 0 <= b < 64
    ensures Decodes([a + 0xC0, b + 0x80], 64 * a + b)
  {
    TwoOctets(a, b);
  }

  lemma ThreeIsChar(a: int, b: int, c: int)
    requires 0 <= a < 16 && 0 <= b < 64 && 0 <= c < 64 && (a == 0 ==> b >= 32) && (a == 13 ==> b < 32)
    ensures Decodes([a + 0xE0, b + 0x80, c + 0x80], 4096 * a + 64 * b + c)
  {
    ThreeOctets(a, b, c);
  }

  lemma FourIsChar(a: int, b: int, c: int, d: int)
    requires 0 <= a <= 4 && 0 <= b < 64 && 0 <= c < 64 && 0 <= d < 64 && (a == 0 ==> b >= 16) && (a == 4 ==> b < 16)
    ensures Decodes([a + 0xF0, b + 0x80, c + 0x80, d + 0x80], 262144 * a + 4096 * b + 64 * c + d)
  {
    FourOctets(a, b, c, d);
  }

  lemma TwoOctets(a: int, b: int)
    requires 0 <= a < 32 && 0 <= b < 64
    ensures (a + 0xC0) * 64 % 0x800 == 64 * a && (b + 0x80) % 64 == b
  {
  }

  lemma ThreeOctets(a: int, b: int, c: int)
    requires 0 <= a < 16 && 0 <= b < 64 && 0 <= c < 64
    ensures (a + 0xE0) * 4096 % 0x10000 == 4096 * a && (b + 0x80) * 64 % 0x1000 == 64 * b && (c + 0x80) % 64 == c
  {
  }

  lemma FourOctets(a: int, b: int, c: int, d: int)
    requires 0 <= a < 8 && 0 <= b < 64 && 0 <= c < 64 && 0 <= d < 64
    ensures (a + 0xF0) * 262144 % 0x200000 == 262144 * a && (b + 0x80) * 4096 % 0x40000 == 4096 * b
    ensures (c + 0x80) * 64 % 0x1000 == 64 * c && (d + 0x80) % 64 == d
  {
  }

  /** Every character of the RFC is the encoding of one valid code point. */
  lemma CharIsEnc(s: seq<Octet>)
    requires Char(s)
    ensures Valid(Assemble(s)) && Enc(Assemble(s)) == s
  {
    if |s| == 2 {
      TwoBack(s[0] - 0xC0, s[1] - 0x80);
      assert s == [s[0], s[1]];
    } else if |s| == 3 {
      ThreeBack(s[0] - 0xE0, s[1] - 0x80, s[2] - 0x80);
      assert s == [s[0], s[1], s[2]];
    } else if |s| == 4 {
      FourBack(s[0] - 0xF0, s[1] - 0x80, s[2] - 0x80, s[3] - 0x80);
      assert s == [s[0], s[1], s[2], s[3]];
    }
  }

  lemma TwoBack(a: int, b: int)
    requires 2 <= a < 32 && 0 <= b < 64
    ensures var cp := Assemble([a + 0xC0, b + 0x80]); Valid(cp) && Enc(cp) == [a + 0xC0, b + 0x80]
  {
    TwoOctets(a, b);
  }

  lemma ThreeBack(a: int, b: int, c: int)
    requires 0 <= a < 16 && 0 <= b < 64 && 0 <= c < 64 && (a == 0 ==> b >= 32) && (a == 13 ==> b < 32)
    ensures var cp := Assemble([a + 0xE0, b + 0x80, c + 0x80]); Valid(cp) && Enc(cp) == [a + 0xE0, b + 0x80, c + 0x80]
  {
    ThreeOctets(a, b, c);
    ThreeParts(a, b, c);
  }

  lemma FourBack(a: int, b: int, c: int, d: int)
    requires 0 <= a <= 4 && 0 <= b < 64 && 0 <= c < 64 && 0 <= d < 64 && (a == 0 ==> b >= 16) && (a == 4 ==> b < 16)
    ensures var cp := Assemble([a + 0xF0, b + 0x80, c + 0x80, d + 0x80]);
            Valid(cp) && Enc(cp) == [a + 0xF0, b + 0x80, c + 0x80, d + 0x80]
  {
    FourOctets(a, b, c, d);
    FourParts(a, b, c, d);
  }

  lemma ThreeParts(a: int, b: int, c: int)
    requires 0 <= a < 16 && 0 <= b < 64 && 0 <= c < 64
    ensures var cp := 4096 * a + 64 * b + c; cp / 4096 == a && cp / 64 % 64 == b && cp % 64 == c
  {
    assert (4096 * a + 64 * b + c) / 64 == 64 * a + b;
  }

  lemma FourParts(a: int, b: int, c: int, d: int)
    requires 0 <= a < 8 && 0 <= b < 64 && 0 <= c < 64 && 0 <= d < 64
    ensures var cp := 262144 * a + 4096 * b + 64 * c + d; cp / 262144 == a && cp / 4096 % 64 == b && cp / 64 % 64 == c && cp % 64 == d
  {
    var cp := 262144 * a + 4096 * b + 64 * c + d;
    assert cp / 64 == 4096 * a + 64 * b + c && cp / 4096 == 64 * a + b;
  }

  /** Lead, trails, range and shortest form together are the grammar of the RFC. */
  lemma AcceptedIsChar(s: seq<Octet>)
    requires 1 <= |s| <= 4 && SequenceLength(s[0]) == |s| && (forall i :: 1 <= i < |s| ==> Trail(s[i]))
    requires Valid(Assemble(s)) && !Overlong(Assemble(s), |s|)
    ensures Char(s)
  {
    var a: int := s[0];
    if |s| == 2 {
      TwoOctets(a - 0xC0, s[1] - 0x80);
    } else if |s| == 3 {
      ThreeOctets(a - 0xE0, s[1] - 0x80, s[2] - 0x80);
    } else if |s| == 4 {
      FourOctets(a - 0xF0, s[1] - 0x80, s[2] - 0x80, s[3] - 0x80);
    }
  }

  /** Accepted means: the octets are those that append writes for the code point. */
  lemma AcceptedBegins(s: seq<Octet>)
    requires |s| > 0 && Outcome(s) == Utf8Ok
    ensures 1 <= SequenceLength(s[0]) <= |s| && Begins(Enc8(), s, Assemble(s[..SequenceLength(s[0])]))
    ensures |Enc(Assemble(s[..SequenceLength(s[0])]))| == SequenceLength(s[0])
  {
    var n := SequenceLength(s[0]);
    TrailRoom(s, 1, n);
    AcceptedIsChar(s[..n]);
    CharIsEnc(s[..n]);
  }

  /** And whatever append writes is accepted. */
  lemma BeginsAccepted(s: seq<Octet>, cp: int)
    requires Begins(Enc8(), s, cp)
    ensures Outcome(s) == Utf8Ok && SequenceLength(s[0]) == |Enc(cp)| && Assemble(s[..|Enc(cp)|]) == cp
  {
    EncIsChar(cp);
    var n := |Enc(cp)|;
    assert s[0] == Enc(cp)[0];
    forall i | 1 <= i < n ensures Trail(s[i]) { assert s[i] == Enc(cp)[i]; }
    TrailGood(s, 1, n);
  }

  /** Accepted exactly if some code point's octets come next. */
  lemma AcceptedIff(s: seq<Octet>)
    requires |s| > 0
    ensures Outcome(s) == Utf8Ok <==> exists cp :: Begins(Enc8(), s, cp)
  {
    if Outcome(s) == Utf8Ok { AcceptedBegins(s); }
    if cp :| Begins(Enc8(), s, cp) { BeginsAccepted(s, cp); }
  }

  /** increase_safely */
  method IncreaseSafely(s: seq<Octet>, it: nat) returns (err: Error, it': nat)
    requires it < |s|
    ensures it' == it + 1
    ensures err == if it' == |s| then NotEnoughRoom else if !Trail(s[it']) then IncompleteSequence else Utf8Ok
  {
    it' := it + 1;
    if it' == |s| { return NotEnoughRoom, it'; }
    if !Trail(s[it']) { return IncompleteSequence, it'; }
    err := Utf8Ok;
  }

  /** get_sequence_1 to get_sequence_4: the position ends on the last octet read. */
  method GetSequence(s: seq<Octet>, it: nat, n: int) returns (err: Error, it': nat, cp: int)
    requires it < |s| && 1 <= n <= 4
    ensures err == TrailError(s[it..], 1, n)
    ensures err == Utf8Ok ==> it' == it + n - 1 && it + n <= |s| && cp == Assemble(s[it..it + n])
  {
    ghost var t := s[it..];
    err, it', cp := Utf8Ok, it, s[it];
    if n == 1 { return; }
    err, it' := IncreaseSafely(s, it');
    if err != Utf8Ok { return; }
    var b: int := s[it'];
    if n == 2 {
      cp := cp * 64 % 0x800 + b % 64;
      return;
    }
    if n == 3 { cp := cp * 4096 % 0x10000 + b * 64 % 0x1000; } else { cp := cp * 262144 % 0x200000 + b * 4096 % 0x40000; }
    err, it' := IncreaseSafely(s, it');
    if err != Utf8Ok { return; }
    b := s[it'];
    if n == 3 {
      cp := cp + b % 64;
      return;
    }
    cp := cp + b * 64 % 0x1000;
    err, it' := IncreaseSafely(s, it');
    if err != Utf8Ok { return; }
    cp := cp + s[it'] % 64;
  }

  /** validate_next: on failure the position is restored. */
  method ValidateNext(s: seq<Octet>, it: nat) returns (err: Error, it': nat, cp: int)
    requires it < |s|
    ensures err == Outcome(s[it..]) && (err == Utf8Ok <==> exists c :: Begins(Enc8(), s[it..], c))
    ensures err == Utf8Ok ==> it < it' <= |s| && Valid(cp) && Enc(cp) == s[it..it']
    ensures err != Utf8Ok ==> it' == it
  {
    AcceptedIff(s[it..]);
    it', cp := it, 0;
    var length := SequenceLength(s[it]);
    if length == 0 { return InvalidLead, it, 0; }
    err, it', cp := GetSequence(s, it, length);
    if err == Utf8Ok {
      assert s[it..][..length] == s[it..it + length];
      if Valid(cp) {
        if !Overlong(cp, length) {
          AcceptedBegins(s[it..]);
          it' := it' + 1;
          return;
        } else {
          err := OverlongSequence;
        }
      } else {
        err := InvalidCodePoint;
      }
    }
    it' := it;
  }

  // ---------- whole texts, in either encoding ----------

  ghost predicate AllValid(cps: seq<int>) { forall i :: 0 <= i < |cps| ==> Valid(cps[i]) }

  /** The encoded form of a text. */
  ghost function Text<U>(enc: int -> seq<U>, cps: seq<int>): seq<U> {
    if |cps| == 0 then [] else enc(cps[0]) + Text(enc, cps[1..])
  }

  ghost predicate WellFormed<U>(enc: int -> seq<U>, s: seq<U>) { exists cps :: AllValid(cps) && Text(enc, cps) == s }

  ghost predicate Both<U>(s: seq<U>, c: int, d: int) { true }

  /** s begins with a character. */
  ghost predicate Begins<U>(enc: int -> seq<U>, s: seq<U>, cp: int) { Valid(cp) && enc(cp) <= s && |enc(cp)| > 0 }

  /** No character is the beginning of another. */
  ghost predicate PrefixFree<U(!new)>(enc: int -> seq<U>) {
    && (forall cp :: Valid(cp) ==> |enc(cp)| > 0)
    && (forall s: seq<U>, c, d {:trigger Both(s, c, d)} :: Both(s, c, d) && Begins(enc, s, c) && Begins(enc, s, d) ==> c == d)
  }

  lemma {:induction false} TextNext<U>(enc: int -> seq<U>, cps: seq<int>, cp: int)
    requires AllValid(cps) && Valid(cp)
    ensures AllValid(cps + [cp]) && Text(enc, cps + [cp]) == Text(enc, cps) + enc(cp)
  {
    var t := cps + [cp];
    if |cps| == 0 {
      assert t[1..] == [] && Text(enc, t[1..]) == [];
    } else {
      TextNext(enc, cps[1..], cp);
      assert t[1..] == cps[1..] + [cp];
    }
  }

  lemma CutFront<U>(e: seq<U>, x: seq<U>, y: seq<U>)
    requires e + x == e + y
    ensures x == y
  {
    assert (e + x)[|e|..] == x && (e + y)[|e|..] == y;
  }

  /** Cutting a text off the front of a text leaves a text. */
  lemma {:induction false} TextRest<U(!new)>(enc: int -> seq<U>, cps: seq<int>, front: seq<int>, rest: seq<U>)
    requires PrefixFree(enc) && AllValid(cps) && AllValid(front) && Text(enc, cps) == Text(enc, front) + rest
    ensures front <= cps && Text(enc, cps[|front|..]) == rest
    decreases |front|
  {
    if |front| == 0 {
      assert cps[0..] == cps && Text(enc, front) + rest == rest;
    } else {
      var e, s := enc(front[0]), Text(enc, cps);
      assert s == e + (Text(enc, front[1..]) + rest);
      SameHead(enc, cps, front[0], Text(enc, front[1..]) + rest);
      TextRest(enc, cps[1..], front[1..], rest);
      assert cps[1..][|front| - 1..] == cps[|front|..];
      assert [front[0]] + front[1..] == front && [cps[0]] + cps[1..] == cps;
    }
  }

  lemma SameHead<U(!new)>(enc: int -> seq<U>, cps: seq<int>, c: int, x: seq<U>)
    requires PrefixFree(enc) && AllValid(cps) && Valid(c) && Text(enc, cps) == enc(c) + x
    ensures |cps| > 0 && cps[0] == c && Text(enc, cps[1..]) == x
  {
    assert |enc(c)| > 0;
    var s, d := Text(enc, cps), cps[0];
    assert |enc(d)| > 0 && Both(s, c, d);
    assert enc(c) <= s && enc(d) <= s;
    CutFront(enc(c), x, Text(enc, cps[1..]));
  }

  /** Equal forms belong to equal texts. */
  lemma TextInjective<U(!new)>(enc: int -> seq<U>, a: seq<int>, b: seq<int>)
    requires PrefixFree(enc) && AllValid(a) && AllValid(b) && Text(enc, a) == Text(enc, b)
    ensures a == b
  {
    assert Text(enc, b) + [] == Text(enc, b) && Text(enc, a) + [] == Text(enc, a);
    TextRest(enc, a, b, []);
    TextRest(enc, b, a, []);
  }

  /** A rest that does not begin with a character makes the whole ill-formed. */
  lemma IllFormed<U(!new)>(enc: int -> seq<U>, s: seq<U>, front: seq<int>, it: nat)
    requires PrefixFree(enc) && AllValid(front) && it < |s| && Text(enc, front) == s[..it] && forall cp :: !Begins(enc, s[it..], cp)
    ensures !WellFormed(enc, s)
  {
    if WellFormed(enc, s) {
      var cps :| AllValid(cps) && Text(enc, cps) == s;
      assert s == s[..it] + s[it..];
      TextRest(enc, cps, front, s[it..]);
      var more := cps[|front|..];
      if |more| > 0 {
        assert |enc(more[0])| > 0;
        assert Begins(enc, s[it..], more[0]);
      }
    }
  }

  /** UTF-8 */
  function Enc8(): int -> seq<Octet> { cp => if Valid(cp) then Enc(cp) else [] }

  lemma Prefix8()
    ensures PrefixFree(Enc8())
  {
    forall s: seq<Octet>, c, d {:trigger Both(s, c, d)} | Both(s, c, d) && Begins(Enc8(), s, c) && Begins(Enc8(), s, d) ensures c == d {
      BeginsAccepted(s, c);
      BeginsAccepted(s, d);
    }
  }

  lemma IllFormed8(s: seq<Octet>, front: seq<int>, it: nat)
    requires AllValid(front) && it < |s| && Text(Enc8(), front) == s[..it] && Outcome(s[it..]) != Utf8Ok
    ensures !WellFormed(Enc8(), s)
  {
    Prefix8();
    forall cp ensures !Begins(Enc8(), s[it..], cp) {
      if Begins(Enc8(), s[it..], cp) { BeginsAccepted(s[it..], cp); }
    }
    IllFormed(Enc8(), s, front, it);
  }

  /** find_invalid: everything before the result is well-formed, and the result is the end only of a
      well-formed text. */
  method FindInvalid(s: seq<Octet>) returns (r: nat)
    ensures r <= |s| && WellFormed(Enc8(), s[..r]) && (r == |s| <==> WellFormed(Enc8(), s))
  {
    r := 0;
    ghost var cps: seq<int> := [];
    while r < |s|
      invariant r <= |s| && AllValid(cps) && Text(Enc8(), cps) == s[..r]
    {
      var err, r', cp := ValidateNext(s, r);
      if err != Utf8Ok {
        IllFormed8(s, cps, r);
        return;
      }
      TextNext(Enc8(), cps, cp);
      assert s[..r] + s[r..r'] == s[..r'];
      cps, r := cps + [cp], r';
    }
    assert s[..r] == s;
  }

  // ---------- UTF-16 ----------

  function Enc16(cp: int): (r: seq<Word>)
    requires Valid(cp)
    ensures 1 <= |r| <= 2
  {
    if cp > 0xFFFF then [cp / 1024 + 0xD7C0, cp % 1024 + 0xDC00] else [cp]
  }

  ghost predicate Halves(rest: int, hi: int, lo: int) { 0 <= hi < 1024 && 0 <= lo < 1024 && rest == 1024 * hi + lo }

  /** Section 2.1 of RFC 2781: above 0xFFFF, the high and the low ten bits of the rest, high half first. */
  lemma Enc16IsPair(cp: int)
    requires Valid(cp)
    ensures cp <= 0xFFFF ==> Enc16(cp) == [cp]
    ensures cp > 0xFFFF ==> var w := Enc16(cp); |w| == 2 && Halves(cp - 0x10000, w[0] - 0xD800, w[1] - 0xDC00)
  {
  }

  /** UTF-16 */
  function Encode16(): int -> seq<Word> { cp => if Valid(cp) then Enc16(cp) else [] }

  lemma Prefix16()
    ensures PrefixFree(Encode16())
  {
    forall w: seq<Word>, c, d {:trigger Both(w, c, d)} | Both(w, c, d) && Begins(Encode16(), w, c) && Begins(Encode16(), w, d) ensures c == d {
      assert w[0] == Enc16(c)[0] == Enc16(d)[0];
      if c > 0xFFFF { assert w[1] == Enc16(c)[1]; }
      if d > 0xFFFF { assert w[1] == Enc16(d)[1]; }
    }
  }

  // ---------- the transcoders ----------

  /** The exceptions, with what they carry. */
  datatype Exception = NotEnoughRoomError | InvalidUtf8(o: Octet) | InvalidCodePointError(cp: int) | InvalidUtf16(w: Word)

  datatype Result<T> = Ok(value: T) | Thrown(e: Exception)

  /** What next throws for an error at the octet o.  Its code point has not been set by then, so that the exception for an
      invalid one always carries 0. */
  function Raised(e: Error, o: Octet): Exception {
    if e == NotEnoughRoom then NotEnoughRoomError else if e == InvalidCodePoint then InvalidCodePointError(0) else InvalidUtf8(o)
  }

  /** s goes wrong at i: well-formed up to there, and no character follows. */
  ghost predicate WrongAt(s: seq<Octet>, i: nat) { i < |s| && WellFormed(Enc8(), s[..i]) && Outcome(s[i..]) != Utf8Ok }

  /** next */
  method Next8(s: seq<Octet>, it: nat) returns (r: Result<int>, it': nat)
    requires it < |s|
    ensures r.Ok? <==> Outcome(s[it..]) == Utf8Ok
    ensures r.Ok? ==> it < it' <= |s| && Valid(r.value) && Enc(r.value) == s[it..it']
    ensures r.Thrown? ==> r.e == Raised(Outcome(s[it..]), s[it])
  {
    var cp := 0;
    var err, next, c := ValidateNext(s, it);
    it' := next;
    if err == Utf8Ok { cp := c; }
    match err {
      case Utf8Ok => r := Ok(cp);
      case NotEnoughRoom => r := Thrown(NotEnoughRoomError);
      case InvalidCodePoint => r := Thrown(InvalidCodePointError(cp));
      case _ => r := Thrown(InvalidUtf8(s[it']));
    }
  }

  /** utf8to16: throws exactly on ill-formed input, for what is wrong at the first wrong place; otherwise the same
      text, in UTF-16. */
  method Utf8to16(s: seq<Octet>) returns (r: Result<seq<Word>>, ghost cps: seq<int>, ghost at: nat)
    ensures r.Ok? <==> WellFormed(Enc8(), s)
    ensures r.Ok? ==> AllValid(cps) && Text(Enc8(), cps) == s && Text(Encode16(), cps) == r.value
    ensures r.Thrown? ==> WrongAt(s, at) && r.e == Raised(Outcome(s[at..]), s[at])
  {
    at := 0;
    var out: seq<Word>, it := [], 0;
    cps := [];
    while it < |s|
      invariant Read8(s, it, out, cps)
    {
      var n, it' := Next8(s, it);
      if n.Thrown? {
        ReadWrong8(s, it, out, cps);
        return Thrown(n.e), cps, it;
      }
      var cp := n.value;
      ReadNext8(s, it, it', out, cps, cp);
      if cp > 0xFFFF {
        out := out + [cp / 1024 + 0xD7C0, cp % 1024 + 0xDC00];
      } else {
        out := out + [cp];
      }
      cps, it := cps + [cp], it';
    }
    assert s[..it] == s;
    r := Ok(out);
  }

  /** Up to position it, s and out are one text. */
  ghost predicate Read8(s: seq<Octet>, it: nat, out: seq<Word>, cps: seq<int>) {
    it <= |s| && AllValid(cps) && Text(Enc8(), cps) == s[..it] && Text(Encode16(), cps) == out
  }

  lemma ReadNext8(s: seq<Octet>, it: nat, it': nat, out: seq<Word>, cps: seq<int>, cp: int)
    requires Read8(s, it, out, cps) && it < it' <= |s| && Valid(cp) && Enc(cp) == s[it..it']
    ensures Read8(s, it', out + Enc16(cp), cps + [cp])
  {
    TextNext(Enc8(), cps, cp);
    TextNext(Encode16(), cps, cp);
    assert s[..it] + s[it..it'] == s[..it'];
  }

  lemma ReadWrong8(s: seq<Octet>, it: nat, out: seq<Word>, cps: seq<int>)
    requires Read8(s, it, out, cps) && it < |s| && Outcome(s[it..]) != Utf8Ok
    ensures WrongAt(s, it) && !WellFormed(Enc8(), s)
  {
    IllFormed8(s, cps, it);
  }

  /** The word that utf16to8 complains of: the one after a lead surrogate, if there is one, or the surrogate itself. */
  function Offender(w: seq<Word>, it: nat): Word
    requires it < |w|
  {
    if 0xD800 <= w[it] <= 0xDBFF && it + 1 < |w| then w[it + 1] else w[it]
  }

  /** The code point at a position of a UTF-16 text, as utf16to8 reads it; -1 if it throws. */
  method Next16(w: seq<Word>, it: nat) returns (cp: int, it': nat, bad: Word)
    requires it < |w|
    ensures cp >= 0 ==> it < it' <= |w| && Valid(cp) && Enc16(cp) == w[it..it']
    ensures cp < 0 ==> bad == Offender(w, it) && forall c :: !Begins(Encode16(), w[it..], c)
  {
    bad := w[it];
    cp, it' := w[it], it + 1;
    if 0xD800 <= cp <= 0xDBFF {
      if it' < |w| {
        var trail: int := w[it'];
        it' := it' + 1;
        if 0xDC00 <= trail <= 0xDFFF {
          Joined(cp, trail);
          cp := cp * 1024 + trail - 0x35FDC00;
          assert w[it..it'] == Enc16(cp);
        } else {
          NoPair(w[it..]);
          cp, bad := -1, trail;
        }
      } else {
        NoPair(w[it..]);
        cp := -1;
      }
    } else if 0xDC00 <= cp <= 0xDFFF {
      NoPair(w[it..]);
      cp := -1;
    }
  }

  lemma Joined(a: int, b: int)
    requires 0xD800 <= a <= 0xDBFF && 0xDC00 <= b <= 0xDFFF
    ensures var cp := a * 1024 + b - 0x35FDC00; 0x10000 <= cp <= 0x10FFFF && cp / 1024 + 0xD7C0 == a && cp % 1024 + 0xDC00 == b
  {
  }

  lemma NoPair(w: seq<Word>)
    requires |w| > 0 && Surrogate(w[0])
    requires 0xD800 <= w[0] <= 0xDBFF ==> |w| == 1 || !(0xDC00 <= w[1] <= 0xDFFF)
    ensures forall c :: !Begins(Encode16(), w, c)
  {
    forall c ensures !Begins(Encode16(), w, c) {
      if Begins(Encode16(), w, c) { Begins16(w, c); }
    }
  }

  lemma Begins16(w: seq<Word>, c: int)
    requires Begins(Encode16(), w, c)
    ensures w[0] == Enc16(c)[0] && (c > 0xFFFF ==> |w| > 1 && w[1] == c % 1024 + 0xDC00)
  {
    if c > 0xFFFF { assert w[1] == Enc16(c)[1]; }
  }

  /** utf16to8: throws exactly on ill-formed input, for the word that is wrong at the first wrong place; otherwise the
      same text, in UTF-8. */
  method Utf16to8(w: seq<Word>) returns (r: Result<seq<Octet>>, ghost cps: seq<int>, ghost at: nat)
    ensures r.Ok? <==> WellFormed(Encode16(), w)
    ensures r.Ok? ==> AllValid(cps) && Text(Encode16(), cps) == w && Text(Enc8(), cps) == r.value
    ensures r.Thrown? ==> at < |w| && WellFormed(Encode16(), w[..at]) && (forall c :: !Begins(Encode16(), w[at..], c))
    ensures r.Thrown? ==> r.e == InvalidUtf16(Offender(w, at))
  {
    at := 0;
    var out: seq<Octet>, it := [], 0;
    cps := [];
    while it < |w|
      invariant it <= |w| && AllValid(cps) && Text(Encode16(), cps) == w[..it] && Text(Enc8(), cps) == out
    {
      var cp, it', bad := Next16(w, it);
      if cp < 0 {
        Prefix16();
        IllFormed(Encode16(), w, cps, it);
        return Thrown(InvalidUtf16(bad)), cps, it;
      }
      TextNext(Enc8(), cps, cp);
      TextNext(Encode16(), cps, cp);
      out := out + Enc(cp);
      assert w[..it] + w[it..it'] == w[..it'];
      cps, it := cps + [cp], it';
    }
    assert w[..it] == w;
    r := Ok(out);
  }

  /** UTF-8 to UTF-16 and back. */
  method Back8(s: seq<Octet>) returns (r: Result<seq<Octet>>)
    ensures WellFormed(Enc8(), s) ==> r == Ok(s)
    ensures !WellFormed(Enc8(), s) ==> r.Thrown?
  {
    var t, cps, at := Utf8to16(s);
    if t.Thrown? { return Thrown(t.e); }
    var u, cps', at' := Utf16to8(t.value);
    assert WellFormed(Encode16(), t.value);
    Prefix16();
    TextInjective(Encode16(), cps, cps');
    r := u;
  }

  /** UTF-16 to UTF-8 and back. */
  method Back16(w: seq<Word>) returns (r: Result<seq<Word>>)
    ensures WellFormed(Encode16(), w) ==> r == Ok(w)
    ensures !WellFormed(Encode16(), w) ==> r.Thrown?
  {
    var t, cps, at := Utf16to8(w);
    if t.Thrown? { return Thrown(t.e); }
    var u, cps', at' := Utf8to16(t.value);
    assert WellFormed(Enc8(), t.value);
    Prefix8();
    TextInjective(Enc8(), cps, cps');
    r := u;
  }

  // ---------- replace_invalid ----------

  datatype Repair = Repaired(out: seq<Octet>) | Truncated | BadReplacement

  /** A piece that is no character: it does not begin with one, and all its octets but the first are trails. */
  ghost predicate Broken(p: seq<Octet>) { |p| > 0 && Outcome(p) != Utf8Ok && Trails(p) }

  /** s is cut from i to j: one character; or the octet of an invalid lead; or, for any other error but a missing end, an
      octet with all the trails after it. */
  ghost predicate Cut(s: seq<Octet>, i: nat, j: nat) {
    i < j <= |s| &&
    var e := Outcome(s[i..]);
    if e == Utf8Ok then j == i + SequenceLength(s[i])
    else if e == InvalidLead then j == i + 1
    else e != NotEnoughRoom && (forall k :: i < k < j ==> Trail(s[k])) && (j < |s| ==> !Trail(s[j]))
  }

  /** There is only one place to cut next. */
  lemma CutUnique(s: seq<Octet>, i: nat, j: nat, j': nat)
    requires Cut(s, i, j) && Cut(s, i, j')
    ensures j == j'
  {
  }

  /** Positions at which s is cut, from its beginning. */
  ghost predicate Path(s: seq<Octet>, c: seq<nat>) {
    |c| > 0 && c[0] == 0 && c[|c| - 1] <= |s| && forall k :: 0 <= k < |c| - 1 ==> Cut(s, c[k], c[k + 1])
  }

  /** There is only one way to cut the whole of s. */
  lemma {:induction false} PathUnique(s: seq<Octet>, c: seq<nat>, d: seq<nat>)
    requires Path(s, c) && Path(s, d) && c[|c| - 1] == d[|d| - 1] == |s|
    ensures c == d
  {
    PathAgrees(s, c, d, if |c| <= |d| then |c| else |d|);
    if |c| < |d| { BeforeEnd(s, d, |c| - 1); }
    if |d| < |c| { BeforeEnd(s, c, |d| - 1); }
  }

  lemma BeforeEnd(s: seq<Octet>, c: seq<nat>, k: nat)
    requires Path(s, c) && k < |c| - 1
    ensures c[k] < |s|
  {
    assert Cut(s, c[k], c[k + 1]);
  }

  lemma {:induction false} PathAgrees(s: seq<Octet>, c: seq<nat>, d: seq<nat>, n: nat)
    requires Path(s, c) && Path(s, d) && n <= |c| && n <= |d|
    ensures forall k :: 0 <= k < n ==> c[k] == d[k]
  {
    if n > 1 {
      PathAgrees(s, c, d, n - 1);
      assert Cut(s, c[n - 2], c[n - 1]) && Cut(s, d[n - 2], d[n - 1]);
      CutUnique(s, c[n - 2], c[n - 1], d[n - 1]);
    }
  }

  /** The pieces, with a replacement mark for each that is no character. */
  ghost function Mended(s: seq<Octet>, c: seq<nat>, mark: seq<Octet>): seq<Octet>
    requires Path(s, c)
    decreases |c|
  {
    if |c| == 1 then []
    else
      var i, j := c[|c| - 2], c[|c| - 1];
      assert Cut(s, i, j);
      Mended(s, Shorter(s, c), mark) + if Outcome(s[i..]) == Utf8Ok then s[i..j] else mark
  }

  ghost function Shorter(s: seq<Octet>, c: seq<nat>): (d: seq<nat>)
    requires Path(s, c) && |c| > 1
    ensures Path(s, d) && |d| == |c| - 1 && d == c[..|c| - 1]
  {
    assert Cut(s, c[|c| - 2], c[|c| - 1]);
    c[..|c| - 1]
  }

  lemma PathNext(s: seq<Octet>, c: seq<nat>, j: nat, mark: seq<Octet>)
    requires Path(s, c) && Cut(s, c[|c| - 1], j)
    ensures Path(s, c + [j])
    ensures var i := c[|c| - 1]; Mended(s, c + [j], mark) == Mended(s, c, mark) + if Outcome(s[i..]) == Utf8Ok then s[i..j] else mark
  {
    var d := c + [j];
    forall k | 0 <= k < |d| - 1 ensures Cut(s, d[k], d[k + 1]) {
      if k < |c| - 1 { assert Cut(s, c[k], c[k + 1]); }
    }
    assert Shorter(s, d) == c;
  }

  /** The input ends inside a sequence that starts at position i. */
  ghost predicate EndsInside(s: seq<Octet>, i: nat)
    requires i < |s|
  {
    Outcome(s[i..]) == NotEnoughRoom
  }

  lemma CharAccepted(p: seq<Octet>)
    requires Char(p)
    ensures Outcome(p) == Utf8Ok
  {
    CharIsEnc(p);
    BeginsAccepted(p, Assemble(p));
  }

  lemma BrokenFront(s: seq<Octet>, n: nat)
    requires 0 < n <= |s| && Outcome(s) != Utf8Ok && forall i :: 1 <= i < n ==> Trail(s[i])
    ensures Broken(s[..n]) && !Char(s[..n])
  {
    var p := s[..n];
    if Outcome(p) == Utf8Ok {
      AcceptedBegins(p);
      BeginsAccepted(s, Assemble(p[..SequenceLength(p[0])]));
    }
    if Char(p) { CharAccepted(p); }
  }

  lemma NotInside(s: seq<Octet>, i: nat)
    requires i < |s| && Trail(s[i])
    ensures !EndsInside(s, i)
  {
    assert s[i..][0] == s[i];
  }

  /** The octet that is in no case the beginning of a character, with the trails after it. */
  method SkipBroken(s: seq<Octet>, start: nat, err: Error) returns (next: nat)
    requires start < |s| && err == Outcome(s[start..]) && err != Utf8Ok && err != NotEnoughRoom
    ensures Cut(s, start, next) && Broken(s[start..next]) && !Char(s[start..next])
    ensures forall i :: start <= i < next ==> !EndsInside(s, i)
  {
    next := start + 1;
    if err != InvalidLead {
      // one replacement mark for the sequence
      while next < |s| && Trail(s[next])
        invariant start < next <= |s| && forall i :: start < i < next ==> Trail(s[i])
      {
        next := next + 1;
      }
    }
    BrokenPiece(s, start, next);
  }

  lemma BrokenPiece(s: seq<Octet>, start: nat, next: nat)
    requires start < next <= |s| && Outcome(s[start..]) != Utf8Ok && Outcome(s[start..]) != NotEnoughRoom
    requires forall i :: start < i < next ==> Trail(s[i])
    ensures Broken(s[start..next]) && !Char(s[start..next])
    ensures forall i :: start <= i < next ==> !EndsInside(s, i)
  {
    BrokenFront(s[start..], next - start);
    assert s[start..][..next - start] == s[start..next];
    forall i | start < i < next ensures !EndsInside(s, i) { NotInside(s, i); }
  }

  lemma CharNotInside(s: seq<Octet>, start: nat, next: nat, cp: int)
    requires start < next <= |s| && Valid(cp) && Enc(cp) == s[start..next] && Outcome(s[start..]) == Utf8Ok
    ensures Char(s[start..next]) && Cut(s, start, next) && forall i :: start <= i < next ==> !EndsInside(s, i)
  {
    EncIsChar(cp);
    assert s[start] == Enc(cp)[0];
    forall i | start < i < next ensures !EndsInside(s, i) {
      assert s[i] == Enc(cp)[i - start];
      NotInside(s, i);
    }
  }

  /** out is the repair of the beginning of s, up to the last cut. */
  ghost predicate CutInto(s: seq<Octet>, start: nat, out: seq<Octet>, mark: seq<Octet>, cuts: seq<nat>) {
    Path(s, cuts) && cuts[|cuts| - 1] == start && Mended(s, cuts, mark) == out
  }

  /** What is known of replace_invalid at position start. */
  ghost predicate Mending(s: seq<Octet>, start: nat, out: seq<Octet>, mark: seq<Octet>, cps: seq<int>, cuts: seq<nat>) {
    && CutInto(s, start, out, mark, cuts) && AllValid(cps) && Text(Enc8(), cps) == out
    && (out == s[..start] || !WellFormed(Enc8(), s))
    && (forall i :: 0 <= i < start ==> !EndsInside(s, i))
  }

  lemma CutNext(s: seq<Octet>, start: nat, next: nat, out: seq<Octet>, mark: seq<Octet>, cuts: seq<nat>, w: seq<Octet>)
    requires CutInto(s, start, out, mark, cuts) && Cut(s, start, next)
    requires w == if Outcome(s[start..]) == Utf8Ok then s[start..next] else mark
    ensures CutInto(s, next, out + w, mark, cuts + [next])
  {
    PathNext(s, cuts, next, mark);
  }

  lemma MendingNext(s: seq<Octet>, start: nat, next: nat, out: seq<Octet>, mark: seq<Octet>, cps: seq<int>, cp: int, cuts: seq<nat>)
    requires Mending(s, start, out, mark, cps, cuts) && start < next <= |s| && Valid(cp)
    requires CutInto(s, next, out + Enc(cp), mark, cuts + [next])
    requires Enc(cp) == s[start..next] || !WellFormed(Enc8(), s)
    requires forall i :: start <= i < next ==> !EndsInside(s, i)
    ensures Mending(s, next, out + Enc(cp), mark, cps + [cp], cuts + [next])
  {
    TextNext(Enc8(), cps, cp);
    assert s[..start] + s[start..next] == s[..next];
  }

  lemma MendingFails(s: seq<Octet>, start: nat, out: seq<Octet>, mark: seq<Octet>, cps: seq<int>, cuts: seq<nat>)
    requires Mending(s, start, out, mark, cps, cuts) && start < |s| && Outcome(s[start..]) != Utf8Ok
    ensures !WellFormed(Enc8(), s)
  {
    if out == s[..start] { IllFormed8(s, cps, start); }
  }

  /** A character is copied. */
  lemma MendChar(s: seq<Octet>, start: nat, next: nat, out: seq<Octet>, mark: seq<Octet>, cps: seq<int>, cp: int, cuts: seq<nat>)
    requires Mending(s, start, out, mark, cps, cuts) && start < next <= |s| && Outcome(s[start..]) == Utf8Ok
    requires Valid(cp) && Enc(cp) == s[start..next]
    ensures Mending(s, next, out + s[start..next], mark, cps + [cp], cuts + [next])
    ensures out == s[..start] ==> out + s[start..next] == s[..next]
  {
    CharNotInside(s, start, next, cp);
    CutNext(s, start, next, out, mark, cuts, Enc(cp));
    MendingNext(s, start, next, out, mark, cps, cp, cuts);
  }

  /** A broken piece is replaced. */
  lemma MendBroken(s: seq<Octet>, start: nat, next: nat, out: seq<Octet>, cps: seq<int>, cp: int, cuts: seq<nat>)
    requires Valid(cp) && Mending(s, start, out, Enc(cp), cps, cuts) && start < next <= |s| && Outcome(s[start..]) != Utf8Ok
    requires Cut(s, start, next) && forall i :: start <= i < next ==> !EndsInside(s, i)
    ensures Mending(s, next, out + Enc(cp), Enc(cp), cps + [cp], cuts + [next])
  {
    MendingFails(s, start, out, Enc(cp), cps, cuts);
    CutNext(s, start, next, out, Enc(cp), cuts, Enc(cp));
    MendingNext(s, start, next, out, Enc(cp), cps, cp, cuts);
  }

  lemma MendingDone(s: seq<Octet>, out: seq<Octet>, mark: seq<Octet>, cps: seq<int>, cuts: seq<nat>)
    requires Mending(s, |s|, out, mark, cps, cuts)
    ensures WellFormed(Enc8(), out) && Path(s, cuts) && cuts[|cuts| - 1] == |s| && Mended(s, cuts, mark) == out
    ensures WellFormed(Enc8(), s) ==> out == s
    ensures forall i :: 0 <= i < |s| ==> !EndsInside(s, i)
  {
    assert s[..|s|] == s;
  }

  /** replace_invalid: the input is cut in the one possible way into characters, which are copied, and pieces that are
      none, each replaced by the mark; the output is well-formed, and a well-formed input is its own output.  For a valid
      mark it throws, not_enough_room, exactly if the input ends inside a sequence. */
  method ReplaceInvalid(s: seq<Octet>, replacement: int) returns (r: Repair, ghost cuts: seq<nat>)
    ensures r.Repaired? ==> WellFormed(Enc8(), r.out)
    ensures r.Repaired? ==> Path(s, cuts) && cuts[|cuts| - 1] == |s| && Mended(s, cuts, Enc8()(replacement)) == r.out
    ensures WellFormed(Enc8(), s) ==> r == Repaired(s)
    ensures r.BadReplacement? ==> !Valid(replacement)
    ensures r.Repaired? && !Valid(replacement) ==> WellFormed(Enc8(), s)
    ensures Valid(replacement) ==> (r.Truncated? <==> exists i :: 0 <= i < |s| && EndsInside(s, i))
  {
    var out: seq<Octet>, start := [], 0;
    ghost var cps: seq<int>, mark := [], Enc8()(replacement);
    cuts := [0];
    while start < |s|
      invariant Mending(s, start, out, mark, cps, cuts)
      invariant !Valid(replacement) ==> out == s[..start]
    {
      var err, next, cp := ValidateNext(s, start);
      if err == Utf8Ok {
        MendChar(s, start, next, out, mark, cps, cp, cuts);
        out := out + s[start..next];
      } else {
        MendingFails(s, start, out, mark, cps, cuts);
        if err == NotEnoughRoom {
          assert EndsInside(s, start);
          return Truncated, cuts;
        }
        if !Valid(replacement) { return BadReplacement, cuts; }
        cp := replacement;
        next := SkipBroken(s, start, err);
        MendBroken(s, start, next, out, cps, cp, cuts);
        out := out + Enc(replacement);
      }
      cps, cuts, start := cps + [cp], cuts + [next], next;
    }
    MendingDone(s, out, mark, cps, cuts);
    r := Repaired(out);
  }
}
