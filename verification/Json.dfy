/**
 * JSON strings as they are written and read back (lib/cajun-2.0.2/json, writer.inl and reader.inl).  A text is a sequence of
 * octets; char is signed.
 */
module Json {
  import Utf8
  import Words

  type Octet = Utf8.Octet
  type Unit = Utf8.Word
  type Str = seq<Octet>

  const QUOTE: Octet := 34
  const BACK: Octet := 92
  const LETTER_U: Octet := 117

  // ---------- writing a string ----------

  /** The switch of the string writer. */
  function Escaped(c: Octet): (r: Str)
    ensures 1 <= |r| <= 2 && (|r| == 2 ==> r[0] == BACK) && (|r| == 1 ==> r == [c] && c != QUOTE && c != BACK)
  {
    if c == 34 then [BACK, 34] else if c == 92 then [BACK, 92] else if c == 8 then [BACK, 98]
    else if c == 12 then [BACK, 102] else if c == 10 then [BACK, 110] else if c == 13 then [BACK, 114]
    else if c == 9 then [BACK, 116] else [c]
  }

  /** The writer stays within the string: it reads the character after every backslash that it meets. */
  predicate Stays(s: Str) {
    |s| == 0 || if s[0] == BACK then |s| > 1 && Stays(s[2..]) else Stays(s[1..])
  }

  /** How many characters of s one turn of the loop takes. */
  function Taken(s: Str): (k: nat)
    requires |s| > 0 && Stays(s)
    ensures 1 <= k <= 2 && k <= |s| && Stays(s[k..])
  {
    if s[0] == BACK then 2 else 1
  }

  /** And what it writes for them: a backslash is dropped, unless a u follows it. */
  function Piece(s: Str): (r: Str)
    requires |s| > 0 && Stays(s)
    ensures 1 <= |r| <= 2 && (|r| == 2 ==> r[0] == BACK) && (|r| == 1 ==> r[0] != QUOTE && r[0] != BACK)
  {
    if s[0] == BACK && s[1] == LETTER_U then [BACK, LETTER_U] else Escaped(s[Taken(s) - 1])
  }

  /** Everything between the quotes. */
  function Body(s: Str): Str
    requires Stays(s)
  {
    if |s| == 0 then [] else Piece(s) + Body(s[Taken(s)..])
  }

  datatype Written = Written(text: Str) | PastEnd

  /** What is written up to position it. */
  ghost predicate Writing(s: Str, it: nat, out: Str) {
    && it <= |s| && (Stays(s) <==> Stays(s[it..]))
    && (Stays(s) ==> [QUOTE] + Body(s) == out + Body(s[it..]))
  }

  lemma Associative(a: Str, b: Str, c: Str)
    ensures (a + b) + c == a + (b + c)
  {
  }

  lemma WritingNext(s: Str, it: nat, out: Str, k: nat, piece: Str)
    requires Writing(s, it, out) && it < |s| && it + k <= |s| && k == if s[it] == BACK then 2 else 1
    requires piece == if s[it] == BACK && s[it + 1] == LETTER_U then [BACK, LETTER_U] else Escaped(s[it + k - 1])
    ensures Writing(s, it + k, out + piece)
  {
    var t := s[it..];
    assert t[k..] == s[it + k..];
    if Stays(s) {
      assert Piece(t) == piece && Taken(t) == k;
      Associative(out, piece, Body(t[k..]));
    }
  }

  /** Write_i for a string.  At a backslash that ends the string the iterator passes the end. */
  method WriteString(s: Str) returns (r: Written)
    ensures r == if Stays(s) then Written([QUOTE] + Body(s) + [QUOTE]) else PastEnd
  {
    var out: Str := [QUOTE];
    var it := 0;
    assert s[0..] == s;
    while it < |s|
      invariant Writing(s, it, out)
    {
      var k, piece := 1, Escaped(s[it]);
      if s[it] == BACK {
        if it + 1 == |s| { return PastEnd; }
        k, piece := 2, Escaped(s[it + 1]);
        if s[it + 1] == LETTER_U { piece := [BACK, LETTER_U]; }
      }
      WritingNext(s, it, out, k, piece);
      out, it := out + piece, it + k;
    }
    assert s[it..] == [];
    r := Written(out + [QUOTE]);
  }

  // ---------- reading a string ----------

  /** What the library does: a value; a json exception; a utf8 exception, which nothing catches; or no defined behaviour. */
  datatype Outcome<T> = Fine(v: T) | Rejected | Escapes | Undefined

  datatype Read = Read(v: Str, rest: Str)

  /** The switch of MatchString; empty for an escape that it does not know. */
  function Unescaped(c: Octet): (r: Str)
    ensures |r| <= 2 && (|r| == 2 <==> c == BACK)
  {
    if c == 47 then [47] else if c == 34 then [34] else if c == 92 then [92, 92] else if c == 98 then [8]
    else if c == 102 then [12] else if c == 110 then [10] else if c == 114 then [13] else if c == 116 then [9] else []
  }

  /** The escapes of section 7 of RFC 8259, as they are written and as they are read.  A written backslash is read as two. */
  lemma EscapeTable(c: Octet)
    ensures Escaped('\"' as int) == ['\\' as int, '\"' as int] && Unescaped('\"' as int) == ['\"' as int]
    ensures Escaped('\\' as int) == ['\\' as int, '\\' as int] && Unescaped('\\' as int) == ['\\' as int, '\\' as int]
    ensures Escaped(8) == ['\\' as int, 'b' as int] && Unescaped('b' as int) == [8]
    ensures Escaped(12) == ['\\' as int, 'f' as int] && Unescaped('f' as int) == [12]
    ensures Escaped('\n' as int) == ['\\' as int, 'n' as int] && Unescaped('n' as int) == ['\n' as int]
    ensures Escaped('\r' as int) == ['\\' as int, 'r' as int] && Unescaped('r' as int) == ['\r' as int]
    ensures Escaped('\t' as int) == ['\\' as int, 't' as int] && Unescaped('t' as int) == ['\t' as int]
    ensures Unescaped('/' as int) == ['/' as int]
    ensures c !in {34, 92, 8, 12, 10, 13, 9} ==> Escaped(c) == [c]
    ensures Unescaped(c) != [] <==> c as char in "\"\\/bfnrt"
  {
    if c as char in "\"\\/bfnrt" {
      var i :| 0 <= i < |"\"\\/bfnrt"| && "\"\\/bfnrt"[i] == c as char;
    }
    assert "\"\\/bfnrt"[0] == '\"' && "\"\\/bfnrt"[1] == '\\' && "\"\\/bfnrt"[2] == '/' && "\"\\/bfnrt"[3] == 'b';
    assert "\"\\/bfnrt"[4] == 'f' && "\"\\/bfnrt"[5] == 'n' && "\"\\/bfnrt"[6] == 'r' && "\"\\/bfnrt"[7] == 't';
  }

  /** A character as a digit; any character will do. */
  function Digit(c: Octet): int { (if c >= 128 then c - 256 else c) - 48 }

  function UNIT_BITS(): nat { 16 }

  /** The 16-bit unit of four characters. */
  function UnitOf(a: Octet, b: Octet, c: Octet, d: Octet): Unit {
    var n := UNIT_BITS();
    var x := Words.Or(Words.Bits(Digit(a) * 4096, n), Words.Bits(Digit(b) * 256, n));
    var y := Words.Or(Words.Bits(Digit(c) * 16, n), Words.Bits(Digit(d), n));
    Words.Signed(Words.Or(x, y)) % 0x1_0000
  }

  function At(s: Str, i: nat): Octet { if i < |s| then s[i] else 0 }

  /** ConsumeUnicode, after a backslash and a u; past the end of the stream characters are zero. */
  function UnitAt(s: Str): Unit { UnitOf(At(s, 2), At(s, 3), At(s, 4), At(s, 5)) }

  function Drop(s: Str, n: nat): (r: Str)
    ensures |r| <= |s| && (n > 0 && |s| > 0 ==> |r| < |s|)
  {
    if n <= |s| then s[n..] else []
  }

  /** The units seen so far are UTF-16. */
  ghost predicate Formed(w: seq<Unit>) { Utf8.WellFormed(Utf8.Encode16(), w) }

  /** The same text in UTF-8. */
  ghost function To8(w: seq<Unit>): Str
    requires Formed(w)
  {
    var cps :| Utf8.AllValid(cps) && Utf8.Text(Utf8.Encode16(), cps) == w;
    Utf8.Text(Utf8.Enc8(), cps)
  }

  /** MatchString after the opening quote, with the string and the units so far.  An escaped character goes before the units
      that precede it. */
  ghost function Match(s: Str, str: Str, uni: seq<Unit>): (r: Outcome<Read>)
    ensures r.Fine? ==> |r.v.rest| < |s|
    decreases |s|
  {
    if |s| == 0 then if Formed(uni) then Rejected else Escapes
    else if s[0] == QUOTE then if Formed(uni) then Fine(Read(str + To8(uni), s[1..])) else Escapes
    else if s[0] == BACK && |s| > 1 then
      if s[1] == LETTER_U then Match(Drop(s, 6), str, uni + [UnitAt(s)])
      else if Unescaped(s[1]) == [] then Rejected
      else if !Formed(uni) then Escapes
      else Match(s[2..], str + Unescaped(s[1]) + To8(uni), [])
    else if !Formed(uni) then Escapes
    else Match(s[1..], str + To8(uni) + [s[0]], [])
  }

  lemma {:induction false} TextLength(cps: seq<int>)
    requires Utf8.AllValid(cps)
    ensures |cps| <= |Utf8.Text(Utf8.Encode16(), cps)| && |Utf8.Text(Utf8.Enc8(), cps)| <= 3 * |Utf8.Text(Utf8.Encode16(), cps)|
    decreases |cps|
  {
    if |cps| > 0 {
      TextLength(cps[1..]);
      assert Utf8.Encode16()(cps[0]) == Utf8.Enc16(cps[0]) && Utf8.Enc8()(cps[0]) == Utf8.Enc(cps[0]);
    }
  }

  /** A unit is at most three octets. */
  lemma To8Length(w: seq<Unit>)
    requires Formed(w)
    ensures |To8(w)| <= 3 * |w|
  {
    var cps :| Utf8.AllValid(cps) && Utf8.Text(Utf8.Encode16(), cps) == w && To8(w) == Utf8.Text(Utf8.Enc8(), cps);
    TextLength(cps);
  }

  lemma NoUnits()
    ensures Formed([]) && To8([]) == []
  {
    var cps: seq<int> := [];
    assert Utf8.AllValid(cps) && Utf8.Text(Utf8.Encode16(), cps) == [];
    To8Length([]);
  }

  /** FinalizeUnicode */
  method Finalize(uni: seq<Unit>) returns (ok: bool, out: Str)
    ensures ok <==> Formed(uni)
    ensures ok ==> out == To8(uni)
  {
    var r, cps, at := Utf8.Utf16to8(uni);
    ok := r.Ok?;
    out := if r.Ok? then r.value else [];
    if ok {
      ghost var cps' :| Utf8.AllValid(cps') && Utf8.Text(Utf8.Encode16(), cps') == uni && To8(uni) == Utf8.Text(Utf8.Enc8(), cps');
      Utf8.Prefix16();
      Utf8.TextInjective(Utf8.Encode16(), cps, cps');
    }
  }

  /** MatchString */
  method MatchString(s: Str) returns (r: Outcome<Read>)
    ensures r == if |s| > 0 && s[0] == QUOTE then Match(s[1..], [], []) else Rejected
  {
    if |s| == 0 || s[0] != QUOTE { return Rejected; }
    var str: Str, uni: seq<Unit>, rest := [], [], s[1..];
    var ok, out;
    while |rest| > 0 && rest[0] != QUOTE
      invariant Match(rest, str, uni) == Match(s[1..], [], [])
      decreases |rest|
    {
      if rest[0] == BACK && |rest| > 1 {
        if rest[1] == LETTER_U {
          uni := uni + [UnitAt(rest)];
          rest := Drop(rest, 6);
        } else {
          var c := Unescaped(rest[1]);
          if c == [] { return Rejected; }
          ok, out := Finalize(uni);
          if !ok { return Escapes; }
          str, uni, rest := str + c + out, [], rest[2..];
        }
      } else {
        ok, out := Finalize(uni);
        if !ok { return Escapes; }
        str, uni, rest := str + out + [rest[0]], [], rest[1..];
      }
    }
    ok, out := Finalize(uni);
    if !ok { return Escapes; }
    if |rest| == 0 { return Rejected; }
    r := Fine(Read(str + out, rest[1..]));
  }

  // ---------- when a string comes back ----------

  /** Backslashes come in pairs. */
  predicate Paired(s: Str) {
    |s| == 0 || if s[0] == BACK then |s| > 1 && s[1] == BACK && Paired(s[2..]) else Paired(s[1..])
  }

  lemma {:induction false} PairedStays(s: Str)
    requires Paired(s)
    ensures Stays(s)
    decreases |s|
  {
    if |s| > 0 { PairedStays(if s[0] == BACK then s[2..] else s[1..]); }
  }

  ghost predicate Marked(u: int) { true }

  ghost predicate IsReading(s: Str, str: Str, uni: seq<Unit>, r: Outcome<Read>) {
    forall u {:trigger Marked(u)} :: Marked(u) && u == 12 ==> r == Match(s, str, uni)
  }

  /** MatchString after the opening quote, unfolded only by ReadingIs. */
  ghost function Reading(s: Str, str: Str, uni: seq<Unit>): Outcome<Read> {
    assert IsReading(s, str, uni, Match(s, str, uni));
    var r :| IsReading(s, str, uni, r);
    r
  }

  lemma ReadingIs(s: Str, str: Str, uni: seq<Unit>)
    ensures Reading(s, str, uni) == Match(s, str, uni)
  {
    assert Marked(12);
  }

  lemma ReadsUnformed(s: Str, str: Str, uni: seq<Unit>)
    requires !Formed(uni) && |s| > 0 && (s[0] == BACK && |s| > 1 ==> s[1] != LETTER_U && Unescaped(s[1]) != [])
    ensures Reading(s, str, uni) == Escapes
  {
    ReadingIs(s, str, uni);
  }

  lemma ReadsPlain(c: Octet, x: Str, str: Str, uni: seq<Unit>)
    requires c != QUOTE && (c == BACK ==> x == []) && Formed(uni)
    ensures Reading([c] + x, str, uni) == Reading(x, str + To8(uni) + [c], [])
  {
    ReadingIs([c] + x, str, uni);
    ReadingIs(x, str + To8(uni) + [c], []);
    assert ([c] + x)[1..] == x;
  }

  lemma EscapeStep(s: Str, str: Str, uni: seq<Unit>)
    requires |s| > 1 && s[0] == BACK && s[1] != LETTER_U && Unescaped(s[1]) != [] && Formed(uni)
    ensures Match(s, str, uni) == Match(s[2..], str + Unescaped(s[1]) + To8(uni), [])
  {
  }

  lemma ReadsEscape(c: Octet, x: Str, str: Str, uni: seq<Unit>)
    requires Unescaped(c) != [] && Formed(uni)
    ensures Reading([BACK, c] + x, str, uni) == Reading(x, str + Unescaped(c) + To8(uni), [])
  {
    var s := [BACK, c] + x;
    assert s[2..] == x;
    EscapeStep(s, str, uni);
    ReadingIs(s, str, uni);
    ReadingIs(x, str + Unescaped(c) + To8(uni), []);
  }

  lemma ReadsUnit(s: Str, str: Str, uni: seq<Unit>) returns (uni': seq<Unit>)
    requires |s| > 1 && s[0] == BACK && s[1] == LETTER_U
    ensures |uni'| == |uni| + 1 && Reading(s, str, uni) == Reading(Drop(s, 6), str, uni')
  {
    uni' := uni + [UnitAt(s)];
    ReadingIs(s, str, uni);
    ReadingIs(Drop(s, 6), str, uni');
  }

  lemma ReadsEnd(rest: Str, str: Str, uni: seq<Unit>)
    requires Formed(uni)
    ensures Reading([QUOTE] + rest, str, uni) == Fine(Read(str + To8(uni), rest))
  {
    ReadingIs([QUOTE] + rest, str, uni);
    assert ([QUOTE] + rest)[1..] == rest;
  }

  lemma EscapeBack(c: Octet)
    ensures |Escaped(c)| == 2 ==> Unescaped(Escaped(c)[1]) == if c == BACK then [BACK, BACK] else [c]
  {
  }

  /** What one turn of the writer writes, for a character or a pair of backslashes, the reader takes back. */
  lemma PieceReads(s: Str, x: Str, str: Str)
    requires |s| > 0 && Stays(s) && (s[0] == BACK ==> s[1] == BACK)
    ensures Reading(Piece(s) + x, str, []) == Reading(x, str + s[..Taken(s)], [])
  {
    var c, p := s[Taken(s) - 1], Piece(s);
    NoUnits();
    EscapeBack(c);
    assert p == Escaped(c);
    if |p| == 1 {
      ReadsPlain(c, x, str, []);
      assert s[..1] == [c] && str + [] + [c] == str + [c];
    } else {
      assert p == [BACK, p[1]];
      ReadsEscape(p[1], x, str, []);
      assert s[..Taken(s)] == Unescaped(p[1]) && str + s[..Taken(s)] + [] == str + s[..Taken(s)];
    }
  }

  /** A written string without its opening quote, and what follows it. */
  ghost function Closed(u: Str, rest: Str): Str { u + ([QUOTE] + rest) }

  lemma BodyNext(s: Str, rest: Str)
    requires |s| > 0 && Stays(s)
    ensures Closed(Body(s), rest) == Piece(s) + Closed(Body(s[Taken(s)..]), rest)
  {
    Associative(Piece(s), Body(s[Taken(s)..]), [QUOTE] + rest);
  }

  lemma ReadsClosed(rest: Str, str: Str)
    ensures Reading(Closed([], rest), str, []) == Fine(Read(str, rest))
  {
    NoUnits();
    ReadsEnd(rest, str, []);
    assert str + [] == str && [] + ([QUOTE] + rest) == [QUOTE] + rest;
  }

  lemma CutAt(str: Str, s: Str, k: nat)
    requires k <= |s|
    ensures (str + s[..k]) + s[k..] == str + s
  {
  }

  /** A string whose backslashes come in pairs is read as it was written. */
  lemma {:induction false} PairedReads(s: Str, rest: Str, str: Str)
    requires Paired(s) && Stays(s)
    ensures Reading(Closed(Body(s), rest), str, []) == Fine(Read(str + s, rest))
    decreases |s|
  {
    if |s| == 0 {
      ReadsClosed(rest, str);
      assert str + s == str;
    } else {
      var k := Taken(s);
      BodyNext(s, rest);
      PieceReads(s, Closed(Body(s[k..]), rest), str);
      PairedReads(s[k..], rest, str + s[..k]);
      CutAt(str, s, k);
    }
  }

  // ---------- where the reader stops ----------

  /** Reading u with a quote after it: the quote ends the string, which then has at most n characters; a quote in u ends it;
      the reader runs past the quote, and k characters more; or it meets an escape that it does not know. */
  datatype Stop = Ends(n: nat) | Early(tail: Str) | Over(k: nat) | Bad

  function Plus(k: nat, w: Stop): Stop { if w.Ends? then Ends(w.n + k) else w }

  function Where(u: Str): (w: Stop)
    ensures w.Over? ==> w.k <= 3
    decreases |u|
  {
    if |u| == 0 then Ends(0)
    else if u[0] == QUOTE then Early(u[1..])
    else if u[0] != BACK then Plus(1, Where(u[1..]))
    else if |u| == 1 then Over(0)
    else if u[1] == LETTER_U then if |u| >= 6 then Plus(3, Where(u[6..])) else Over(5 - |u|)
    else if Unescaped(u[1]) == [] then Bad
    else Plus(|Unescaped(u[1])|, Where(u[2..]))
  }

  /** A reading that has gone on to s. */
  ghost predicate GoesOn(r: Outcome<Read>, s: Str) { exists str, uni :: r == Reading(s, str, uni) }

  /** What the result of a reading says of the stop w. */
  ghost predicate Stopped(r: Outcome<Read>, w: Stop, rest: Str, size: nat) {
    r == Escapes ||
    match w
    case Ends(n) => r.Fine? && r.v.rest == rest && |r.v.v| <= size + n
    case Early(tail) => r.Fine? && r.v.rest == Closed(tail, rest)
    case Over(k) => GoesOn(r, Drop(rest, k))
    case Bad => r == Rejected
  }

  lemma FollowPlain(c: Octet, u: Str, rest: Str, str: Str, uni: seq<Unit>) returns (str': Str)
    requires c != QUOTE && c != BACK && Formed(uni)
    ensures Reading(Closed([c] + u, rest), str, uni) == Reading(Closed(u, rest), str', []) && |str'| <= |str| + 3 * |uni| + 1
  {
    To8Length(uni);
    str' := str + To8(uni) + [c];
    ReadsPlain(c, Closed(u, rest), str, uni);
    assert Closed([c] + u, rest) == [c] + Closed(u, rest);
  }

  lemma FollowEscape(c: Octet, u: Str, rest: Str, str: Str, uni: seq<Unit>) returns (str': Str)
    requires Unescaped(c) != [] && Formed(uni)
    ensures Reading(Closed([BACK, c] + u, rest), str, uni) == Reading(Closed(u, rest), str', [])
    ensures |str'| <= |str| + 3 * |uni| + |Unescaped(c)|
  {
    To8Length(uni);
    str' := str + Unescaped(c) + To8(uni);
    ReadsEscape(c, Closed(u, rest), str, uni);
    assert Closed([BACK, c] + u, rest) == [BACK, c] + Closed(u, rest);
  }

  /** A unit takes four characters of the string. */
  lemma FollowUnit(u: Str, rest: Str, str: Str, uni: seq<Unit>) returns (uni': seq<Unit>)
    requires |u| >= 6 && u[0] == BACK && u[1] == LETTER_U
    ensures |uni'| == |uni| + 1 && Reading(Closed(u, rest), str, uni) == Reading(Closed(u[6..], rest), str, uni')
  {
    var s := Closed(u, rest);
    uni' := ReadsUnit(s, str, uni);
    assert Drop(s, 6) == Closed(u[6..], rest);
  }

  /** Or also of what follows it. */
  lemma FollowOver(u: Str, rest: Str, str: Str, uni: seq<Unit>)
    requires 1 < |u| < 6 && u[0] == BACK && u[1] == LETTER_U
    ensures Stopped(Reading(Closed(u, rest), str, uni), Over(5 - |u|), rest, |str| + 3 * |uni|)
  {
    var uni' := ReadsUnit(Closed(u, rest), str, uni);
    DropClosed(u, rest);
  }

  lemma DropClosed(u: Str, rest: Str)
    requires |u| < 6
    ensures Drop(Closed(u, rest), 6) == Drop(rest, 5 - |u|)
  {
    var s := Closed(u, rest);
    if |s| >= 6 { assert s[6..] == rest[5 - |u|..]; }
  }

  lemma StoppedPlus(r: Outcome<Read>, w: Stop, k: nat, rest: Str, size: nat, size': nat)
    requires (w.Over? ==> w.k <= 3) && Stopped(r, w, rest, size') && size' <= size + k
    ensures Stopped(r, Plus(k, w), rest, size)
  {
  }

  lemma FollowEnd(rest: Str, str: Str, uni: seq<Unit>)
    requires Formed(uni)
    ensures Stopped(Reading(Closed([], rest), str, uni), Ends(0), rest, |str| + 3 * |uni|)
  {
    To8Length(uni);
    ReadsEnd(rest, str, uni);
    assert [] + ([QUOTE] + rest) == [QUOTE] + rest;
  }

  lemma FollowQuote(t: Str, rest: Str, str: Str, uni: seq<Unit>)
    requires Formed(uni)
    ensures Stopped(Reading(Closed([QUOTE] + t, rest), str, uni), Early(t), rest, |str| + 3 * |uni|)
  {
    ReadsEnd(Closed(t, rest), str, uni);
    Associative([QUOTE], t, [QUOTE] + rest);
  }

  lemma FollowBad(u: Str, rest: Str, str: Str, uni: seq<Unit>)
    requires |u| > 1 && u[0] == BACK && u[1] != LETTER_U && Unescaped(u[1]) == []
    ensures Stopped(Reading(Closed(u, rest), str, uni), Where(u), rest, |str| + 3 * |uni|)
  {
    ReadingIs(Closed(u, rest), str, uni);
  }

  lemma FollowLone(rest: Str, str: Str, uni: seq<Unit>)
    requires Formed(uni)
    ensures Stopped(Reading(Closed([BACK], rest), str, uni), Over(0), rest, |str| + 3 * |uni|)
  {
    ReadsEscape(QUOTE, rest, str, uni);
    assert Closed([BACK], rest) == [BACK, QUOTE] + rest;
    assert Drop(rest, 0) == rest;
  }

  /** The reader stops where it is said to. */
  lemma {:induction false} Follow(u: Str, rest: Str, str: Str, uni: seq<Unit>)
    ensures Stopped(Reading(Closed(u, rest), str, uni), Where(u), rest, |str| + 3 * |uni|)
    decreases |u|, 1
  {
    if |u| > 1 && u[0] == BACK && u[1] == LETTER_U {
      FollowUnits(u, rest, str, uni);
    } else if |u| > 1 && u[0] == BACK && Unescaped(u[1]) == [] {
      FollowBad(u, rest, str, uni);
    } else if !Formed(uni) {
      FollowUnformed(u, rest, str, uni);
    } else if |u| == 0 {
      assert u == [];
      FollowEnd(rest, str, uni);
    } else if u[0] == QUOTE {
      assert u == [QUOTE] + u[1..];
      FollowQuote(u[1..], rest, str, uni);
    } else if |u| == 1 && u[0] == BACK {
      assert u == [BACK];
      FollowLone(rest, str, uni);
    } else {
      FollowStep(u, rest, str, uni);
    }
  }

  lemma {:induction false} FollowUnits(u: Str, rest: Str, str: Str, uni: seq<Unit>)
    requires |u| > 1 && u[0] == BACK && u[1] == LETTER_U
    ensures Stopped(Reading(Closed(u, rest), str, uni), Where(u), rest, |str| + 3 * |uni|)
    decreases |u|, 0
  {
    if |u| < 6 {
      FollowOver(u, rest, str, uni);
    } else {
      var uni' := FollowUnit(u, rest, str, uni);
      Follow(u[6..], rest, str, uni');
      StoppedPlus(Reading(Closed(u, rest), str, uni), Where(u[6..]), 3, rest, |str| + 3 * |uni|, |str| + 3 * |uni'|);
    }
  }

  lemma {:induction false} FollowStep(u: Str, rest: Str, str: Str, uni: seq<Unit>)
    requires |u| > 0 && u[0] != QUOTE && Formed(uni) && (u[0] == BACK ==> |u| > 1 && u[1] != LETTER_U && Unescaped(u[1]) != [])
    ensures Stopped(Reading(Closed(u, rest), str, uni), Where(u), rest, |str| + 3 * |uni|)
    decreases |u|, 0
  {
    var r, size := Reading(Closed(u, rest), str, uni), |str| + 3 * |uni|;
    if u[0] != BACK {
      var t := u[1..];
      assert u == [u[0]] + t;
      var str' := FollowPlain(u[0], t, rest, str, uni);
      Follow(t, rest, str', []);
      StoppedPlus(r, Where(t), 1, rest, size, |str'|);
    } else {
      var t := u[2..];
      assert u == [BACK, u[1]] + t;
      var str' := FollowEscape(u[1], t, rest, str, uni);
      Follow(t, rest, str', []);
      StoppedPlus(r, Where(t), |Unescaped(u[1])|, rest, size, |str'|);
    }
  }

  lemma FollowUnformed(u: Str, rest: Str, str: Str, uni: seq<Unit>)
    requires !Formed(uni) && !(|u| > 1 && u[0] == BACK && (u[1] == LETTER_U || Unescaped(u[1]) == []))
    ensures Reading(Closed(u, rest), str, uni) == Escapes
  {
    var s := Closed(u, rest);
    if |u| == 1 { assert s[1] == QUOTE; }
    ReadsUnformed(s, str, uni);
  }

  // ---------- a written string, read ----------

  /** After j characters of a written string, wherever in it they end, the rest gives at most |s| - j/2 characters. */
  lemma {:induction false} Shrinks(s: Str, j: nat)
    requires Stays(s) && j <= |Body(s)|
    ensures var w := Where(Body(s)[j..]); w.Ends? ==> w.n <= |s| - j / 2
    decreases |s|, 1
  {
    if |s| > 0 {
      var t, p := s[Taken(s)..], Piece(s);
      if j >= |p| {
        Shrinks(t, j - |p|);
        assert Body(s)[j..] == Body(t)[j - |p|..];
      } else if j == 1 {
        assert Body(s)[1..] == [p[1]] + Body(t);
        ShrinksInside(s);
      } else {
        assert Body(s)[0..] == Body(s);
        ShrinksWhole(s);
      }
    }
  }

  /** From the second character of what one turn has written. */
  lemma {:induction false} ShrinksInside(s: Str)
    requires |s| > 0 && Stays(s) && |Piece(s)| == 2
    ensures var w := Where([Piece(s)[1]] + Body(s[Taken(s)..])); w.Ends? ==> w.n <= |s|
    decreases |s|, 0
  {
    var t, e := s[Taken(s)..], Piece(s)[1];
    if e == BACK {
      AfterBack(t);
    } else {
      Shrinks(t, 0);
      assert Body(t)[0..] == Body(t) && ([e] + Body(t))[1..] == Body(t);
    }
  }

  /** With a backslash in front, what was written for t may give two characters more. */
  lemma {:induction false} AfterBack(t: Str)
    requires Stays(t)
    ensures var w := Where([BACK] + Body(t)); w.Ends? ==> w.n <= |t| + 2
    decreases |t|, 2
  {
    var u := [BACK] + Body(t);
    if |t| > 0 {
      var t', p := t[Taken(t)..], Piece(t);
      assert Body(t) == p + Body(t') && u[1] == p[0];
      if |p| == 2 {
        assert u[2..] == Body(t)[1..];
        Shrinks(t, 1);
      } else {
        assert u[2..] == Body(t');
        UnitShrinks(u, t');
        Shrinks(t', 0);
        assert Body(t')[0..] == Body(t');
      }
    }
  }

  /** A unit and the rest of a written string. */
  lemma {:induction false} UnitShrinks(u: Str, t: Str)
    requires Stays(t) && |u| > 1 && u[0] == BACK && u[2..] == Body(t)
    ensures var w := Where(u); u[1] == LETTER_U && w.Ends? ==> w.n <= |t| + 1
    decreases |t|, 2
  {
    if u[1] == LETTER_U && |u| >= 6 {
      assert u[6..] == Body(t)[4..];
      Shrinks(t, 4);
    }
  }

  /** What one turn has written gives no more than it has taken, and less after a lone backslash. */
  lemma {:induction false} ShrinksWhole(s: Str)
    requires |s| > 0 && Stays(s)
    ensures var w := Where(Body(s)); w.Ends? ==> w.n <= |s| && (s[0] == BACK && s[1] != BACK ==> w.n < |s|)
    decreases |s|, 0
  {
    var t, p, u := s[Taken(s)..], Piece(s), Body(s);
    assert u == p + Body(t) && u[|p|..] == Body(t);
    Shrinks(t, 0);
    assert Body(t)[0..] == Body(t);
    if |p| == 2 {
      assert u[1] == p[1];
      UnitShrinks(u, t);
      if s[0] != BACK || s[1] != LETTER_U { EscapeBack(s[Taken(s) - 1]); }
    }
  }

  lemma WherePlain(c: Octet, x: Str)
    requires c != QUOTE && c != BACK
    ensures Where([c] + x) == Plus(1, Where(x))
  {
    assert ([c] + x)[1..] == x;
  }

  lemma WhereEscape(c: Octet, x: Str)
    requires c != LETTER_U && Unescaped(c) != []
    ensures Where([BACK, c] + x) == Plus(|Unescaped(c)|, Where(x))
  {
    assert ([BACK, c] + x)[2..] == x;
  }

  lemma PieceWhere(s: Str, x: Str)
    requires |s| > 0 && Stays(s) && (s[0] == BACK ==> s[1] == BACK)
    ensures Where(Piece(s) + x) == Plus(Taken(s), Where(x))
  {
    var c, p := s[Taken(s) - 1], Piece(s);
    EscapeBack(c);
    assert p == Escaped(c);
    if |p| == 1 {
      WherePlain(c, x);
    } else {
      assert p == [BACK, p[1]];
      WhereEscape(p[1], x);
    }
  }

  /** After a character or a pair of backslashes nothing is lost. */
  lemma WholePiece(s: Str)
    requires |s| > 0 && Stays(s) && (s[0] == BACK ==> s[1] == BACK)
    ensures Where(Body(s)) == Plus(Taken(s), Where(Body(s[Taken(s)..])))
  {
    PieceWhere(s, Body(s[Taken(s)..]));
  }

  /** A lone backslash makes the string shorter. */
  lemma {:induction false} Loses(s: Str)
    requires Stays(s) && !Paired(s)
    ensures var w := Where(Body(s)); w.Ends? ==> w.n < |s|
    decreases |s|
  {
    if s[0] == BACK && s[1] != BACK {
      ShrinksWhole(s);
    } else {
      WholePiece(s);
      Loses(s[Taken(s)..]);
    }
  }

  lemma ReadingShorter(s: Str, str: Str, uni: seq<Unit>)
    ensures Reading(s, str, uni).Fine? ==> |Reading(s, str, uni).v.rest| < |s|
  {
    ReadingIs(s, str, uni);
  }

  lemma OverShort(r: Outcome<Read>, rest: Str, k: nat)
    requires GoesOn(r, Drop(rest, k)) && r.Fine?
    ensures |r.v.rest| < |rest|
  {
    var str, uni :| r == Reading(Drop(rest, k), str, uni);
    ReadingShorter(Drop(rest, k), str, uni);
  }

  lemma LosesReading(s: Str, rest: Str)
    requires Stays(s) && !Paired(s)
    ensures Reading(Closed(Body(s), rest), [], []) != Fine(Read(s, rest))
  {
    var r, w := Reading(Closed(Body(s), rest), [], []), Where(Body(s));
    Follow(Body(s), rest, [], []);
    Loses(s);
    if r.Fine? && w.Over? { OverShort(r, rest, w.k); }
    if r.Fine? && w.Early? { assert |Closed(w.tail, rest)| > |rest|; }
  }

  /** A string comes back, and no more than it is read, if and only if its backslashes come in pairs; whatever follows it. */
  lemma StringIff(s: Str, rest: Str)
    requires Stays(s)
    ensures Reading(Closed(Body(s), rest), [], []) == Fine(Read(s, rest)) <==> Paired(s)
  {
    if Paired(s) {
      PairedReads(s, rest, []);
      assert [] + s == s;
    } else {
      LosesReading(s, rest);
    }
  }

  // ---------- the condition, said otherwise ----------

  /** From i up to j there are backslashes, and no longer run holds them. */
  ghost predicate IsRun(s: Str, i: int, j: int) {
    && 0 <= i < j <= |s| && (i == 0 || s[i - 1] != BACK) && (j == |s| || s[j] != BACK)
    && forall k :: i <= k < j ==> s[k] == BACK
  }

  ghost predicate EvenRuns(s: Str) { forall i, j :: IsRun(s, i, j) ==> (j - i) % 2 == 0 }

  /** The first k characters are no backslash at last, or just two. */
  ghost predicate Fronts(s: Str, k: nat) { 0 < k <= |s| && (s[k - 1] != BACK || (k == 2 && s[0] == BACK && s[1] == BACK)) }

  /** A run of the rest is a run of the whole, k places on; two backslashes before it make it longer. */
  lemma RunForth(s: Str, k: nat, i: int, j: int) returns (i': int)
    requires Fronts(s, k) && IsRun(s[k..], i, j)
    ensures IsRun(s, i', j + k) && (j + k - i') % 2 == (j - i) % 2
  {
    var t := s[k..];
    i' := if i == 0 && s[k - 1] == BACK then 0 else i + k;
    assert i' > 0 ==> s[i' - 1] != BACK by { if i > 0 { assert s[i' - 1] == t[i - 1]; } }
    assert j + k < |s| ==> s[j + k] == t[j];
    forall l | i' <= l < j + k ensures s[l] == BACK {
      if l >= k { assert s[l] == t[l - k]; }
    }
  }

  /** And a run of the whole that goes on after them is a run of the rest. */
  lemma RunBack(s: Str, k: nat, i: int, j: int) returns (i': int)
    requires Fronts(s, k) && IsRun(s, i, j) && j > k
    ensures IsRun(s[k..], i', j - k) && (j - k - i') % 2 == (j - i) % 2
  {
    var t := s[k..];
    if i < k {
      assert s[k - 1] == BACK;
      i' := 0;
    } else {
      i' := i - k;
      if i > k { assert t[i' - 1] == s[i - 1]; }
    }
    assert j - k < |t| ==> t[j - k] == s[j];
    forall l | i' <= l < j - k ensures t[l] == BACK { assert t[l] == s[l + k]; }
  }

  lemma RunsShift(s: Str, k: nat)
    requires Fronts(s, k) && (k == 1 || (k == 2 && s[1] == BACK))
    ensures EvenRuns(s) <==> EvenRuns(s[k..])
  {
    if EvenRuns(s) {
      forall i, j | IsRun(s[k..], i, j) ensures (j - i) % 2 == 0 {
        var i' := RunForth(s, k, i, j);
      }
    }
    if EvenRuns(s[k..]) {
      forall i, j | IsRun(s, i, j) ensures (j - i) % 2 == 0 {
        if j > k {
          var i' := RunBack(s, k, i, j);
        } else {
          ShortRun(s, k, i, j);
        }
      }
    }
  }

  lemma ShortRun(s: Str, k: nat, i: int, j: int)
    requires Fronts(s, k) && (k == 1 || (k == 2 && s[1] == BACK)) && IsRun(s, i, j) && j <= k
    ensures i == 0 && j == 2
  {
    assert s[i] == BACK;
  }

  /** The run at the end, if there is one, has even length. */
  ghost predicate EvenEnd(s: Str) { forall i :: IsRun(s, i, |s|) ==> (|s| - i) % 2 == 0 }

  lemma EndShift(s: Str, k: nat)
    requires Fronts(s, k)
    ensures EvenEnd(s) <==> EvenEnd(s[k..])
  {
    var t := s[k..];
    if EvenEnd(s) {
      forall i | IsRun(t, i, |t|) ensures (|t| - i) % 2 == 0 {
        var i' := RunForth(s, k, i, |t|);
      }
    }
    if EvenEnd(t) {
      forall i | IsRun(s, i, |s|) ensures (|s| - i) % 2 == 0 {
        if |s| > k {
          var i' := RunBack(s, k, i, |s|);
        } else {
          assert s[k - 1] == BACK;
        }
      }
    }
  }

  /** The writer stays within the string exactly if no odd run of backslashes ends it. */
  lemma {:induction false} StaysIff(s: Str)
    ensures Stays(s) <==> EvenEnd(s)
    decreases |s|
  {
    if |s| == 1 && s[0] == BACK {
      assert IsRun(s, 0, 1);
    } else if |s| > 0 {
      var k := if s[0] == BACK then 2 else 1;
      EndShift(s, k);
      StaysIff(s[k..]);
    }
  }

  /** Backslashes come in pairs exactly if every run of them has even length. */
  lemma {:induction false} PairedIff(s: Str)
    ensures Paired(s) <==> EvenRuns(s)
    decreases |s|
  {
    if |s| > 0 {
      if s[0] != BACK {
        RunsShift(s, 1);
        PairedIff(s[1..]);
      } else if |s| > 1 && s[1] == BACK {
        RunsShift(s, 2);
        PairedIff(s[2..]);
      } else {
        assert IsRun(s, 0, 1);
      }
    }
  }

  lemma {:induction false} PairedAppend(a: Str, b: Str)
    requires Paired(a) && Paired(b)
    ensures Paired(a + b)
    decreases |a|
  {
    if |a| == 0 {
      assert a + b == b;
    } else {
      var k := if a[0] == BACK then 2 else 1;
      PairedAppend(a[k..], b);
      assert (a + b)[k..] == a[k..] + b;
    }
  }

  /** No backslash is followed by a u. */
  ghost predicate NoUnit(s: Str) { forall i :: 0 <= i < |s| - 1 && s[i] == BACK ==> s[i + 1] != LETTER_U }

  /** Whatever is read without such escapes can be written and read again: an id that comes from a JSON text stays what it
      is. */
  lemma {:induction false} ReadIsPaired(s: Str, str: Str)
    requires NoUnit(s) && Paired(str) && Match(s, str, []).Fine?
    ensures Paired(Match(s, str, []).v.v)
    decreases |s|
  {
    NoUnits();
    if s[0] == QUOTE {
      assert str + [] == str;
    } else if s[0] == BACK && |s| > 1 {
      var c := Unescaped(s[1]);
      assert str + c + [] == str + c;
      PairedUnescaped(s[1]);
      PairedAppend(str, c);
      ReadIsPaired(s[2..], str + c);
    } else if s[0] != BACK {
      assert str + [] + [s[0]] == str + [s[0]];
      PairedAppend(str, [s[0]]);
      ReadIsPaired(s[1..], str + [s[0]]);
    }
  }

  lemma PairedUnescaped(c: Octet)
    ensures Paired(Unescaped(c))
  {
    var r := Unescaped(c);
    if |r| == 2 { assert r[2..] == []; }
    if |r| == 1 { assert r[1..] == []; }
  }

  /** A backslash and a b arrive as a b. */
  lemma LostBackslash(rest: Str)
    ensures Stays([BACK, 98]) && Body([BACK, 98]) == [98] && Reading(Closed([98], rest), [], []) == Fine(Read([98], rest))
  {
    var s: Str := [BACK, 98];
    assert s[2..] == [];
    NoUnits();
    ReadsPlain(98, Closed([], rest), [], []);
    ReadsEnd(rest, [98], []);
    assert Closed([98], rest) == [98] + Closed([], rest) && Closed([], rest) == [QUOTE] + rest;
    assert [] + To8([]) + [98] == [98] && [98] + To8([]) == [98];
  }
}
