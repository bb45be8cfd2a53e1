/**
 * JSON documents (lib/cajun-2.0.2/json, writer.inl and reader.inl): the text of an object of strings and booleans, and the
 * scanner and parser that read any text.  The conversion of numbers is a parameter.
 */
module JsonText {
  import opened Json

  // ---------- the scanner ----------

  datatype Token =
    | BeginObject | EndObject | BeginArray | EndArray | NextElement | MemberAssign
    | StringToken(v: Str) | NumberToken(v: Str) | BooleanToken(b: bool) | NullToken

  datatype Next = Next(t: Token, rest: Str)

  predicate Space(c: Octet) { 9 <= c <= 13 || c == 32 }

  /** The set of MatchNumber, which holds the terminating zero too. */
  predicate Numeric(c: Octet) { 48 <= c <= 57 || c == 46 || c == 101 || c == 69 || c == 45 || c == 43 || c == 0 }

  function Numbers(s: Str): (n: nat)
    ensures n <= |s| && (forall i :: 0 <= i < n ==> Numeric(s[i])) && (n < |s| ==> !Numeric(s[n]))
  {
    if |s| == 0 || !Numeric(s[0]) then 0 else 1 + Numbers(s[1..])
  }

  const TRUE: Str := [116, 114, 117, 101]
  const FALSE: Str := [102, 97, 108, 115, 101]
  const NULL: Str := [110, 117, 108, 108]

  /** MatchExpectedString */
  function Expected(s: Str, w: Str, t: Token): Outcome<Next> { if w <= s then Fine(Next(t, s[|w|..])) else Rejected }

  /** One turn of Scan. */
  ghost function NextToken(s: Str): (r: Outcome<Next>)
    requires |s| > 0
    ensures r.Fine? ==> |r.v.rest| < |s|
  {
    var c := s[0];
    if c == 123 then Fine(Next(BeginObject, s[1..]))
    else if c == 125 then Fine(Next(EndObject, s[1..]))
    else if c == 91 then Fine(Next(BeginArray, s[1..]))
    else if c == 93 then Fine(Next(EndArray, s[1..]))
    else if c == 44 then Fine(Next(NextElement, s[1..]))
    else if c == 58 then Fine(Next(MemberAssign, s[1..]))
    else if c == QUOTE then
      ReadingShorter(s[1..], [], []);
      match Reading(s[1..], [], [])
      case Fine(m) => Fine(Next(StringToken(m.v), m.rest))
      case Rejected => Rejected
      case Escapes => Escapes
      case Undefined => Undefined
    else if c == 45 || 48 <= c <= 57 then Fine(Next(NumberToken(s[..Numbers(s)]), s[Numbers(s)..]))
    else if c == 116 then Expected(s, TRUE, BooleanToken(true))
    else if c == 102 then Expected(s, FALSE, BooleanToken(false))
    else if c == 110 then Expected(s, NULL, NullToken)
    else Rejected
  }

  /** The six structural characters and the three names of section 2 and 3 of RFC 8259. */
  lemma Punctuation(s: Str)
    ensures |s| > 0 && s[0] == '{' as int ==> NextToken(s) == Fine(Next(BeginObject, s[1..]))
    ensures |s| > 0 && s[0] == '}' as int ==> NextToken(s) == Fine(Next(EndObject, s[1..]))
    ensures |s| > 0 && s[0] == '[' as int ==> NextToken(s) == Fine(Next(BeginArray, s[1..]))
    ensures |s| > 0 && s[0] == ']' as int ==> NextToken(s) == Fine(Next(EndArray, s[1..]))
    ensures |s| > 0 && s[0] == ',' as int ==> NextToken(s) == Fine(Next(NextElement, s[1..]))
    ensures |s| > 0 && s[0] == ':' as int ==> NextToken(s) == Fine(Next(MemberAssign, s[1..]))
    ensures ['t' as int, 'r' as int, 'u' as int, 'e' as int] <= s ==> NextToken(s) == Fine(Next(BooleanToken(true), s[4..]))
    ensures ['f' as int, 'a' as int, 'l' as int, 's' as int, 'e' as int] <= s ==> NextToken(s) == Fine(Next(BooleanToken(false), s[5..]))
    ensures ['n' as int, 'u' as int, 'l' as int, 'l' as int] <= s ==> NextToken(s) == Fine(Next(NullToken, s[4..]))
  {
  }

  lemma NumericIs(c: Octet)
    ensures Numeric(c) <==> c as char in "0123456789-+.eE\0"
  {
    assert c as char in "0123456789-+.eE\0" <==> c as char in "0123456789" || c as char in "-+.eE\0";
  }

  lemma NumbersIs(s: Str, n: nat)
    requires n <= |s| && (forall i :: 0 <= i < n ==> Numeric(s[i])) && (n < |s| ==> !Numeric(s[n]))
    ensures Numbers(s) == n
  {
    var k := Numbers(s);
  }

  /** A number token is the longest run of characters that a number can hold, if it starts with a digit or a minus. */
  lemma NumberTokenIs(s: Str, n: nat)
    requires 0 < n <= |s| && s[0] as char in "-0123456789"
    requires forall i :: 0 <= i < n ==> s[i] as char in "0123456789-+.eE\0"
    requires n < |s| ==> s[n] as char !in "0123456789-+.eE\0"
    ensures NextToken(s) == Fine(Next(NumberToken(s[..n]), s[n..]))
  {
    forall i | 0 <= i < |s| ensures Numeric(s[i]) <==> s[i] as char in "0123456789-+.eE\0" { NumericIs(s[i]); }
    NumbersIs(s, n);
    StartsNumber(s[0]);
  }

  lemma StartsNumber(c: Octet)
    requires c as char in "-0123456789"
    ensures c == 45 || 48 <= c <= 57
  {
  }

  /** The white space of section 2 of RFC 8259 is skipped. */
  lemma SpaceSkipped(s: Str)
    requires |s| > 0 && s[0] as char in " \t\n\r"
    ensures Scan(s) == Scan(s[1..])
  {
    assert Space(s[0]);
  }

  function Cons(t: Token, r: Outcome<seq<Token>>): Outcome<seq<Token>> { if r.Fine? then Fine([t] + r.v) else r }

  /** Scan */
  ghost function Scan(s: Str): Outcome<seq<Token>>
    decreases |s|
  {
    if |s| == 0 then Fine([])
    else if Space(s[0]) then Scan(s[1..])
    else
      match NextToken(s)
      case Fine(n) => Cons(n.t, Scan(n.rest))
      case Rejected => Rejected
      case Escapes => Escapes
      case Undefined => Undefined
  }

  method MatchNumber(s: Str) returns (n: nat)
    ensures n == Numbers(s)
  {
    n := 0;
    assert s[0..] == s;
    while n < |s| && Numeric(s[n])
      invariant n <= |s| && Numbers(s) == n + Numbers(s[n..])
    {
      assert s[n..][1..] == s[n + 1..];
      n := n + 1;
    }
  }

  method MatchExpectedString(s: Str, w: Str, t: Token) returns (r: Outcome<Next>)
    ensures r == Expected(s, w, t)
  {
    var i := 0;
    while i < |w|
      invariant 0 <= i <= |w| && i <= |s| && w[..i] == s[..i]
    {
      if i == |s| || s[i] != w[i] { return Rejected; }
      i := i + 1;
    }
    assert w[..i] == w;
    r := Fine(Next(t, s[i..]));
  }

  method ScanToken(s: Str) returns (r: Outcome<Next>)
    requires |s| > 0
    ensures r == NextToken(s)
  {
    var c := s[0];
    if c == 123 { r := Fine(Next(BeginObject, s[1..])); }
    else if c == 125 { r := Fine(Next(EndObject, s[1..])); }
    else if c == 91 { r := Fine(Next(BeginArray, s[1..])); }
    else if c == 93 { r := Fine(Next(EndArray, s[1..])); }
    else if c == 44 { r := Fine(Next(NextElement, s[1..])); }
    else if c == 58 { r := Fine(Next(MemberAssign, s[1..])); }
    else if c == QUOTE {
      var m := MatchString(s);
      ReadingIs(s[1..], [], []);
      match m {
        case Fine(m) => r := Fine(Next(StringToken(m.v), m.rest));
        case Rejected => r := Rejected;
        case Escapes => r := Escapes;
        case Undefined => r := Undefined;
      }
    } else if c == 45 || 48 <= c <= 57 {
      var n := MatchNumber(s);
      r := Fine(Next(NumberToken(s[..n]), s[n..]));
    }
    else if c == 116 { r := MatchExpectedString(s, TRUE, BooleanToken(true)); }
    else if c == 102 { r := MatchExpectedString(s, FALSE, BooleanToken(false)); }
    else if c == 110 { r := MatchExpectedString(s, NULL, NullToken); }
    else { r := Rejected; }
  }

  /** What has been scanned, and what is still to be. */
  ghost function Append(ts: seq<Token>, r: Outcome<seq<Token>>): Outcome<seq<Token>> { if r.Fine? then Fine(ts + r.v) else r }

  method ScanText(s: Str) returns (r: Outcome<seq<Token>>)
    ensures r == Scan(s)
  {
    var ts: seq<Token>, rest := [], s;
    assert forall x: seq<Token> :: [] + x == x;
    while |rest| > 0
      invariant Scan(s) == Append(ts, Scan(rest))
      decreases |rest|
    {
      if Space(rest[0]) {
        rest := rest[1..];
      } else {
        var n := ScanToken(rest);
        match n {
          case Fine(n) =>
            assert forall x: seq<Token> :: ts + ([n.t] + x) == (ts + [n.t]) + x;
            ts, rest := ts + [n.t], n.rest;
          case Rejected => return Rejected;
          case Escapes => return Escapes;
          case Undefined => return Undefined;
        }
      }
    }
    assert ts + [] == ts;
    r := Fine(ts);
  }

  // ---------- the parser ----------

  datatype Value = Object(ms: seq<Member>) | Array(vs: seq<Value>) | String(s: Str) | Number(n: Str) | Boolean(b: bool) | Null
  datatype Member = Member(name: Str, value: Value)
  datatype Got<T> = Got(v: T, rest: seq<Token>)

  /** Object::Find */
  predicate Named(ms: seq<Member>, name: Str) { exists i :: 0 <= i < |ms| && ms[i].name == name }

  /** MatchExpectedToken, at the end of an object or an array. */
  function Ended<T>(v: T, ts: seq<Token>, t: Token): (r: Outcome<Got<T>>)
    ensures r.Fine? ==> |r.v.rest| < |ts|
  {
    if |ts| > 0 && ts[0] == t then Fine(Got(v, ts[1..])) else Rejected
  }

  /** Parse of any element; num says which number tokens convert. */
  function Element(ts: seq<Token>, num: Str -> bool): (r: Outcome<Got<Value>>)
    ensures r.Fine? ==> |r.v.rest| < |ts|
    decreases |ts|, 0
  {
    if |ts| == 0 then Rejected
    else
      var rest := ts[1..];
      match ts[0]
      case BeginObject =>
        var o := if |rest| > 0 && rest[0] != EndObject then Members(rest, [], num) else Ended([], rest, EndObject);
        if o.Fine? then Fine(Got(Object(o.v.v), o.v.rest)) else Rejected
      case BeginArray =>
        var o := if |rest| > 0 && rest[0] != EndArray then Elements(rest, [], num) else Ended([], rest, EndArray);
        if o.Fine? then Fine(Got(Array(o.v.v), o.v.rest)) else Rejected
      case StringToken(v) => Fine(Got(String(v), rest))
      case NumberToken(v) => if num(v) then Fine(Got(Number(v), rest)) else Rejected
      case BooleanToken(b) => Fine(Got(Boolean(b), rest))
      case NullToken => Fine(Got(Null, rest))
      case _ => Rejected
  }

  /** The loop over the members of an object. */
  function Members(ts: seq<Token>, acc: seq<Member>, num: Str -> bool): (r: Outcome<Got<seq<Member>>>)
    ensures r.Fine? ==> |r.v.rest| < |ts|
    decreases |ts|, 0
  {
    if |ts| < 2 || !ts[0].StringToken? || ts[1] != MemberAssign then Rejected
    else
      var e := Element(ts[2..], num);
      if !e.Fine? || Named(acc, ts[0].v) then Rejected
      else
        var acc', rest := acc + [Member(ts[0].v, e.v.v)], e.v.rest;
        if |rest| > 0 && rest[0] == NextElement then Members(rest[1..], acc', num) else Ended(acc', rest, EndObject)
  }

  /** The loop over the elements of an array. */
  function Elements(ts: seq<Token>, acc: seq<Value>, num: Str -> bool): (r: Outcome<Got<seq<Value>>>)
    ensures r.Fine? ==> |r.v.rest| < |ts|
    decreases |ts|, 1
  {
    var e := Element(ts, num);
    if !e.Fine? then Rejected
    else
      var acc', rest := acc + [e.v.v], e.v.rest;
      if |rest| > 0 && rest[0] == NextElement then Elements(rest[1..], acc', num) else Ended(acc', rest, EndArray)
  }

  /** The element of all tokens.  Without any token the parser looks at the last one of none. */
  function Whole(ts: seq<Token>, num: Str -> bool): Outcome<Value> {
    if |ts| == 0 then Undefined
    else
      var e := Element(ts, num);
      if e.Fine? && e.v.rest == [] then Fine(e.v.v) else Rejected
  }

  /** json::Parse */
  ghost function ReadText(s: Str, num: Str -> bool): Outcome<Value> {
    match Scan(s)
    case Fine(ts) => Whole(ts, num)
    case Rejected => Rejected
    case Escapes => Escapes
    case Undefined => Undefined
  }

  method ParseText(s: Str, num: Str -> bool) returns (r: Outcome<Value>)
    ensures r == ReadText(s, num)
  {
    var ts := ScanText(s);
    match ts {
      case Fine(ts) => r := Whole(ts, num);
      case Rejected => r := Rejected;
      case Escapes => r := Escapes;
      case Undefined => r := Undefined;
    }
  }

  // ---------- the text of an object ----------

  /** A member that is written: a string or a boolean. */
  datatype Leaf = Text(s: Str) | Flag(b: bool)
  datatype Field = Field(name: Str, value: Leaf)

  predicate LeafStays(l: Leaf) { l.Text? ==> Stays(l.s) }

  ghost predicate AllStay(fs: seq<Field>) { forall i :: 0 <= i < |fs| ==> Stays(fs[i].name) && LeafStays(fs[i].value) }

  /** A string in quotes, or a boolean, and what follows it. */
  ghost function LeafThen(l: Leaf, rest: Str): Str
    requires LeafStays(l)
  {
    match l
    case Text(s) => [QUOTE] + Closed(Body(s), rest)
    case Flag(b) => (if b then TRUE else FALSE) + rest
  }

  /** A line: a tab, the name, a colon between blanks, the value. */
  ghost function LineThen(f: Field, rest: Str): Str
    requires Stays(f.name) && LeafStays(f.value)
  {
    [9, QUOTE] + Closed(Body(f.name), [32, 58, 32] + LeafThen(f.value, rest))
  }

  /** What follows a value: the end of the object, or a comma and the other lines. */
  ghost function Tail(fs: seq<Field>): Str
    requires AllStay(fs)
  {
    if |fs| == 0 then [10, 125] else [44, 10] + LineThen(fs[0], Tail(fs[1..]))
  }

  ghost function ObjectText(fs: seq<Field>): Str
    requires AllStay(fs)
  {
    if |fs| == 0 then [123, 125] else [123, 10] + LineThen(fs[0], Tail(fs[1..]))
  }

  // ---------- the scanner on such a text ----------

  ghost predicate IsScanning(s: Str, r: Outcome<seq<Token>>) {
    forall u {:trigger Marked(u)} :: Marked(u) && u == 13 ==> r == Scan(s)
  }

  /** Scan, unfolded only by ScanningIs. */
  ghost function Scanning(s: Str): Outcome<seq<Token>> {
    assert IsScanning(s, Scan(s));
    var r :| IsScanning(s, r);
    r
  }

  lemma ScanningIs(s: Str)
    ensures Scanning(s) == Scan(s)
  {
    assert Marked(13);
  }

  lemma ScansSpace(c: Octet, x: Str)
    requires Space(c)
    ensures Scanning([c] + x) == Scanning(x)
  {
    ScanningIs([c] + x);
    ScanningIs(x);
    assert ([c] + x)[1..] == x;
  }

  lemma ScansToken(s: Str, t: Token, rest: Str)
    requires |s| > 0 && !Space(s[0]) && NextToken(s) == Fine(Next(t, rest))
    ensures Scanning(s) == Cons(t, Scanning(rest))
  {
    ScanningIs(s);
    ScanningIs(rest);
  }

  lemma ScansNot(s: Str)
    requires |s| > 0 && !Space(s[0]) && !NextToken(s).Fine?
    ensures !Scanning(s).Fine?
  {
    ScanningIs(s);
  }

  /** A string token, and the rest. */
  lemma ScansString(x: Str, v: Str, rest: Str)
    requires Reading(x, [], []) == Fine(Read(v, rest))
    ensures Scanning([QUOTE] + x) == Cons(StringToken(v), Scanning(rest))
  {
    var s := [QUOTE] + x;
    assert s[1..] == x;
    ScansToken(s, StringToken(v), rest);
  }

  lemma ScansNoString(x: Str)
    requires !Reading(x, [], []).Fine?
    ensures !Scanning([QUOTE] + x).Fine?
  {
    var s := [QUOTE] + x;
    assert s[1..] == x;
    ScansNot(s);
  }

  // ---------- names ----------

  /** A name that is written as it is, and with which no token and no blank begins. */
  predicate Barred(name: Str) {
    && |name| >= 2 && (forall i :: 0 <= i < |name| ==> Escaped(name[i]) == [name[i]])
    && var c := name[0];
    && !Space(c) && c !in [123, 125, 91, 93, 44, 58, 45] && !(48 <= c <= 57)
    && (c == 116 ==> name[1] != 114) && (c == 102 ==> name[1] != 97) && (c == 110 ==> name[1] != 117)
  }

  lemma {:induction false} PlainBody(s: Str)
    requires forall i :: 0 <= i < |s| ==> Escaped(s[i]) == [s[i]]
    ensures Paired(s) && Stays(s) && Body(s) == s
    decreases |s|
  {
    if |s| > 0 {
      assert Escaped(s[0]) == [s[0]];
      PlainBody(s[1..]);
      assert s == [s[0]] + s[1..];
    }
  }

  lemma BarredFails(name: Str, x: Str)
    requires Barred(name)
    ensures !Scanning(name + x).Fine?
  {
    var s := name + x;
    assert s[0] == name[0] && s[1] == name[1] && Escaped(name[0]) == [name[0]];
    ScansNot(s);
  }

  // ---------- readings that go astray ----------

  /** What can follow a string: the end of the object, or a comma and a line. */
  ghost predicate Ending(r: Str) { r == [10, 125] }
  ghost predicate Going(r: Str, name: Str, x: Str) { r == [44, 10, 9] + ([QUOTE] + (name + x)) && Barred(name) }

  lemma {:induction false} NoQuote(s: Str, str: Str, uni: seq<Unit>)
    requires forall i :: 0 <= i < |s| ==> s[i] != QUOTE
    ensures !Match(s, str, uni).Fine?
    decreases |s|
  {
    if |s| > 0 {
      if s[0] == BACK && |s| > 1 {
        if s[1] == LETTER_U {
          NoQuote(Drop(s, 6), str, uni + [UnitAt(s)]);
        } else if Unescaped(s[1]) != [] && Formed(uni) {
          NoQuote(s[2..], str + Unescaped(s[1]) + To8(uni), []);
        }
      } else if Formed(uni) {
        NoQuote(s[1..], str + To8(uni) + [s[0]], []);
      }
    }
  }

  /** Past the closing quote of the last string there is no other. */
  lemma OverEnding(r: Str, k: nat, str: Str, uni: seq<Unit>)
    requires Ending(r)
    ensures !Reading(Drop(r, k), str, uni).Fine?
  {
    ReadingIs(Drop(r, k), str, uni);
    NoQuote(Drop(r, k), str, uni);
  }

  /** Past any other, the next quote opens the next name, which is then read outside of a string. */
  lemma OverGoing(r: Str, name: Str, x: Str, k: nat, str: Str, uni: seq<Unit>)
    requires Going(r, name, x) && k <= 3
    ensures var o := Reading(Drop(r, k), str, uni); o.Fine? ==> o.v.rest == name + x
  {
    var u := [44, 10, 9][k..];
    assert Drop(r, k) == Closed(u, name + x);
    Follow(u, name + x, str, uni);
    BlankEnds(u);
  }

  lemma {:induction false} BlankEnds(u: Str)
    requires forall i :: 0 <= i < |u| ==> u[i] != QUOTE && u[i] != BACK
    ensures Where(u).Ends?
    decreases |u|
  {
    if |u| > 0 { BlankEnds(u[1..]); }
  }

  /** Every quote but a first one comes after a backslash; or every quote does. */
  ghost predicate Guarded1(u: Str) { forall j :: 1 <= j < |u| && u[j] == QUOTE ==> u[j - 1] == BACK }
  ghost predicate Guarded(u: Str) { Guarded1(u) && (|u| > 0 ==> u[0] != QUOTE) }

  lemma GuardedPart(u: Str, k: nat)
    requires Guarded1(u) && k <= |u|
    ensures Guarded1(u[k..]) && (0 < k < |u| && u[k - 1] != BACK ==> Guarded(u[k..]))
  {
    var t := u[k..];
    forall j | 1 <= j < |t| && t[j] == QUOTE ensures t[j - 1] == BACK { assert t[j] == u[j + k] && t[j - 1] == u[j + k - 1]; }
  }

  lemma {:induction false} BodyGuarded(s: Str)
    requires Stays(s)
    ensures Guarded(Body(s))
    decreases |s|
  {
    if |s| > 0 {
      var p, x := Piece(s), Body(s[Taken(s)..]);
      BodyGuarded(s[Taken(s)..]);
      var u := p + x;
      assert |x| > 0 ==> u[|p|] == x[0];
      forall j | 1 <= j < |u| && u[j] == QUOTE ensures u[j - 1] == BACK {
        if j > |p| { assert u[j] == x[j - |p|] && u[j - 1] == x[j - |p| - 1]; }
      }
    }
  }

  /** If a quote of a written string ends the reading, what is left of it is guarded. */
  lemma {:induction false} EarlyGuarded(u: Str)
    requires Guarded1(u) && Where(u).Early?
    ensures Guarded(Where(u).tail)
    decreases |u|
  {
    if u[0] == QUOTE {
      GuardedPart(u, 1);
    } else {
      var k := if u[0] != BACK then 1 else if u[1] == LETTER_U then 6 else 2;
      GuardedPart(u, k);
      EarlyGuarded(u[k..]);
    }
  }

  /** What the scanner makes of the beginning of a guarded text: a failure, or it goes on inside, at a place where the text
      is guarded again. */
  lemma GuardedToken(u: Str, y: Str)
    requires |u| > 0 && Guarded(u) && !Space(u[0])
    ensures var n := NextToken(u + ([QUOTE] + y));
      n.Fine? ==> exists k :: 0 < k <= |u| && Guarded(u[k..]) && n.v.rest == Closed(u[k..], y)
  {
    var s := u + ([QUOTE] + y);
    var n := NextToken(s);
    if n.Fine? {
      var k := |s| - |n.v.rest|;
      TokenInside(u, y, k);
      assert s[k..] == u[k..] + ([QUOTE] + y);
      if k < |u| { GuardedPart(u, k); }
    }
  }

  /** A token that is no string ends before the next quote, and not after a backslash. */
  lemma TokenInside(u: Str, y: Str, k: int)
    requires |u| > 0 && u[0] != QUOTE && var n := NextToken(u + ([QUOTE] + y)); n.Fine? && k == |u + ([QUOTE] + y)| - |n.v.rest|
    ensures 0 < k <= |u| && u[k - 1] != BACK && NextToken(u + ([QUOTE] + y)).v.rest == (u + ([QUOTE] + y))[k..]
  {
    var s := u + ([QUOTE] + y);
    assert s[|u|] == QUOTE;
    var c := s[0];
    if c == 45 || 48 <= c <= 57 {
      assert k == Numbers(s) && !Numeric(s[|u|]) && Numeric(s[k - 1]);
    } else if c == 116 || c == 102 || c == 110 {
      var w := if c == 116 then TRUE else if c == 102 then FALSE else NULL;
      assert w <= s && k == |w|;
      assert forall i :: 0 <= i < k ==> s[i] == w[i] != QUOTE;
      assert w[k - 1] == s[k - 1];
    }
  }

  /** What follows a string, one way or the other. */
  ghost predicate After(r: Str) { Ending(r) || exists name, x :: Going(r, name, x) }

  /** Nothing good comes of a string that starts at a closing quote. */
  lemma QuoteFails(r: Str)
    requires After(r)
    ensures !Scanning([QUOTE] + r).Fine?
  {
    var o := Reading(r, [], []);
    assert Drop(r, 0) == r;
    if Ending(r) { OverEnding(r, 0, [], []); }
    if o.Fine? {
      var name, x :| Going(r, name, x);
      OverGoing(r, name, x, 0, [], []);
      ScansString(r, o.v.v, o.v.rest);
      BarredFails(name, x);
    } else {
      ScansNoString(r);
    }
  }

  lemma {:induction false} GuardedFails(u: Str, r: Str)
    requires Guarded(u) && After(r)
    ensures !Scanning(Closed(u, r)).Fine?
    decreases |u|
  {
    var s := Closed(u, r);
    if |u| == 0 {
      QuoteFails(r);
      assert s == [QUOTE] + r;
    } else if Space(u[0]) {
      GuardedPart(u, 1);
      GuardedFails(u[1..], r);
      ScansSpace(u[0], Closed(u[1..], r));
      assert s == [u[0]] + Closed(u[1..], r);
    } else {
      GuardedToken(u, r);
      var n := NextToken(s);
      if n.Fine? {
        var k :| 0 < k <= |u| && Guarded(u[k..]) && n.v.rest == Closed(u[k..], r);
        GuardedFails(u[k..], r);
        ScansToken(s, n.v.t, n.v.rest);
      } else {
        ScansNot(s);
      }
    }
  }

  /** A string that is not read up to its own closing quote spoils the document. */
  lemma Astray(s: Str, r: Str)
    requires Stays(s) && After(r)
    ensures var o := Reading(Closed(Body(s), r), [], []); o.Fine? && o.v.rest != r ==> !Scanning(o.v.rest).Fine?
  {
    var o, w := Reading(Closed(Body(s), r), [], []), Where(Body(s));
    Follow(Body(s), r, [], []);
    if o.Fine? && w.Early? {
      BodyGuarded(s);
      EarlyGuarded(Body(s));
      GuardedFails(w.tail, r);
    }
    if o.Fine? && w.Over? { AstrayOver(o, r, w.k); }
  }

  lemma AstrayOver(o: Outcome<Read>, r: Str, k: nat)
    requires After(r) && o.Fine? && GoesOn(o, Drop(r, k)) && k <= 3
    ensures !Scanning(o.v.rest).Fine?
  {
    var str, uni :| o == Reading(Drop(r, k), str, uni);
    if Ending(r) { OverEnding(r, k, str, uni); }
    var name, x :| Going(r, name, x);
    OverGoing(r, name, x, k, str, uni);
    BarredFails(name, x);
  }

  // ---------- a document, read back ----------

  /** The value l comes back as l'. */
  ghost predicate Kept(l: Leaf, l': Leaf) {
    (l.Flag? ==> l' == l) && (l.Text? ==> l'.Text? && (l'.s == l.s <==> Paired(l.s)))
  }

  ghost predicate Safe(l: Leaf) { l.Text? ==> Paired(l.s) }

  function LeafToken(l: Leaf): Token { if l.Text? then StringToken(l.s) else BooleanToken(l.b) }
  function LeafValue(l: Leaf): Value { if l.Text? then String(l.s) else Boolean(l.b) }

  lemma FlagScans(b: bool, r: Str)
    ensures Scanning(LeafThen(Flag(b), r)) == Cons(BooleanToken(b), Scanning(r))
  {
    var w := if b then TRUE else FALSE;
    var s := w + r;
    assert w <= s && s[|w|..] == r && s[0] == w[0];
    ScansToken(s, BooleanToken(b), r);
  }

  lemma LeafScans(l: Leaf, r: Str) returns (l': Leaf)
    requires LeafStays(l) && After(r)
    ensures Kept(l, l')
    ensures Safe(l) || Scanning(LeafThen(l, r)).Fine? ==> Scanning(LeafThen(l, r)) == Cons(LeafToken(l'), Scanning(r))
  {
    l' := l;
    if l.Flag? {
      FlagScans(l.b, r);
    } else {
      var x := Closed(Body(l.s), r);
      var o := Reading(x, [], []);
      StringIff(l.s, r);
      if o.Fine? {
        ScansString(x, o.v.v, o.v.rest);
        Astray(l.s, r);
        if o.v.rest == r {
          l' := Text(o.v.v);
        } else if !Paired(l.s) {
          l' := Text(l.s + [0]);
        }
      } else {
        ScansNoString(x);
        l' := Text(l.s + [0]);
      }
    }
  }

  lemma NameScans(f: Field, r: Str)
    requires Barred(f.name) && Stays(f.name) && LeafStays(f.value)
    ensures Scanning(LineThen(f, r)) == Cons(StringToken(f.name), Cons(MemberAssign, Scanning(LeafThen(f.value, r))))
  {
    var v := LeafThen(f.value, r);
    var y := [32, 58, 32] + v;
    var x := Closed(Body(f.name), y);
    PlainBody(f.name);
    StringIff(f.name, y);
    ScansSpace(9, [QUOTE] + x);
    assert LineThen(f, r) == [9] + ([QUOTE] + x);
    ScansString(x, f.name, y);
    ColonScans(v);
  }

  lemma ColonScans(v: Str)
    ensures Scanning([32, 58, 32] + v) == Cons(MemberAssign, Scanning(v))
  {
    var a := [32] + v;
    var b := [58] + a;
    assert b[1..] == a;
    ScansSpace(32, v);
    ScansToken(b, MemberAssign, a);
    ScansSpace(32, b);
    assert [32] + b == [32, 58, 32] + v;
  }

  /** Fields that can be written, under names that do not look like tokens. */
  ghost predicate Proper(fs: seq<Field>) { AllStay(fs) && forall i :: 0 <= i < |fs| ==> Barred(fs[i].name) }

  ghost predicate AllSafe(fs: seq<Field>) { forall i :: 0 <= i < |fs| ==> Safe(fs[i].value) }

  ghost predicate AllKept(fs: seq<Field>, vs: seq<Leaf>) { |fs| == |vs| && forall i :: 0 <= i < |fs| ==> Kept(fs[i].value, vs[i]) }

  function TailTokens(fs: seq<Field>, vs: seq<Leaf>): seq<Token>
    requires |fs| == |vs|
  {
    if |fs| == 0 then [EndObject]
    else [NextElement, StringToken(fs[0].name), MemberAssign, LeafToken(vs[0])] + TailTokens(fs[1..], vs[1..])
  }

  lemma TailAfter(fs: seq<Field>)
    requires Proper(fs)
    ensures After(Tail(fs))
  {
    if |fs| > 0 {
      var f := fs[0];
      PlainBody(f.name);
      CommaLine(f.name + ([QUOTE] + ([32, 58, 32] + LeafThen(f.value, Tail(fs[1..])))));
      assert Going(Tail(fs), f.name, [QUOTE] + ([32, 58, 32] + LeafThen(f.value, Tail(fs[1..]))));
    }
  }

  lemma CommaLine(x: Str)
    ensures [44, 10] + ([9, QUOTE] + x) == [44, 10, 9] + ([QUOTE] + x)
  {
  }

  /** A line and what follows it: three tokens, if the scanner comes through. */
  lemma LineScans(f: Field, r: Str) returns (v: Leaf)
    requires Barred(f.name) && Stays(f.name) && LeafStays(f.value) && After(r)
    ensures Kept(f.value, v)
    ensures Safe(f.value) || Scanning(LineThen(f, r)).Fine? ==>
      Scanning(LineThen(f, r)) == Cons(StringToken(f.name), Cons(MemberAssign, Cons(LeafToken(v), Scanning(r))))
  {
    NameScans(f, r);
    v := LeafScans(f.value, r);
  }

  lemma EndScans()
    ensures Scanning([10, 125]) == Fine([EndObject])
  {
    var s: Str := [125];
    assert s[1..] == [];
    ScanningIs([]);
    ScansToken(s, EndObject, []);
    ScansSpace(10, s);
    assert [10] + s == [10, 125];
    var none: seq<Token> := [];
    assert [EndObject] + none == [EndObject];
  }

  lemma CommaScans(x: Str)
    ensures Scanning([44, 10] + x) == Cons(NextElement, Scanning(x))
  {
    var a := [10] + x;
    var s := [44] + a;
    assert s[1..] == a && s == [44, 10] + x;
    ScansSpace(10, x);
    ScansToken(s, NextElement, a);
  }

  lemma {:induction false} TailScans(fs: seq<Field>) returns (vs: seq<Leaf>)
    requires Proper(fs)
    ensures AllKept(fs, vs)
    ensures AllSafe(fs) ==> Scanning(Tail(fs)).Fine?
    ensures Scanning(Tail(fs)).Fine? ==> Scanning(Tail(fs)) == Fine(TailTokens(fs, vs))
    decreases |fs|
  {
    vs := [];
    if |fs| == 0 {
      EndScans();
    } else {
      var f, r := fs[0], Tail(fs[1..]);
      TailAfter(fs[1..]);
      vs := TailScans(fs[1..]);
      CommaScans(LineThen(f, r));
      var v := LineScans(f, r);
      ghost var ws := vs;
      vs := [v] + vs;
      assert vs[1..] == ws;
      Four(NextElement, StringToken(f.name), MemberAssign, LeafToken(v), Scanning(r));
    }
  }

  lemma Four(a: Token, b: Token, c: Token, d: Token, r: Outcome<seq<Token>>)
    ensures Cons(a, Cons(b, Cons(c, Cons(d, r)))) == if r.Fine? then Fine([a, b, c, d] + r.v) else r
  {
    if r.Fine? { assert [a] + ([b] + ([c] + ([d] + r.v))) == [a, b, c, d] + r.v; }
  }

  function MembersOf(fs: seq<Field>, vs: seq<Leaf>): (ms: seq<Member>)
    requires |fs| == |vs|
    ensures |ms| == |fs| && forall i :: 0 <= i < |fs| ==> ms[i] == Member(fs[i].name, LeafValue(vs[i]))
  {
    if |fs| == 0 then [] else [Member(fs[0].name, LeafValue(vs[0]))] + MembersOf(fs[1..], vs[1..])
  }

  ghost predicate Distinct(fs: seq<Field>) { forall i, j :: 0 <= i < j < |fs| ==> fs[i].name != fs[j].name }

  ghost predicate NoneNamed(fs: seq<Field>, ms: seq<Member>) { forall i :: 0 <= i < |fs| ==> !Named(ms, fs[i].name) }

  lemma StillUnnamed(fs: seq<Field>, acc: seq<Member>, v: Value)
    requires |fs| > 0 && Distinct(fs) && NoneNamed(fs, acc)
    ensures Distinct(fs[1..]) && NoneNamed(fs[1..], acc + [Member(fs[0].name, v)])
  {
  }

  lemma {:induction false} TailParses(fs: seq<Field>, vs: seq<Leaf>, acc: seq<Member>, num: Str -> bool)
    requires |fs| == |vs| && |fs| > 0 && Distinct(fs) && NoneNamed(fs, acc)
    ensures Members(TailTokens(fs, vs)[1..], acc, num) == Fine(Got(acc + MembersOf(fs, vs), []))
    decreases |fs|
  {
    var m, rest := Member(fs[0].name, LeafValue(vs[0])), TailTokens(fs[1..], vs[1..]);
    var ts := TailTokens(fs, vs)[1..];
    assert ts == [StringToken(fs[0].name), MemberAssign, LeafToken(vs[0])] + rest;
    assert ts[2..] == [LeafToken(vs[0])] + rest && ([LeafToken(vs[0])] + rest)[1..] == rest;
    assert Element(ts[2..], num) == Fine(Got(m.value, rest));
    assert !Named(acc, fs[0].name);
    assert acc + [m] + MembersOf(fs[1..], vs[1..]) == acc + MembersOf(fs, vs);
    if |fs| == 1 {
      assert rest == [EndObject] && acc + [m] + [] == acc + [m];
    } else {
      StillUnnamed(fs, acc, m.value);
      TailParses(fs[1..], vs[1..], acc + [m], num);
    }
  }

  lemma OpenScans(x: Str)
    ensures Scanning([123, 10] + x) == Cons(BeginObject, Scanning(x))
  {
    var a := [10] + x;
    var s := [123] + a;
    assert s[1..] == a && s == [123, 10] + x;
    ScansSpace(10, x);
    ScansToken(s, BeginObject, a);
  }

  lemma ObjectScans(fs: seq<Field>) returns (vs: seq<Leaf>)
    requires Proper(fs) && |fs| > 0
    ensures AllKept(fs, vs)
    ensures AllSafe(fs) ==> Scanning(ObjectText(fs)).Fine?
    ensures Scanning(ObjectText(fs)).Fine? ==> Scanning(ObjectText(fs)) == Fine([BeginObject] + TailTokens(fs, vs)[1..])
  {
    vs := TailScans(fs);
    var x := LineThen(fs[0], Tail(fs[1..]));
    OpenScans(x);
    CommaScans(x);
    assert forall y: seq<Token> :: ([NextElement] + y)[1..] == y;
  }

  lemma ObjectParses(fs: seq<Field>, vs: seq<Leaf>, num: Str -> bool)
    requires |fs| == |vs| && |fs| > 0 && Distinct(fs)
    ensures Whole([BeginObject] + TailTokens(fs, vs)[1..], num) == Fine(Object(MembersOf(fs, vs)))
  {
    var rest := TailTokens(fs, vs)[1..];
    TailParses(fs, vs, [], num);
    assert ([BeginObject] + rest)[1..] == rest && rest[0] == StringToken(fs[0].name);
    assert [] + MembersOf(fs, vs) == MembersOf(fs, vs);
  }

  /** The text of an object is read back as an object with the same names, flags and strings, except that a string comes
      back if and only if its backslashes come in pairs; or, if there is one whose backslashes do not, the text may be
      rejected. */
  lemma ObjectIff(fs: seq<Field>, num: Str -> bool) returns (vs: seq<Leaf>)
    requires Proper(fs) && |fs| > 0 && Distinct(fs)
    ensures AllKept(fs, vs)
    ensures AllSafe(fs) ==> ReadText(ObjectText(fs), num).Fine?
    ensures ReadText(ObjectText(fs), num).Fine? ==> ReadText(ObjectText(fs), num).v == Object(MembersOf(fs, vs))
  {
    vs := ObjectScans(fs);
    ScanningIs(ObjectText(fs));
    ObjectParses(fs, vs, num);
  }

  /** Const access to a member: rejected if the value is no object or has no such member. */
  function Find(v: Value, name: Str): Outcome<Value> {
    if !v.Object? then Rejected else FindIn(v.ms, name)
  }

  function FindIn(ms: seq<Member>, name: Str): Outcome<Value> {
    if |ms| == 0 then Rejected else if ms[0].name == name then Fine(ms[0].value) else FindIn(ms[1..], name)
  }

  lemma {:induction false} FindsField(fs: seq<Field>, vs: seq<Leaf>, i: nat)
    requires |fs| == |vs| && i < |fs| && Distinct(fs)
    ensures FindIn(MembersOf(fs, vs), fs[i].name) == Fine(LeafValue(vs[i]))
    decreases i
  {
    var ms := MembersOf(fs, vs);
    if i > 0 {
      assert fs[0].name != fs[i].name && ms[1..] == MembersOf(fs[1..], vs[1..]);
      FindsField(fs[1..], vs[1..], i - 1);
    }
  }

  // ---------- the writer ----------

  method WriteLeaf(l: Leaf) returns (r: Written)
    ensures r == if LeafStays(l) then Written(LeafThen(l, [])) else PastEnd
  {
    match l {
      case Text(s) =>
        r := WriteString(s);
        if Stays(s) { assert [QUOTE] + Closed(Body(s), []) == [QUOTE] + Body(s) + [QUOTE]; }
      case Flag(b) =>
        var w := if b then TRUE else FALSE;
        assert w + [] == w;
        r := Written(w);
    }
  }

  /** A leaf and what follows it. */
  lemma LeafFirst(l: Leaf, rest: Str)
    requires LeafStays(l)
    ensures LeafThen(l, rest) == LeafThen(l, []) + rest
  {
    if l.Text? {
      Associative([QUOTE] + Body(l.s), [QUOTE] + [], rest);
      assert [QUOTE] + Closed(Body(l.s), rest) == ([QUOTE] + Body(l.s)) + (([QUOTE] + []) + rest);
    } else {
      var w := if l.b then TRUE else FALSE;
      assert w + [] == w;
    }
  }

  lemma LineFirst(f: Field, rest: Str)
    requires Stays(f.name) && LeafStays(f.value)
    ensures LineThen(f, rest) == ([9] + ([QUOTE] + Body(f.name) + [QUOTE]) + [32, 58, 32] + LeafThen(f.value, [])) + rest
  {
    LeafFirst(f.value, rest);
  }

  /** The text from field i on. */
  ghost function Remaining(fs: seq<Field>, i: nat): Str
    requires AllStay(fs) && i <= |fs|
  {
    if i == |fs| then [125] else LineThen(fs[i], Tail(fs[i + 1..]))
  }

  function Separator(last: bool): Str { if last then [10] else [44, 10] }

  lemma TailIs(fs: seq<Field>, i: nat)
    requires AllStay(fs) && i <= |fs|
    ensures Tail(fs[i..]) == Separator(i == |fs|) + Remaining(fs, i)
  {
    if i < |fs| { assert fs[i..][0] == fs[i] && fs[i..][1..] == fs[i + 1..]; }
  }

  /** Written so far: the fields before i. */
  ghost predicate WritingObject(fs: seq<Field>, i: nat, out: Str) {
    i <= |fs| && AllStay(fs[..i]) && (AllStay(fs) ==> ObjectText(fs) == out + Remaining(fs, i))
  }

  /** A line as it is written. */
  ghost predicate LineOf(f: Field, line: Str) {
    && Stays(f.name) && LeafStays(f.value)
    && line == [9] + ([QUOTE] + Body(f.name) + [QUOTE]) + [32, 58, 32] + LeafThen(f.value, [])
  }

  lemma RemainingNext(fs: seq<Field>, i: nat, line: Str)
    requires AllStay(fs) && i < |fs| && LineOf(fs[i], line)
    ensures Remaining(fs, i) == line + (Separator(i + 1 == |fs|) + Remaining(fs, i + 1))
  {
    LineFirst(fs[i], Tail(fs[i + 1..]));
    TailIs(fs, i + 1);
  }

  lemma WritingObjectNext(fs: seq<Field>, i: nat, out: Str, line: Str, sep: Str)
    requires WritingObject(fs, i, out) && i < |fs| && LineOf(fs[i], line) && sep == Separator(i + 1 == |fs|)
    ensures WritingObject(fs, i + 1, out + line + sep)
  {
    assert fs[..i + 1] == fs[..i] + [fs[i]];
    if AllStay(fs) {
      RemainingNext(fs, i, line);
      WritingJoin(out, line, sep, Remaining(fs, i + 1));
    }
  }

  lemma WritingJoin(a: Str, b: Str, c: Str, d: Str)
    ensures a + (b + (c + d)) == (a + b + c) + d
  {
  }

  /** Write_i for an object. */
  method WriteObject(fs: seq<Field>) returns (r: Written)
    ensures r == if AllStay(fs) then Written(ObjectText(fs)) else PastEnd
  {
    if |fs| == 0 { return Written([123, 125]); }
    var out: Str := [123, 10];
    var i := 0;
    while i < |fs|
      invariant WritingObject(fs, i, out)
    {
      var name := WriteString(fs[i].name);
      if name.PastEnd? { return PastEnd; }
      var value := WriteLeaf(fs[i].value);
      if value.PastEnd? { return PastEnd; }
      var line := [9] + name.text + [32, 58, 32] + value.text;
      var sep := Separator(i + 1 == |fs|);
      WritingObjectNext(fs, i, out, line, sep);
      i, out := i + 1, out + line + sep;
    }
    assert fs[..i] == fs;
    r := Written(out + [125]);
  }
}
