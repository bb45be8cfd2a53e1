/**
 * What the parser of lib/cajun-2.0.2/json/reader.inl accepts: exactly the token sequences of the grammar of sections 3 to 5
 * of RFC 8259, with member names that differ and numbers that convert, each as the value that it spells.
 */
module JsonGrammar {
  import opened Json
  import opened JsonText

  /** The tokens of a value. */
  function Spell(v: Value): (ts: seq<Token>)
    ensures |ts| > 0 && ts[0] != EndArray && ts[0] != EndObject
    decreases v
  {
    match v
    case Object(ms) => if |ms| == 0 then [BeginObject, EndObject] else [BeginObject] + SpellMembers(ms)
    case Array(vs) => if |vs| == 0 then [BeginArray, EndArray] else [BeginArray] + SpellElements(vs)
    case String(s) => [StringToken(s)]
    case Number(n) => [NumberToken(n)]
    case Boolean(b) => [BooleanToken(b)]
    case Null => [NullToken]
  }

  function SpellMembers(ms: seq<Member>): (ts: seq<Token>)
    requires |ms| > 0
    ensures |ts| > 1 && ts[0] == StringToken(ms[0].name)
    decreases ms
  {
    [StringToken(ms[0].name), MemberAssign] + (Spell(ms[0].value) + if |ms| == 1 then [EndObject] else [NextElement] + SpellMembers(ms[1..]))
  }

  function SpellElements(vs: seq<Value>): (ts: seq<Token>)
    requires |vs| > 0
    ensures |ts| > 0 && ts[0] != EndArray
    decreases vs
  {
    Spell(vs[0]) + if |vs| == 1 then [EndArray] else [NextElement] + SpellElements(vs[1..])
  }

  ghost predicate NamesDiffer(ms: seq<Member>) { forall i, j :: 0 <= i < j < |ms| ==> ms[i].name != ms[j].name }

  /** Names differ within every object, and every number converts. */
  ghost predicate Sound(v: Value, num: Str -> bool)
    decreases v
  {
    match v
    case Object(ms) => NamesDiffer(ms) && forall i :: 0 <= i < |ms| ==> Sound(ms[i].value, num)
    case Array(vs) => forall i :: 0 <= i < |vs| ==> Sound(vs[i], num)
    case Number(n) => num(n)
    case _ => true
  }

  ghost predicate SoundMembers(ms: seq<Member>, num: Str -> bool) { forall i :: 0 <= i < |ms| ==> Sound(ms[i].value, num) }

  // ---------- every sound value is read from its tokens ----------

  lemma {:induction false} SpellParses(v: Value, rest: seq<Token>, num: Str -> bool)
    requires Sound(v, num)
    ensures Element(Spell(v) + rest, num) == Fine(Got(v, rest))
    decreases v
  {
    var ts := Spell(v) + rest;
    match v {
      case Object(ms) =>
        if |ms| == 0 {
          assert ts[1..] == [EndObject] + rest;
        } else {
          OpenMembers(ms, rest);
          MembersParse(ms, [], rest, num);
          OpensObject(SpellMembers(ms) + rest, num);
        }
      case Array(vs) =>
        if |vs| == 0 {
          assert ts[1..] == [EndArray] + rest;
        } else {
          OpenElements(vs, rest);
          ElementsParse(vs, [], rest, num);
          OpensArray(SpellElements(vs) + rest, num);
        }
      case _ => assert ts[1..] == rest;
    }
  }

  lemma {:induction false} MembersParse(ms: seq<Member>, acc: seq<Member>, rest: seq<Token>, num: Str -> bool)
    requires |ms| > 0 && SoundMembers(ms, num) && NamesDiffer(acc + ms)
    ensures Members(SpellMembers(ms) + rest, acc, num) == Fine(Got(acc + ms, rest))
    decreases ms
  {
    SpellParses(ms[0].value, AfterFirst(ms, rest), num);
    NewName(acc, ms);
    MembersTurn(ms, acc, rest, num);
    if |ms| > 1 { MembersParse(ms[1..], acc + [ms[0]], rest, num); }
  }

  function AfterFirst(ms: seq<Member>, rest: seq<Token>): (ts: seq<Token>)
    requires |ms| > 0
    ensures |ts| > 0
  {
    if |ms| == 1 then [EndObject] + rest else [NextElement] + (SpellMembers(ms[1..]) + rest)
  }

  /** One turn of the loop over the members. */
  lemma {:induction false} MembersTurn(ms: seq<Member>, acc: seq<Member>, rest: seq<Token>, num: Str -> bool)
    requires |ms| > 0 && !Named(acc, ms[0].name)
    requires Element(Spell(ms[0].value) + AfterFirst(ms, rest), num) == Fine(Got(ms[0].value, AfterFirst(ms, rest)))
    ensures Members(SpellMembers(ms) + rest, acc, num) ==
      if |ms| == 1 then Fine(Got(acc + ms, rest)) else Members(SpellMembers(ms[1..]) + rest, acc + [ms[0]], num)
  {
    var tail := AfterFirst(ms, rest);
    AppendMembers(ms, rest);
    OneMember(ms[0], Spell(ms[0].value) + tail, acc, num, tail);
    if |ms| == 1 {
      assert tail[1..] == rest && acc + ms == acc + [ms[0]];
    } else {
      assert tail[1..] == SpellMembers(ms[1..]) + rest;
    }
  }

  lemma {:induction false} OneMember(m: Member, body: seq<Token>, acc: seq<Member>, num: Str -> bool, tail: seq<Token>)
    requires Element(body, num) == Fine(Got(m.value, tail)) && |tail| > 0 && !Named(acc, m.name)
    ensures Members([StringToken(m.name), MemberAssign] + body, acc, num) ==
      if tail[0] == NextElement then Members(tail[1..], acc + [m], num) else Ended(acc + [m], tail, EndObject)
  {
    assert ([StringToken(m.name), MemberAssign] + body)[2..] == body;
  }

  lemma {:induction false} NewName(acc: seq<Member>, ms: seq<Member>)
    requires |ms| > 0 && NamesDiffer(acc + ms)
    ensures !Named(acc, ms[0].name) && acc + [ms[0]] + ms[1..] == acc + ms
  {
    var all := acc + ms;
    assert all[|acc|] == ms[0];
    forall i | 0 <= i < |acc| ensures acc[i].name != ms[0].name { assert all[i] == acc[i]; }
  }

  lemma {:induction false} ElementsParse(vs: seq<Value>, acc: seq<Value>, rest: seq<Token>, num: Str -> bool)
    requires |vs| > 0 && forall i :: 0 <= i < |vs| ==> Sound(vs[i], num)
    ensures Elements(SpellElements(vs) + rest, acc, num) == Fine(Got(acc + vs, rest))
    decreases vs
  {
    var tail := if |vs| == 1 then [EndArray] + rest else [NextElement] + (SpellElements(vs[1..]) + rest);
    AppendElements(vs, rest);
    SpellParses(vs[0], tail, num);
    OneElement(vs[0], Spell(vs[0]) + tail, acc, num, tail);
    if |vs| == 1 {
      assert tail[1..] == rest && acc + vs == acc + [vs[0]];
    } else {
      assert tail[1..] == SpellElements(vs[1..]) + rest;
      assert acc + [vs[0]] + vs[1..] == acc + vs;
      ElementsParse(vs[1..], acc + [vs[0]], rest, num);
    }
  }

  lemma {:induction false} OneElement(v: Value, body: seq<Token>, acc: seq<Value>, num: Str -> bool, tail: seq<Token>)
    requires Element(body, num) == Fine(Got(v, tail)) && |tail| > 0
    ensures Elements(body, acc, num) == if tail[0] == NextElement then Elements(tail[1..], acc + [v], num) else Ended(acc + [v], tail, EndArray)
  {
  }

  // ---------- whatever is read was spelled by the tokens ----------

  lemma {:induction false} ParsedIsSpelled(ts: seq<Token>, num: Str -> bool)
    requires Element(ts, num).Fine?
    ensures var g := Element(ts, num).v; Sound(g.v, num) && ts == Spell(g.v) + g.rest
    decreases |ts|, 0
  {
    var g, rest := Element(ts, num).v, ts[1..];
    assert ts == [ts[0]] + rest;
    if ts[0] == BeginObject {
      if rest[0] == EndObject {
        assert rest == [EndObject] + g.rest;
      } else {
        var ms := ParsedMembers(rest, [], num);
        OpenMembers(ms, g.rest);
      }
    } else if ts[0] == BeginArray {
      if rest[0] == EndArray {
        assert rest == [EndArray] + g.rest;
      } else {
        var vs := ParsedElements(rest, [], num);
        OpenElements(vs, g.rest);
      }
    }
  }

  lemma {:induction false} OpensObject(ts: seq<Token>, num: Str -> bool)
    requires |ts| > 0 && ts[0] != EndObject && Members(ts, [], num).Fine?
    ensures var g := Members(ts, [], num).v; Element([BeginObject] + ts, num) == Fine(Got(Object(g.v), g.rest))
  {
    assert ([BeginObject] + ts)[1..] == ts;
  }

  lemma {:induction false} OpensArray(ts: seq<Token>, num: Str -> bool)
    requires |ts| > 0 && ts[0] != EndArray && Elements(ts, [], num).Fine?
    ensures var g := Elements(ts, [], num).v; Element([BeginArray] + ts, num) == Fine(Got(Array(g.v), g.rest))
  {
    assert ([BeginArray] + ts)[1..] == ts;
  }

  lemma {:induction false} OpenMembers(ms: seq<Member>, rest: seq<Token>)
    requires |ms| > 0
    ensures [] + ms == ms && [BeginObject] + (SpellMembers(ms) + rest) == Spell(Object(ms)) + rest
  {
  }

  lemma {:induction false} OpenElements(vs: seq<Value>, rest: seq<Token>)
    requires |vs| > 0
    ensures [] + vs == vs && [BeginArray] + (SpellElements(vs) + rest) == Spell(Array(vs)) + rest
  {
  }

  lemma {:induction false} ParsedMembers(ts: seq<Token>, acc: seq<Member>, num: Str -> bool) returns (ms: seq<Member>)
    requires Members(ts, acc, num).Fine? && NamesDiffer(acc)
    ensures |ms| > 0 && SoundMembers(ms, num) && NamesDiffer(acc + ms)
    ensures var g := Members(ts, acc, num).v; g.v == acc + ms && ts == SpellMembers(ms) + g.rest
    decreases |ts|, 0
  {
    var e, g := Element(ts[2..], num).v, Members(ts, acc, num).v;
    var m := Member(ts[0].v, e.v);
    ParsedIsSpelled(ts[2..], num);
    StillDiffer(acc, m);
    if e.rest[0] == NextElement {
      var more := ParsedMembers(e.rest[1..], acc + [m], num);
      PutFirst(m, more, acc, num);
      ms := [m] + more;
      FirstSpelled(ts, ms, e.rest, g.rest);
    } else {
      ms := [m];
      FirstSpelled(ts, ms, e.rest, g.rest);
    }
  }

  lemma {:induction false} FirstSpelled(ts: seq<Token>, ms: seq<Member>, tail: seq<Token>, rest: seq<Token>)
    requires |ts| > 1 && |ms| > 0 && ts[0] == StringToken(ms[0].name) && ts[1] == MemberAssign && ts[2..] == Spell(ms[0].value) + tail
    requires |tail| > 0 && if |ms| == 1 then tail[0] == EndObject && tail[1..] == rest else tail[0] == NextElement && tail[1..] == SpellMembers(ms[1..]) + rest
    ensures ts == SpellMembers(ms) + rest
  {
    assert ts == [ts[0], ts[1]] + ts[2..] && tail == [tail[0]] + tail[1..];
    AppendMembers(ms, rest);
  }

  lemma {:induction false} PutFirst(m: Member, more: seq<Member>, acc: seq<Member>, num: Str -> bool)
    requires Sound(m.value, num) && SoundMembers(more, num)
    ensures var ms := [m] + more; SoundMembers(ms, num) && ms[1..] == more && acc + [m] + more == acc + ms
  {
    var ms := [m] + more;
    assert forall i :: 0 < i < |ms| ==> ms[i] == more[i - 1];
  }

  lemma {:induction false} StillDiffer(acc: seq<Member>, m: Member)
    requires NamesDiffer(acc) && !Named(acc, m.name)
    ensures NamesDiffer(acc + [m])
  {
  }

  lemma {:induction false} AppendMembers(ms: seq<Member>, rest: seq<Token>)
    requires |ms| > 0
    ensures SpellMembers(ms) + rest == [StringToken(ms[0].name), MemberAssign]
      + (Spell(ms[0].value) + if |ms| == 1 then [EndObject] + rest else [NextElement] + (SpellMembers(ms[1..]) + rest))
  {
  }

  lemma {:induction false} ParsedElements(ts: seq<Token>, acc: seq<Value>, num: Str -> bool) returns (vs: seq<Value>)
    requires Elements(ts, acc, num).Fine?
    ensures |vs| > 0 && forall i :: 0 <= i < |vs| ==> Sound(vs[i], num)
    ensures var g := Elements(ts, acc, num).v; g.v == acc + vs && ts == SpellElements(vs) + g.rest
    decreases |ts|, 1
  {
    var e, g := Element(ts, num).v, Elements(ts, acc, num).v;
    ParsedIsSpelled(ts, num);
    if e.rest[0] == NextElement {
      var more := ParsedElements(e.rest[1..], acc + [e.v], num);
      vs := [e.v] + more;
      assert e.rest == [NextElement] + (SpellElements(more) + g.rest);
      PutFirstValue(e.v, more, acc, num);
      AppendElements(vs, g.rest);
    } else {
      vs := [e.v];
      assert e.rest == [EndArray] + g.rest;
      AppendElements(vs, g.rest);
    }
  }

  lemma {:induction false} PutFirstValue(v: Value, more: seq<Value>, acc: seq<Value>, num: Str -> bool)
    requires Sound(v, num) && forall i :: 0 <= i < |more| ==> Sound(more[i], num)
    ensures var vs := [v] + more; (forall i :: 0 <= i < |vs| ==> Sound(vs[i], num)) && vs[1..] == more && acc + [v] + more == acc + vs
  {
    var vs := [v] + more;
    assert forall i :: 0 < i < |vs| ==> vs[i] == more[i - 1];
  }

  lemma {:induction false} AppendElements(vs: seq<Value>, rest: seq<Token>)
    requires |vs| > 0
    ensures SpellElements(vs) + rest == Spell(vs[0]) + if |vs| == 1 then [EndArray] + rest else [NextElement] + (SpellElements(vs[1..]) + rest)
  {
  }

  /** The parser accepts exactly the tokens of a sound value, and gives that value. */
  lemma {:induction false} GrammarIff(ts: seq<Token>, v: Value, num: Str -> bool)
    ensures Whole(ts, num) == Fine(v) <==> Sound(v, num) && ts == Spell(v)
  {
    if Sound(v, num) && ts == Spell(v) {
      SpellParses(v, [], num);
      assert Spell(v) + [] == ts;
    }
    if Whole(ts, num) == Fine(v) {
      ParsedIsSpelled(ts, num);
      assert Spell(v) + [] == Spell(v);
    }
  }
}
