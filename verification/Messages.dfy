/**
 * Private messages (src/client.cpp): what one client writes as JSON and another reads.
 */
module Messages {
  import opened Pairing
  import opened ScalarMul
  import opened Ghash
  import Gcm
  import opened MPin
  import opened Sok
  import Json
  import JsonText

  type Str = Json.Str

  // ---------- octets and bytes ----------

  function EIGHT(): nat { 8 }

  lemma TwoEight()
    ensures Two(EIGHT()) == 256
  {
    assert Two(4) == 16 && Two(5) == 32 && Two(6) == 64 && Two(7) == 128;
  }

  function OctetOf(b: Byte): Json.Octet {
    BitsNatBound(b);
    TwoEight();
    BitsNat(b)
  }

  function ByteFrom(o: Json.Octet): Byte { NatBits(o, EIGHT()) }

  lemma ByteBack(b: Byte)
    ensures ByteFrom(OctetOf(b)) == b
  {
    BitsNatBits(b);
  }

  lemma OctetBack(o: Json.Octet)
    ensures OctetOf(ByteFrom(o)) == o
  {
    TwoEight();
    NatBitsBack(o, EIGHT());
  }

  function Octets(t: Text): Str { seq(|t|, i requires 0 <= i < |t| => OctetOf(t[i])) }

  function Bytes(s: Str): Text { seq(|s|, i requires 0 <= i < |s| => ByteFrom(s[i])) }

  lemma BytesOctets(t: Text)
    ensures Bytes(Octets(t)) == t
  {
    forall i | 0 <= i < |t| ensures ByteFrom(OctetOf(t[i])) == t[i] { ByteBack(t[i]); }
  }

  lemma OctetsBytes(s: Str)
    ensures Octets(Bytes(s)) == s
  {
    forall i | 0 <= i < |s| ensures OctetOf(ByteFrom(s[i])) == s[i] { OctetBack(s[i]); }
  }

  /** A string of hexadecimal digits as octets, and back. */
  function Ascii(h: string): Str { seq(|h|, i requires 0 <= i < |h| => if h[i] as int < 256 then h[i] as int else 0) }

  function Chars(s: Str): string { seq(|s|, i requires 0 <= i < |s| => s[i] as char) }

  ghost predicate Plain(h: string) { forall i :: 0 <= i < |h| ==> h[i] as int < 256 && Json.Escaped(h[i] as int) == [h[i] as int] }

  lemma PlainAscii(h: string)
    requires Plain(h)
    ensures Chars(Ascii(h)) == h && Json.Paired(Ascii(h)) && Json.Stays(Ascii(h))
  {
    var a := Ascii(h);
    forall i | 0 <= i < |a| ensures Json.Escaped(a[i]) == [a[i]] { assert a[i] == h[i] as int; }
    JsonText.PlainBody(a);
  }

  lemma PlainChar(n: nat)
    requires n < 16
    ensures HexChar(n) as int < 256 && Json.Escaped(HexChar(n) as int) == [HexChar(n) as int]
  {
  }

  lemma {:induction false} HexPlain(t: Text)
    ensures Plain(Hex(t))
    decreases |t|
  {
    if |t| > 0 {
      var b := t[|t| - 1];
      HexPlain(t[..|t| - 1]);
      PlainChar(Nibble(b[..4]));
      PlainChar(Nibble(b[4..]));
    }
  }

  // ---------- the JSON object ----------

  const FROM: Str := [102, 114, 111, 109]
  const ENCRYPTED: Str := [101, 110, 99, 114, 121, 112, 116, 101, 100]
  const IV: Str := [105, 118]
  const CIPHERTEXT: Str := [99, 105, 112, 104, 101, 114, 116, 101, 120, 116]
  const TAG: Str := [116, 97, 103]
  const DATA: Str := [100, 97, 116, 97]

  /** What a client does with a message: it is done; the crypto or the JSON error that the client reports; an exception of
      the UTF-8 library, which it does not catch; or no defined behaviour. */
  datatype Reply<T> = Done(v: T) | BadCrypto | BadJson | Uncaught | Undefined

  function PlainFields(userId: Text, payload: Text): seq<JsonText.Field> {
    [JsonText.Field(FROM, JsonText.Text(Octets(userId))), JsonText.Field(ENCRYPTED, JsonText.Flag(false)),
     JsonText.Field(DATA, JsonText.Text(Octets(payload)))]
  }

  function SealedFields(userId: Text, iv: string, ciphertext: string, tag: string): seq<JsonText.Field> {
    [JsonText.Field(FROM, JsonText.Text(Octets(userId))), JsonText.Field(ENCRYPTED, JsonText.Flag(true)),
     JsonText.Field(IV, JsonText.Text(Ascii(iv))), JsonText.Field(CIPHERTEXT, JsonText.Text(Ascii(ciphertext))),
     JsonText.Field(TAG, JsonText.Text(Ascii(tag)))]
  }

  /** json::ToString */
  ghost function TextOf(fs: seq<JsonText.Field>): Reply<Str> {
    if JsonText.AllStay(fs) then Done(JsonText.ObjectText(fs)) else Undefined
  }

  /** SerializePrivateMessage */
  method Serialize<A, B, T, K>(w: World<A, B, T, K>, userId: Text, sendKey: KeyString<A>, idTo: Text, payload: Text, encrypt: bool, iv: Text)
    returns (r: Reply<Str>)
    ensures !encrypt ==> r == TextOf(PlainFields(userId, payload))
    ensures encrypt && (sendKey.size != 65 || sendKey.content.Blank?) ==> r == BadCrypto
    ensures encrypt && sendKey.size == 65 && sendKey.content.Point? ==>
      var e := CipherOf(w, w.p.e(w.idG2(idTo), sendKey.content.p));
      var c := Gcm.Encrypt(e, iv, payload);
      r == TextOf(SealedFields(userId, Hex(iv), Hex(c), Hex(Gcm.Tag(e, iv, userId, c))))
  {
    var fs := PlainFields(userId, payload);
    if encrypt {
      var sok := SokEncrypt(w, payload, sendKey, userId, idTo, iv);
      if !sok.Ok? { return BadCrypto; }
      var i := HexEncode(sok.value.iv);
      var c := HexEncode(sok.value.ciphertext);
      var t := HexEncode(sok.value.tag);
      fs := SealedFields(userId, i, c, t);
    }
    var text := JsonText.WriteObject(fs);
    r := if text.Written? then Done(text.text) else Undefined;
  }

  // ---------- reading it ----------

  /** A member that is missing, or not of the type asked for, is an error when it is used. */
  datatype Field<V> = Missing | Has(v: V)

  datatype Message = Message(from: Text, encrypted: bool, iv: Field<string>, ciphertext: Field<string>, tag: Field<string>, data: Field<Text>)

  function StringAt(v: JsonText.Value, name: Str): Field<Str> {
    var m := JsonText.Find(v, name);
    if m.Fine? && m.v.String? then Has(m.v.s) else Missing
  }

  function CharsAt(v: JsonText.Value, name: Str): Field<string> {
    var m := StringAt(v, name);
    if m.Has? then Has(Chars(m.v)) else Missing
  }

  function MessageOf(v: JsonText.Value): Reply<Message> {
    var from, encrypted, data := StringAt(v, FROM), JsonText.Find(v, ENCRYPTED), StringAt(v, DATA);
    if from.Missing? || !encrypted.Fine? || !encrypted.v.Boolean? then BadJson
    else Done(Message(Bytes(from.v), encrypted.v.b, CharsAt(v, IV), CharsAt(v, CIPHERTEXT), CharsAt(v, TAG),
                      if data.Has? then Has(Bytes(data.v)) else Missing))
  }

  /** What HexDecode returns. */
  ghost function Decoded(s: string): Text { if |s| % 2 == 0 && HexDigits(s) then Unhex(s) else [] }

  /** The sender and the payload: an encrypted one is decrypted, and only then is an empty part rejected. */
  ghost function Unpacked<A, B, T, K>(w: World<A, B, T, K>, recvKey: KeyString<B>, m: Message): Reply<(Text, Text)> {
    if !m.encrypted then if m.data.Has? then Done((m.from, m.data.v)) else BadJson
    else if m.iv.Missing? || m.ciphertext.Missing? || m.tag.Missing? then BadJson
    else if recvKey.size != 128 || recvKey.content.Blank? then BadCrypto
    else
      var e := CipherOf(w, w.p.e(recvKey.content.p, w.idG1(m.from)));
      var d := SokData(Decoded(m.iv.v), Decoded(m.ciphertext.v), Decoded(m.tag.v));
      if d.tag != Gcm.Tag(e, d.iv, m.from, d.ciphertext) then BadCrypto
      else if d.iv == [] || d.ciphertext == [] || d.tag == [] then BadJson
      else Done((m.from, Gcm.Encrypt(e, d.iv, d.ciphertext)))
  }

  method Unpack<A, B, T, K>(w: World<A, B, T, K>, recvKey: KeyString<B>, m: Message) returns (r: Reply<(Text, Text)>)
    ensures r == Unpacked(w, recvKey, m)
  {
    if m.encrypted {
      if m.iv.Missing? || m.ciphertext.Missing? || m.tag.Missing? { return BadJson; }
      var iv := HexDecode(m.iv.v);
      var c := HexDecode(m.ciphertext.v);
      var t := HexDecode(m.tag.v);
      var payload := SokDecrypt(w, SokData(iv, c, t), recvKey, m.from);
      if !payload.Ok? { return BadCrypto; }
      if iv == [] || c == [] || t == [] { return BadJson; }
      r := Done((m.from, payload.value));
    } else {
      if m.data.Missing? { return BadJson; }
      r := Done((m.from, m.data.v));
    }
  }

  /** What a text is to its receiver. */
  ghost function Received<A, B, T, K>(w: World<A, B, T, K>, recvKey: KeyString<B>, text: Str, num: Str -> bool): Reply<(Text, Text)> {
    match JsonText.ReadText(text, num)
    case Fine(v) => var m := MessageOf(v); if m.Done? then Unpacked(w, recvKey, m.v) else BadJson
    case Rejected => BadJson
    case Escapes => Uncaught
    case Undefined => Undefined
  }

  /** The constructor of PrivateMessage. */
  method Parse<A, B, T, K>(w: World<A, B, T, K>, recvKey: KeyString<B>, text: Str, num: Str -> bool) returns (r: Reply<(Text, Text)>)
    ensures r == Received(w, recvKey, text, num)
  {
    var v := JsonText.ParseText(text, num);
    match v {
      case Fine(v) =>
        var m := MessageOf(v);
        if !m.Done? { return BadJson; }
        r := Unpack(w, recvKey, m.v);
      case Rejected => r := BadJson;
      case Escapes => r := Uncaught;
      case Undefined => r := Undefined;
    }
  }

  // ---------- what arrives ----------

  /** An id or a payload that JSON carries: every run of backslashes has even length. */
  predicate Carried(t: Text) { Json.Paired(Octets(t)) }

  lemma LettersBarred(name: Str)
    requires |name| >= 2 && (forall i :: 0 <= i < |name| ==> 97 <= name[i] <= 122)
    requires (name[0] == 116 ==> name[1] != 114) && (name[0] == 102 ==> name[1] != 97) && (name[0] == 110 ==> name[1] != 117)
    ensures JsonText.Barred(name)
  {
    forall i | 0 <= i < |name| ensures Json.Escaped(name[i]) == [name[i]] {
      assert 97 <= name[i] <= 122;
    }
  }

  lemma NamesBarred()
    ensures JsonText.Barred(FROM) && JsonText.Barred(ENCRYPTED) && JsonText.Barred(IV) && JsonText.Barred(CIPHERTEXT)
    ensures JsonText.Barred(TAG) && JsonText.Barred(DATA)
  {
    LettersBarred(FROM);
    LettersBarred(ENCRYPTED);
    LettersBarred(IV);
    LettersBarred(CIPHERTEXT);
    LettersBarred(TAG);
    LettersBarred(DATA);
  }

  lemma NamesDistinct()
    ensures FROM != ENCRYPTED && FROM != IV && FROM != CIPHERTEXT && FROM != TAG && FROM != DATA && ENCRYPTED != IV
    ensures ENCRYPTED != CIPHERTEXT && ENCRYPTED != TAG && ENCRYPTED != DATA && IV != CIPHERTEXT && IV != TAG && CIPHERTEXT != TAG
  {
    assert |FROM| == 4 && |ENCRYPTED| == 9 && |IV| == 2 && |CIPHERTEXT| == 10 && |TAG| == 3 && |DATA| == 4;
    assert FROM[0] != DATA[0];
  }

  ghost predicate FieldStays(f: JsonText.Field) { Json.Stays(f.name) && JsonText.LeafStays(f.value) }

  /** The conditions on fields, one by one. */
  lemma ThreeFields(a: JsonText.Field, b: JsonText.Field, c: JsonText.Field)
    ensures JsonText.AllStay([a, b, c]) <==> FieldStays(a) && FieldStays(b) && FieldStays(c)
    ensures JsonText.AllSafe([a, b, c]) <==> JsonText.Safe(a.value) && JsonText.Safe(b.value) && JsonText.Safe(c.value)
    ensures a.name != b.name && a.name != c.name && b.name != c.name ==> JsonText.Distinct([a, b, c])
    ensures JsonText.AllStay([a, b, c]) && JsonText.Barred(a.name) && JsonText.Barred(b.name) && JsonText.Barred(c.name) ==> JsonText.Proper([a, b, c])
  {
    var fs := [a, b, c];
    assert fs[0] == a && fs[1] == b && fs[2] == c;
  }

  lemma FiveFields(a: JsonText.Field, b: JsonText.Field, c: JsonText.Field, d: JsonText.Field, e: JsonText.Field)
    ensures JsonText.AllStay([a, b, c, d, e]) <==> FieldStays(a) && FieldStays(b) && FieldStays(c) && FieldStays(d) && FieldStays(e)
    ensures JsonText.AllSafe([a, b, c, d, e]) <==>
      JsonText.Safe(a.value) && JsonText.Safe(b.value) && JsonText.Safe(c.value) && JsonText.Safe(d.value) && JsonText.Safe(e.value)
    ensures JsonText.AllStay([a, b, c, d, e]) && JsonText.Barred(a.name) && JsonText.Barred(b.name) && JsonText.Barred(c.name) ==>
      JsonText.Barred(d.name) && JsonText.Barred(e.name) ==> JsonText.Proper([a, b, c, d, e])
  {
    var fs := [a, b, c, d, e];
    assert fs[0] == a && fs[1] == b && fs[2] == c && fs[3] == d && fs[4] == e;
  }

  lemma FiveDistinct(a: JsonText.Field, b: JsonText.Field, c: JsonText.Field, d: JsonText.Field, e: JsonText.Field)
    requires a.name != b.name && a.name != c.name && a.name != d.name && a.name != e.name && b.name != c.name
    requires b.name != d.name && b.name != e.name && c.name != d.name && c.name != e.name && d.name != e.name
    ensures JsonText.Distinct([a, b, c, d, e])
  {
  }

  /** An altered string is altered as bytes too. */
  lemma AlteredBytes(t: Text, s: Str)
    ensures Bytes(s) == t <==> s == Octets(t)
  {
    BytesOctets(t);
    OctetsBytes(s);
  }

  /** How a text is read as a message: not at all, or as m. */
  ghost predicate ReadAs(text: Str, num: Str -> bool, m: Message) {
    var r := JsonText.ReadText(text, num);
    r.Fine? ==> MessageOf(r.v) == Done(m)
  }

  ghost predicate Readable(text: Str, num: Str -> bool) { JsonText.ReadText(text, num).Fine? }

  lemma ReceivedAs<A, B, T, K>(w: World<A, B, T, K>, recvKey: KeyString<B>, text: Str, num: Str -> bool, m: Message)
    requires ReadAs(text, num, m)
    ensures Readable(text, num) ==> Received(w, recvKey, text, num) == Unpacked(w, recvKey, m)
    ensures !Readable(text, num) ==> !Received(w, recvKey, text, num).Done?
  {
  }

  lemma PlainProper(userId: Text, payload: Text)
    ensures var fs := PlainFields(userId, payload);
      && (JsonText.AllStay(fs) ==> JsonText.Proper(fs)) && JsonText.Distinct(fs)
      && (JsonText.AllStay(fs) <==> Json.Stays(Octets(userId)) && Json.Stays(Octets(payload)))
      && (JsonText.AllSafe(fs) <==> Carried(userId) && Carried(payload))
  {
    var fs := PlainFields(userId, payload);
    NamesBarred();
    NamesStay();
    NamesDistinct();
    ThreeFields(fs[0], fs[1], fs[2]);
    assert fs == [fs[0], fs[1], fs[2]];
  }

  /** A plain message, read back. */
  lemma PlainRead(userId: Text, payload: Text, fs: seq<JsonText.Field>, num: Str -> bool) returns (m: Message)
    requires fs == PlainFields(userId, payload) && JsonText.AllStay(fs)
    ensures var text := JsonText.ObjectText(fs); ReadAs(text, num, m) && (Carried(userId) && Carried(payload) ==> Readable(text, num))
    ensures !m.encrypted && m.data.Has? && (m.from == userId <==> Carried(userId)) && (m.data.v == payload <==> Carried(payload))
  {
    PlainProper(userId, payload);
    var vs := JsonText.ObjectIff(fs, num);
    assert JsonText.Kept(fs[0].value, vs[0]) && JsonText.Kept(fs[1].value, vs[1]) && JsonText.Kept(fs[2].value, vs[2]);
    m := PlainMessage(fs, vs);
    AlteredBytes(userId, vs[0].s);
    AlteredBytes(payload, vs[2].s);
  }

  /** A plain message arrives intact if and only if JSON carries both the id and the payload. */
  lemma PlainArrives<A, B, T, K>(w: World<A, B, T, K>, recvKey: KeyString<B>, userId: Text, payload: Text, text: Str, num: Str -> bool)
    requires TextOf(PlainFields(userId, payload)) == Done(text)
    ensures Received(w, recvKey, text, num) == Done((userId, payload)) <==> Carried(userId) && Carried(payload)
  {
    var m := PlainRead(userId, payload, PlainFields(userId, payload), num);
    ReceivedAs(w, recvKey, text, num, m);
  }

  lemma PlainMessage(fs: seq<JsonText.Field>, vs: seq<JsonText.Leaf>) returns (m: Message)
    requires |fs| == |vs| == 3 && JsonText.Distinct(fs) && fs[0].name == FROM && fs[1].name == ENCRYPTED && fs[2].name == DATA
    requires vs[0].Text? && vs[1] == JsonText.Flag(false) && vs[2].Text?
    ensures MessageOf(JsonText.Object(JsonText.MembersOf(fs, vs))) == Done(m)
    ensures m.from == Bytes(vs[0].s) && !m.encrypted && m.data == Has(Bytes(vs[2].s))
  {
    JsonText.FindsField(fs, vs, 0);
    JsonText.FindsField(fs, vs, 1);
    JsonText.FindsField(fs, vs, 2);
    m := MessageOf(JsonText.Object(JsonText.MembersOf(fs, vs))).v;
  }

  /** A backslash and a b are written as a b alone, so that is what arrives. */
  lemma BackslashLost<A, B, T, K>(w: World<A, B, T, K>, recvKey: KeyString<B>, userId: Text, num: Str -> bool)
    requires Carried(userId)
    ensures var sent, got := Bytes([Json.BACK, 98]), Bytes([98]);
      && TextOf(PlainFields(userId, sent)) == TextOf(PlainFields(userId, got))
      && TextOf(PlainFields(userId, got)).Done?
      && Received(w, recvKey, TextOf(PlainFields(userId, sent)).v, num) == Done((userId, got))
  {
    var s: Str, g: Str := [Json.BACK, 98], [98];
    OctetsBytes(s);
    OctetsBytes(g);
    Json.LostBackslash([]);
    JsonText.PlainBody(g);
    Json.PairedStays(Octets(userId));
    PlainProper(userId, Bytes(s));
    PlainProper(userId, Bytes(g));
    SameText(userId, Bytes(s), Bytes(g));
    PlainArrives(w, recvKey, userId, Bytes(g), TextOf(PlainFields(userId, Bytes(g))).v, num);
  }

  lemma SameText(userId: Text, p: Text, q: Text)
    requires JsonText.AllStay(PlainFields(userId, p)) && JsonText.AllStay(PlainFields(userId, q))
    requires Json.Stays(Octets(p)) && Json.Stays(Octets(q)) && Json.Body(Octets(p)) == Json.Body(Octets(q))
    ensures JsonText.ObjectText(PlainFields(userId, p)) == JsonText.ObjectText(PlainFields(userId, q))
  {
    var a, b := PlainFields(userId, p), PlainFields(userId, q);
    assert a[1..][1..] == [a[2]] && b[1..][1..] == [b[2]];
    assert a[1..][0] == b[1..][0] && a[0] == b[0];
    LastTail(a[2], b[2]);
    NextTail(a[1..], b[1..]);
  }

  lemma LastTail(a: JsonText.Field, b: JsonText.Field)
    requires FieldStays(a) && FieldStays(b) && a.name == b.name && a.value.Text? && b.value.Text? && Json.Body(a.value.s) == Json.Body(b.value.s)
    ensures JsonText.Tail([a]) == JsonText.Tail([b])
  {
    assert [a][1..] == [] && [b][1..] == [];
  }

  lemma NextTail(a: seq<JsonText.Field>, b: seq<JsonText.Field>)
    requires |a| == |b| > 0 && JsonText.AllStay(a) && JsonText.AllStay(b) && a[0] == b[0]
    requires JsonText.Tail(a[1..]) == JsonText.Tail(b[1..])
    ensures JsonText.Tail(a) == JsonText.Tail(b)
  {
  }

  // ---------- the same, encrypted ----------

  lemma SealedProper(userId: Text, iv: string, ciphertext: string, tag: string)
    requires Plain(iv) && Plain(ciphertext) && Plain(tag)
    ensures var fs := SealedFields(userId, iv, ciphertext, tag);
      && (JsonText.AllStay(fs) ==> JsonText.Proper(fs)) && JsonText.Distinct(fs)
      && (JsonText.AllStay(fs) <==> Json.Stays(Octets(userId))) && (JsonText.AllSafe(fs) <==> Carried(userId))
  {
    var fs := SealedFields(userId, iv, ciphertext, tag);
    NamesBarred();
    NamesStay();
    NamesDistinct();
    PlainAscii(iv);
    PlainAscii(ciphertext);
    PlainAscii(tag);
    FiveFields(fs[0], fs[1], fs[2], fs[3], fs[4]);
    FiveDistinct(fs[0], fs[1], fs[2], fs[3], fs[4]);
    assert fs == [fs[0], fs[1], fs[2], fs[3], fs[4]];
  }

  lemma SealedMessage(fs: seq<JsonText.Field>, vs: seq<JsonText.Leaf>) returns (m: Message)
    requires |fs| == |vs| == 5 && JsonText.Distinct(fs) && fs[0].name == FROM && fs[1].name == ENCRYPTED
    requires fs[2].name == IV && fs[3].name == CIPHERTEXT && fs[4].name == TAG
    requires vs[0].Text? && vs[1] == JsonText.Flag(true) && vs[2].Text? && vs[3].Text? && vs[4].Text?
    ensures MessageOf(JsonText.Object(JsonText.MembersOf(fs, vs))) == Done(m) && m.from == Bytes(vs[0].s) && m.encrypted
    ensures m.iv == Has(Chars(vs[2].s)) && m.ciphertext == Has(Chars(vs[3].s)) && m.tag == Has(Chars(vs[4].s))
  {
    JsonText.FindsField(fs, vs, 0);
    JsonText.FindsField(fs, vs, 1);
    JsonText.FindsField(fs, vs, 2);
    JsonText.FindsField(fs, vs, 3);
    JsonText.FindsField(fs, vs, 4);
    m := MessageOf(JsonText.Object(JsonText.MembersOf(fs, vs))).v;
  }

  /** An encrypted message, read back: only the id can be altered. */
  lemma SealedRead(userId: Text, iv: string, ciphertext: string, tag: string, fs: seq<JsonText.Field>, num: Str -> bool) returns (m: Message)
    requires fs == SealedFields(userId, iv, ciphertext, tag) && JsonText.AllStay(fs) && Plain(iv) && Plain(ciphertext) && Plain(tag)
    ensures var text := JsonText.ObjectText(fs); ReadAs(text, num, m) && (Carried(userId) ==> Readable(text, num))
    ensures m.encrypted && m.iv == Has(iv) && m.ciphertext == Has(ciphertext) && m.tag == Has(tag) && (m.from == userId <==> Carried(userId))
  {
    SealedProper(userId, iv, ciphertext, tag);
    PlainAscii(iv);
    PlainAscii(ciphertext);
    PlainAscii(tag);
    var vs := JsonText.ObjectIff(fs, num);
    assert JsonText.Kept(fs[0].value, vs[0]) && JsonText.Kept(fs[1].value, vs[1]) && JsonText.Kept(fs[2].value, vs[2]);
    assert JsonText.Kept(fs[3].value, vs[3]) && JsonText.Kept(fs[4].value, vs[4]);
    m := SealedMessage(fs, vs);
    AlteredBytes(userId, vs[0].s);
  }

  lemma DecodedHex(s: Text)
    ensures Decoded(Hex(s)) == s
  {
    UnhexHex(s);
  }

  /** A sealed message under a key that pairs to the same value: the payload comes back unless it is empty. */
  lemma SealedUnpacked<A, B, T, K>(w: World<A, B, T, K>, b: B, m: Message, e: Block -> Block, iv: Text, payload: Text)
    requires |iv| == 12 && m.encrypted && e == CipherOf(w, w.p.e(b, w.idG1(m.from)))
    requires var c := Gcm.Encrypt(e, iv, payload);
      m.iv == Has(Hex(iv)) && m.ciphertext == Has(Hex(c)) && m.tag == Has(Hex(Gcm.Tag(e, iv, m.from, c)))
    ensures Unpacked(w, KeyString(128, Point(b)), m) == if payload == [] then BadJson else Done((m.from, payload))
  {
    var c := Gcm.Encrypt(e, iv, payload);
    DecodedHex(iv);
    DecodedHex(c);
    DecodedHex(Gcm.Tag(e, iv, m.from, c));
    Gcm.EncryptTwice(e, iv, payload);
  }

  /** Whatever an encrypted message unpacks to, it is from the sender that it names. */
  lemma UnpackedFrom<A, B, T, K>(w: World<A, B, T, K>, recvKey: KeyString<B>, m: Message)
    ensures var r := Unpacked(w, recvKey, m); r.Done? ==> r.v.0 == m.from
  {
  }

  /** An encrypted message arrives intact if and only if JSON carries the id and the payload is not empty; an empty one is
      decrypted and then rejected. */
  lemma SealedArrives<A, B, T, K>(w: World<A, B, T, K>, b: B, userId: Text, payload: Text, e: Block -> Block, iv: Text, text: Str, num: Str -> bool)
    requires |iv| == 12 && e == CipherOf(w, w.p.e(b, w.idG1(userId)))
    requires var c := Gcm.Encrypt(e, iv, payload); TextOf(SealedFields(userId, Hex(iv), Hex(c), Hex(Gcm.Tag(e, iv, userId, c)))) == Done(text)
    ensures var r := Received(w, KeyString(128, Point(b)), text, num);
      (r == Done((userId, payload)) <==> Carried(userId) && payload != []) && (Carried(userId) && payload == [] ==> r == BadJson)
  {
    var c := Gcm.Encrypt(e, iv, payload);
    var t := Gcm.Tag(e, iv, userId, c);
    HexPlain(iv);
    HexPlain(c);
    HexPlain(t);
    var m := SealedRead(userId, Hex(iv), Hex(c), Hex(t), SealedFields(userId, Hex(iv), Hex(c), Hex(t)), num);
    var key := KeyString(128, Point(b));
    ReceivedAs(w, key, text, num, m);
    UnpackedFrom(w, key, m);
    if m.from == userId { SealedUnpacked(w, b, m, e, iv, payload); }
  }

  // ---------- the text on the wire ----------

  lemma AsciiConcat(a: string, b: string)
    ensures Ascii(a + b) == Ascii(a) + Ascii(b)
  {
  }

  lemma NamesSpell()
    ensures FROM == Ascii("from") && ENCRYPTED == Ascii("encrypted") && DATA == Ascii("data")
    ensures IV == Ascii("iv") && CIPHERTEXT == Ascii("ciphertext") && TAG == Ascii("tag")
  {
  }

  lemma Marks()
    ensures Ascii("\t\"") == [9, 34] && Ascii("\" : ") == [34, 32, 58, 32] && Ascii("\"") == [34]
    ensures Ascii("{\n") == [123, 10] && Ascii(",\n") == [44, 10] && Ascii("\n}") == [10, 125]
    ensures Ascii("true") == JsonText.TRUE && Ascii("false") == JsonText.FALSE
  {
  }

  /** A line: a tab, the name in quotes, a colon between blanks, the value. */
  lemma LineSpelled(name: string, f: JsonText.Field, rest: Str)
    requires FieldStays(f) && f.name == Ascii(name) && JsonText.Barred(f.name)
    ensures JsonText.LineThen(f, rest) == Ascii("\t\"" + name + "\" : ") + JsonText.LeafThen(f.value, rest)
  {
    Marks();
    JsonText.PlainBody(f.name);
    AsciiConcat("\t\"" + name, "\" : ");
    AsciiConcat("\t\"", name);
    LineJoin([9, 34], f.name, [34], [32, 58, 32], JsonText.LeafThen(f.value, rest));
    assert [34] + [32, 58, 32] == [34, 32, 58, 32];
  }

  lemma LineJoin(a: Str, b: Str, c: Str, d: Str, x: Str)
    ensures a + (b + (c + (d + x))) == (a + b + (c + d)) + x
  {
    Json.Associative(c, d, x);
    Json.Associative(b, c + d, x);
    Json.Associative(a, b, (c + d) + x);
    Json.Associative(a + b, c + d, x);
  }

  /** A string value. */
  lemma TextSpelled(s: Str, rest: Str)
    requires Json.Stays(s)
    ensures JsonText.LeafThen(JsonText.Text(s), rest) == Ascii("\"") + (Json.Body(s) + (Ascii("\"") + rest))
  {
    Marks();
  }

  /** A member on the wire: its name, and its value in quotes or bare. */
  datatype Item = Item(name: string, quoted: bool, body: Str)

  ghost function ItemThen(x: Item, rest: Str): Str {
    Ascii("\t\"" + x.name + "\" : ") + if x.quoted then Ascii("\"") + (x.body + (Ascii("\"") + rest)) else x.body + rest
  }

  ghost function ItemsThen(xs: seq<Item>): Str {
    if |xs| == 0 then Ascii("\n}") else Ascii(",\n") + ItemThen(xs[0], ItemsThen(xs[1..]))
  }

  /** The members, one a line, between braces. */
  ghost function Wire(xs: seq<Item>): Str
    requires |xs| > 0
  {
    Ascii("{\n") + ItemThen(xs[0], ItemsThen(xs[1..]))
  }

  ghost predicate Spells(f: JsonText.Field, x: Item) {
    && FieldStays(f) && JsonText.Barred(f.name) && f.name == Ascii(x.name)
    && (f.value.Text? ==> x.quoted && x.body == Json.Body(f.value.s))
    && (f.value.Flag? ==> !x.quoted && x.body == Ascii(if f.value.b then "true" else "false"))
  }

  lemma ItemSpelled(f: JsonText.Field, x: Item, rest: Str)
    requires Spells(f, x)
    ensures JsonText.LineThen(f, rest) == ItemThen(x, rest)
  {
    LineSpelled(x.name, f, rest);
    if f.value.Text? {
      TextSpelled(f.value.s, rest);
    } else {
      Marks();
    }
  }

  lemma {:induction false} ItemsSpelled(fs: seq<JsonText.Field>, xs: seq<Item>)
    requires |fs| == |xs| && JsonText.AllStay(fs) && forall i :: 0 <= i < |fs| ==> Spells(fs[i], xs[i])
    ensures JsonText.Tail(fs) == ItemsThen(xs)
    decreases |fs|
  {
    Marks();
    if |fs| > 0 {
      ItemsSpelled(fs[1..], xs[1..]);
      ItemSpelled(fs[0], xs[0], ItemsThen(xs[1..]));
    }
  }

  lemma WireSpelled(fs: seq<JsonText.Field>, xs: seq<Item>)
    requires |fs| == |xs| > 0 && JsonText.AllStay(fs) && forall i :: 0 <= i < |fs| ==> Spells(fs[i], xs[i])
    ensures JsonText.ObjectText(fs) == Wire(xs)
  {
    Marks();
    ItemsSpelled(fs[1..], xs[1..]);
    ItemSpelled(fs[0], xs[0], ItemsThen(xs[1..]));
  }

  ghost predicate Word(name: Str, w: string) { Json.Stays(name) && JsonText.Barred(name) && name == Ascii(w) }

  lemma NameWords()
    ensures Word(FROM, "from") && Word(ENCRYPTED, "encrypted") && Word(IV, "iv")
    ensures Word(CIPHERTEXT, "ciphertext") && Word(TAG, "tag") && Word(DATA, "data")
  {
    NamesSpell();
    NamesBarred();
    NamesStay();
  }

  lemma SpellsText(name: Str, w: string, s: Str)
    requires Word(name, w) && Json.Stays(s)
    ensures Spells(JsonText.Field(name, JsonText.Text(s)), Item(w, true, Json.Body(s)))
  {
  }

  lemma SpellsPlain(name: Str, w: string, h: string)
    requires Word(name, w) && Plain(h)
    ensures Spells(JsonText.Field(name, JsonText.Text(Ascii(h))), Item(w, true, Ascii(h)))
  {
    var a := Ascii(h);
    forall i | 0 <= i < |a| ensures Json.Escaped(a[i]) == [a[i]] { assert a[i] == h[i] as int; }
    JsonText.PlainBody(a);
  }

  lemma SpellsFlag(name: Str, w: string, b: bool)
    requires Word(name, w)
    ensures Spells(JsonText.Field(name, JsonText.Flag(b)), Item(w, false, Ascii(if b then "true" else "false")))
  {
  }

  lemma WireOfThree(f0: JsonText.Field, f1: JsonText.Field, f2: JsonText.Field, x0: Item, x1: Item, x2: Item)
    requires Spells(f0, x0) && Spells(f1, x1) && Spells(f2, x2)
    ensures TextOf([f0, f1, f2]) == Done(Wire([x0, x1, x2]))
  {
    ThreeFields(f0, f1, f2);
    WireSpelled([f0, f1, f2], [x0, x1, x2]);
  }

  lemma WireOfFive(f0: JsonText.Field, f1: JsonText.Field, f2: JsonText.Field, f3: JsonText.Field, f4: JsonText.Field,
      x0: Item, x1: Item, x2: Item, x3: Item, x4: Item)
    requires Spells(f0, x0) && Spells(f1, x1) && Spells(f2, x2) && Spells(f3, x3) && Spells(f4, x4)
    ensures TextOf([f0, f1, f2, f3, f4]) == Done(Wire([x0, x1, x2, x3, x4]))
  {
    FiveFields(f0, f1, f2, f3, f4);
    WireSpelled([f0, f1, f2, f3, f4], [x0, x1, x2, x3, x4]);
  }

  /** The text of a plain message. */
  lemma PlainWire(userId: Text, payload: Text, u: Str, p: Str)
    requires u == Octets(userId) && p == Octets(payload) && Json.Stays(u) && Json.Stays(p)
    ensures TextOf(PlainFields(userId, payload)) == Done(Wire([
      Item("from", true, Json.Body(u)), Item("encrypted", false, Ascii("false")), Item("data", true, Json.Body(p))]))
  {
    NameWords();
    SpellsText(FROM, "from", u);
    SpellsFlag(ENCRYPTED, "encrypted", false);
    SpellsText(DATA, "data", p);
    WireOfThree(JsonText.Field(FROM, JsonText.Text(u)), JsonText.Field(ENCRYPTED, JsonText.Flag(false)), JsonText.Field(DATA, JsonText.Text(p)),
      Item("from", true, Json.Body(u)), Item("encrypted", false, Ascii("false")), Item("data", true, Json.Body(p)));
  }

  /** The text of an encrypted message. */
  lemma SealedWire(userId: Text, iv: string, c: string, t: string, u: Str)
    requires u == Octets(userId) && Json.Stays(u) && Plain(iv) && Plain(c) && Plain(t)
    ensures TextOf(SealedFields(userId, iv, c, t)) == Done(Wire([
      Item("from", true, Json.Body(u)), Item("encrypted", false, Ascii("true")),
      Item("iv", true, Ascii(iv)), Item("ciphertext", true, Ascii(c)), Item("tag", true, Ascii(t))]))
  {
    NameWords();
    SpellsText(FROM, "from", u);
    SpellsFlag(ENCRYPTED, "encrypted", true);
    SpellsPlain(IV, "iv", iv);
    SpellsPlain(CIPHERTEXT, "ciphertext", c);
    SpellsPlain(TAG, "tag", t);
    WireOfFive(JsonText.Field(FROM, JsonText.Text(u)), JsonText.Field(ENCRYPTED, JsonText.Flag(true)), JsonText.Field(IV, JsonText.Text(Ascii(iv))),
      JsonText.Field(CIPHERTEXT, JsonText.Text(Ascii(c))), JsonText.Field(TAG, JsonText.Text(Ascii(t))),
      Item("from", true, Json.Body(u)), Item("encrypted", false, Ascii("true")), Item("iv", true, Ascii(iv)),
      Item("ciphertext", true, Ascii(c)), Item("tag", true, Ascii(t)));
  }

  // ---------- a message between two users ----------

  lemma SealedStay(userId: Text, iv: Text, c: Text, t: Text)
    requires Carried(userId)
    ensures JsonText.AllStay(SealedFields(userId, Hex(iv), Hex(c), Hex(t)))
  {
    Json.PairedStays(Octets(userId));
    HexPlain(iv);
    HexPlain(c);
    HexPlain(t);
    SealedProper(userId, Hex(iv), Hex(c), Hex(t));
  }

  lemma NamesStay()
    ensures Json.Stays(FROM) && Json.Stays(ENCRYPTED) && Json.Stays(IV) && Json.Stays(CIPHERTEXT) && Json.Stays(TAG) && Json.Stays(DATA)
  {
    NamesBarred();
    JsonText.PlainBody(FROM);
    JsonText.PlainBody(ENCRYPTED);
    JsonText.PlainBody(IV);
    JsonText.PlainBody(CIPHERTEXT);
    JsonText.PlainBody(TAG);
    JsonText.PlainBody(DATA);
  }

  lemma PlainStay(userId: Text, payload: Text)
    requires Carried(userId) && Carried(payload)
    ensures JsonText.AllStay(PlainFields(userId, payload))
  {
    Json.PairedStays(Octets(userId));
    Json.PairedStays(Octets(payload));
    PlainProper(userId, payload);
  }

  /** What JSON carries, plain or encrypted. */
  ghost predicate Intact(idFrom: Text, payload: Text, encrypt: bool) {
    Carried(idFrom) && if encrypt then payload != [] else Carried(payload)
  }

  /** Serialisation and parsing under two keys that pair to the same value. */
  method Deliver<A, B, T, K>(w: World<A, B, T, K>, a: A, b: B, idFrom: Text, idTo: Text, payload: Text, encrypt: bool, iv: Text, num: Str -> bool)
    returns (r: Reply<(Text, Text)>)
    requires |iv| == 12 && w.p.e(w.idG2(idTo), a) == w.p.e(b, w.idG1(idFrom))
    ensures r == Done((idFrom, payload)) <==> Intact(idFrom, payload, encrypt)
    ensures Carried(idFrom) && encrypt && payload == [] ==> r == BadJson
  {
    var text := Serialize(w, idFrom, KeyString(65, Point(a)), idTo, payload, encrypt, iv);
    ghost var e := CipherOf(w, w.p.e(w.idG2(idTo), a));
    ghost var c := Gcm.Encrypt(e, iv, payload);
    if Carried(idFrom) { SealedStay(idFrom, iv, c, Gcm.Tag(e, iv, idFrom, c)); }
    if Carried(idFrom) && Carried(payload) { PlainStay(idFrom, payload); }
    if !text.Done? { return Undefined; }
    r := Parse(w, KeyString(128, Point(b)), text.v, num);
    if encrypt {
      SealedArrives(w, b, idFrom, payload, e, iv, text.v, num);
    } else {
      PlainArrives(w, KeyString(128, Point(b)), idFrom, payload, text.v, num);
    }
  }

  /** A message between two users keyed by share sums under the same master secrets.  A plain payload arrives, with the
      sender's id, if and only if every run of backslashes in either has even length; an encrypted one if and only if
      that holds of the id and the payload is not empty. */
  method SendAndReceive<A(==,!new), B(==,!new), T(!new), K>(w: World<A, B, T, K>, s1: nat, s2: nat, idFrom: Text, idTo: Text, payload: Text,
      encrypt: bool, iv: Text, num: Str -> bool) returns (r: Reply<(Text, Text)>)
    requires Bilinear(w.p) && s1 < SCALAR_LIMIT && s2 < SCALAR_LIMIT && |iv| == 12
    requires Usable(w.p.g1, s1, s2, w.idG1(idFrom)) && Usable(w.p.g2, s1, s2, w.idG2(idTo))
    ensures r == Done((idFrom, payload)) <==>
      Json.EvenRuns(Octets(idFrom)) && if encrypt then payload != [] else Json.EvenRuns(Octets(payload))
    ensures Json.EvenRuns(Octets(idFrom)) && encrypt && payload == [] ==> r == BadJson
  {
    var res, a := Shares(w.p.g1, s1, s2, w.idG1(idFrom));
    var res', b := Shares(w.p.g2, s1, s2, w.idG2(idTo));
    Symmetric(w.p, s1 + s2, w.idG1(idFrom), w.idG2(idTo));
    Json.PairedIff(Octets(idFrom));
    Json.PairedIff(Octets(payload));
    r := Deliver(w, a.p, b.p, idFrom, idTo, payload, encrypt, iv, num);
  }
}
