/**
 * The session machine of the client (src/client.cpp) on top of the MQTT connection (src/mqtt_tls_client.cpp, over
 * the Paho client and the TLS connection of netlib).  The network, the broker and the authentication server are a stream of
 * answers: whether a request succeeds, and whether the TLS connection is still up after it.  Both layers are flags that
 * only requests change.  Callbacks do not re-enter the client.
 */
module Session {

  type Topic = string

  /** The answers of the environment, in the order in which they are asked for. */
  type Env = nat -> bool

  // ---------- the MQTT connection, as a machine over the answers ----------

  /** The layers, the options, and the history: the number of MQTT connections, the topics with an accepted Subscribe that
      no later accepted Unsubscribe has taken back since the last clean connection, and the number of answers used. */
  datatype Link = Link(tls: bool, mqtt: bool, persistent: bool, present: bool, connections: nat, accepted: set<Topic>, t: nat)

  /** A result and the state after it. */
  datatype Out<S> = Out(r: bool, s: S)

  /** IsConnected: if one layer is down the other is closed too. */
  ghost function IsUp(l: Link): Out<Link> {
    if !l.tls then Out(false, l.(mqtt := false, present := l.present && !l.mqtt))
    else if !l.mqtt then Out(false, l.(tls := false, present := false))
    else Out(true, l)
  }

  /** OnError */
  ghost function Failed(l: Link): Out<Link> { Out(false, l.(present := false)) }

  /** MqttConnect: a clean session starts without subscriptions and is never reported as present (section 3.2.2.2 of
      MQTT 3.1.1). */
  ghost function MqttUp(e: Env, l: Link, clean: bool): Out<Link> {
    var n := l.(tls := l.tls && e(l.t + 2), t := l.t + 3);
    if !e(l.t) then Failed(n)
    else Out(true, n.(mqtt := true, present := e(l.t + 1) && !clean, connections := l.connections + 1,
                      accepted := if clean then {} else l.accepted))
  }

  /** Connect(cleanSession) */
  ghost function ConnectLink(e: Env, l: Link, clean: bool): Out<Link> {
    var u := IsUp(l);
    if u.r then u
    else if !e(l.t) then Failed(u.s.(t := l.t + 1))
    else
      var m := MqttUp(e, u.s.(tls := true, t := l.t + 1), clean);
      if m.r then m else Out(false, m.s.(tls := false))
  }

  /** Connect() */
  ghost function FirstConnect(e: Env, l: Link): Out<Link> {
    var c := ConnectLink(e, l, true);
    if !c.r || !l.persistent then c else ConnectLink(e, c.s.(tls := false, mqtt := false, present := false), false)
  }

  /** A request is sent, and answered. */
  ghost predicate Served(e: Env, l: Link) { l.tls && l.mqtt && e(l.t) }

  /** Subscribe: any failure, a refusal among them, takes the MQTT layer down (cleanSession of the Paho client). */
  ghost function SubLink(e: Env, l: Link, topic: Topic): Out<Link> {
    var n := l.(tls := l.tls && e(l.t + 1), t := l.t + 2);
    if Served(e, l) then Out(true, n.(accepted := l.accepted + {topic})) else Failed(n.(mqtt := false))
  }

  /** Unsubscribe: likewise. */
  ghost function UnsubLink(e: Env, l: Link, topic: Topic): Out<Link> {
    var n := l.(tls := l.tls && e(l.t + 1), t := l.t + 2);
    if Served(e, l) then Out(true, n.(accepted := l.accepted - {topic})) else Failed(n.(mqtt := false))
  }

  /** Publish: likewise, except that a message too long for the buffer fails before anything is sent. */
  ghost function PublishLink(e: Env, l: Link): Out<Link> {
    var m := l.(t := l.t + 1);
    var n := l.(tls := l.tls && e(l.t + 2), t := l.t + 3);
    if !e(l.t) then Failed(m) else if Served(e, m) then Out(true, n) else Failed(n.(mqtt := false))
  }

  /** RunMessageLoop: a failure counts only if it has closed the connection. */
  ghost function LoopLink(e: Env, l: Link): Out<Link> {
    var n := l.(tls := l.tls && e(l.t + 1), t := l.t + 2);
    if e(l.t) || n.tls then Out(true, n) else Failed(n)
  }

  // ---------- the client, as a machine over the answers ----------

  datatype State = NoSession | Initial | Connected | Disconnected

  datatype Event = OnConnected | OnConnectionLost

  /** The subscriptions in the order of the set that holds them, and the connection events of the session. */
  datatype Session = Session(state: State, subs: seq<Topic>, link: Link, log: seq<Event>)

  /** The order of strings. */
  predicate Less(a: Topic, b: Topic) {
    |b| > 0 && (|a| == 0 || a[0] < b[0] || (a[0] == b[0] && Less(a[1..], b[1..])))
  }

  function Insert(s: seq<Topic>, x: Topic): (r: seq<Topic>)
    ensures forall y :: y in r <==> y in s || y == x
  {
    if |s| == 0 then [x] else if x == s[0] then s else if Less(x, s[0]) then [x] + s else
      var r := Insert(s[1..], x);
      assert forall y :: y in s <==> y == s[0] || y in s[1..];
      [s[0]] + r
  }

  function Erase(s: seq<Topic>, x: Topic): (r: seq<Topic>)
    ensures forall y :: y in r <==> y in s && y != x
  {
    if |s| == 0 then [] else
      var r := Erase(s[1..], x);
      assert forall y :: y in s <==> y == s[0] || y in s[1..];
      if s[0] == x then r else [s[0]] + r
  }

  /** It is the order by the first difference, or by length. */
  lemma {:induction false} LessIff(a: Topic, b: Topic)
    ensures Less(a, b) <==> a < b || exists k :: 0 <= k < |a| && k < |b| && a[..k] == b[..k] && a[k] < b[k]
    decreases |a|
  {
    if |a| > 0 && |b| > 0 && a[0] == b[0] {
      var c, d := a[1..], b[1..];
      LessIff(c, d);
      assert a == [a[0]] + c && b == [b[0]] + d;
      if k :| 0 <= k < |c| && k < |d| && c[..k] == d[..k] && c[k] < d[k] {
        assert a[..k + 1] == [a[0]] + c[..k] && b[..k + 1] == [b[0]] + d[..k] && a[k + 1] < b[k + 1];
      }
      if k :| 0 <= k < |a| && k < |b| && a[..k] == b[..k] && a[k] < b[k] {
        assert a[1..k] == c[..k - 1] && b[1..k] == d[..k - 1] && a[..k][1..] == b[..k][1..];
        assert c[..k - 1] == d[..k - 1] && c[k - 1] < d[k - 1];
      }
    } else if |a| > 0 && |b| > 0 && a[0] < b[0] {
      assert a[..0] == b[..0];
    } else {
      SameFirst(a, b);
    }
  }

  lemma SameFirst(a: Topic, b: Topic)
    ensures forall k :: 0 < k < |a| && k < |b| && a[..k] == b[..k] ==> a[0] == b[0]
  {
    forall k | 0 < k < |a| && k < |b| && a[..k] == b[..k] ensures a[0] == b[0] { assert a[..k][0] == b[..k][0]; }
  }

  /** In order, hence without repetition. */
  ghost predicate Ascending(s: seq<Topic>) { forall i, j :: 0 <= i < j < |s| ==> Less(s[i], s[j]) }

  lemma {:induction false} LessTotal(a: Topic, b: Topic)
    ensures a == b || Less(a, b) || Less(b, a)
    decreases |a|
  {
    if |a| > 0 && |b| > 0 && a[0] == b[0] {
      LessTotal(a[1..], b[1..]);
      if a[1..] == b[1..] { assert a == [a[0]] + a[1..] && b == [b[0]] + b[1..]; }
    }
  }

  lemma {:induction false} LessTransitive(a: Topic, b: Topic, c: Topic)
    requires Less(a, b) && Less(b, c)
    ensures Less(a, c)
    decreases |a|
  {
    if |a| > 0 && a[0] == b[0] == c[0] { LessTransitive(a[1..], b[1..], c[1..]); }
  }

  lemma Prepended(x: Topic, s: seq<Topic>)
    requires Ascending(s) && forall y :: y in s ==> Less(x, y)
    ensures Ascending([x] + s)
  {
    var r := [x] + s;
    forall i, j | 0 <= i < j < |r| ensures Less(r[i], r[j]) {
      assert r[j] == s[j - 1] && s[j - 1] in s;
      if i > 0 { assert r[i] == s[i - 1]; }
    }
  }

  lemma HeadLeast(s: seq<Topic>, y: Topic)
    requires Ascending(s) && |s| > 0 && y in s[1..]
    ensures Less(s[0], y)
  {
    var j :| 0 <= j < |s[1..]| && s[1..][j] == y;
    assert s[j + 1] == y;
  }

  lemma {:induction false} InsertAscends(s: seq<Topic>, x: Topic)
    requires Ascending(s)
    ensures Ascending(Insert(s, x))
    decreases |s|
  {
    if |s| > 0 && x != s[0] {
      assert forall y :: y in s <==> y == s[0] || y in s[1..];
      if Less(x, s[0]) {
        forall y | y in s ensures Less(x, y) {
          if y != s[0] {
            HeadLeast(s, y);
            LessTransitive(x, s[0], y);
          }
        }
        Prepended(x, s);
      } else {
        LessTotal(x, s[0]);
        InsertAscends(s[1..], x);
        forall y | y in Insert(s[1..], x) ensures Less(s[0], y) {
          if y != x { HeadLeast(s, y); }
        }
        Prepended(s[0], Insert(s[1..], x));
      }
    }
  }

  lemma {:induction false} EraseAscends(s: seq<Topic>, x: Topic)
    requires Ascending(s)
    ensures Ascending(Erase(s, x))
    decreases |s|
  {
    if |s| > 0 {
      EraseAscends(s[1..], x);
      forall y | y in Erase(s[1..], x) ensures Less(s[0], y) { HeadLeast(s, y); }
      Prepended(s[0], Erase(s[1..], x));
    }
  }

  /** RestoreSubscriptions: in order, up to the first that is refused. */
  ghost function Restore(e: Env, l: Link, subs: seq<Topic>): Out<Link>
    decreases |subs|
  {
    if |subs| == 0 then Out(true, l)
    else
      var o := SubLink(e, l, subs[0]);
      if o.r then Restore(e, o.s, subs[1..]) else o
  }

  /** Reconnect: unless the broker reports an existing session, the subscriptions are made again. */
  ghost function Again(e: Env, l: Link, subs: seq<Topic>): Out<Link> {
    var a := l.(t := l.t + 1);
    if !e(l.t) then Out(false, a)
    else
      var c := ConnectLink(e, a, !l.persistent);
      if c.r && !c.s.present then Restore(e, c.s, subs) else c
  }

  /** CheckState */
  ghost function Check(e: Env, s: Session): Out<Session> {
    match s.state
    case NoSession => Out(false, s)
    case Initial =>
      var a := s.link.(t := s.link.t + 1);
      if !e(s.link.t) then Out(false, s.(link := a))
      else
        var c := FirstConnect(e, a);
        if c.r then Out(true, s.(state := Connected, link := c.s, log := [OnConnected])) else Out(false, s.(link := c.s))
    case _ =>
      var u := IsUp(s.link);
      if u.r then Out(s.state == Connected, s.(link := u.s))
      else
        var log := if s.state == Connected then s.log + [OnConnectionLost] else s.log;
        var c := Again(e, u.s, s.subs);
        if c.r then Out(true, s.(state := Connected, link := c.s, log := log + [OnConnected]))
        else Out(false, s.(state := Disconnected, link := c.s, log := log))
  }

  /** What the application can call. */
  datatype Call = Start(persistent: bool) | End | AskConnected | Subscribe(topic: Topic) | Unsubscribe(topic: Topic) | Publish | Loop

  ghost function Do(e: Env, s: Session, call: Call): Out<Session> {
    match call
    case Start(persistent) =>
      if s.state != NoSession then Out(true, s)
      else Check(e, Session(Initial, s.subs, s.link.(persistent := persistent), []))
    case End =>
      if s.state == NoSession then Out(true, s)
      else Out(true, Session(NoSession, [], s.link.(tls := false, mqtt := false, present := false), s.log))
    case AskConnected => var u := IsUp(s.link); Out(u.r, s.(link := u.s))
    case Subscribe(topic) =>
      var c := Check(e, s);
      if !c.r then c
      else
        var o := SubLink(e, c.s.link, topic);
        Out(o.r, c.s.(link := o.s, subs := if o.r then Insert(c.s.subs, topic) else c.s.subs))
    case Unsubscribe(topic) =>
      var c := Check(e, s);
      if !c.r then c
      else
        var o := UnsubLink(e, c.s.link, topic);
        Out(o.r, c.s.(link := o.s, subs := if o.r then Erase(c.s.subs, topic) else c.s.subs))
    case Publish =>
      var c := Check(e, s);
      if !c.r then c
      else
        var o := PublishLink(e, c.s.link);
        Out(o.r, c.s.(link := o.s))
    case Loop =>
      var c := Check(e, s);
      if !c.r then c
      else
        var o := LoopLink(e, c.s.link);
        Out(o.r, c.s.(link := o.s))
  }

  /** A client before its first call. */
  ghost function Fresh(): Session { Session(NoSession, [], Link(false, false, true, false, 0, {}, 0), []) }

  /** A run: any calls, in any order. */
  ghost function Run(e: Env, s: Session, calls: seq<Call>): Session
    decreases |calls|
  {
    if |calls| == 0 then s else Run(e, Do(e, s, calls[0]).s, calls[1..])
  }

  // ---------- what every run keeps ----------

  /** OnConnected and OnConnectionLost in turn, OnConnected first. */
  ghost predicate Alternating(log: seq<Event>) {
    forall i :: 0 <= i < |log| ==> log[i] == if i % 2 == 0 then OnConnected else OnConnectionLost
  }

  /** Every subscription is accepted on the current connection. */
  ghost predicate AllAccepted(subs: seq<Topic>, l: Link) { forall x :: x in subs ==> x in l.accepted }

  /** The invariant of a client: among others, outside the connected state the MQTT layer is down. */
  ghost predicate Valid(s: Session) {
    && Alternating(s.log) && Ascending(s.subs)
    && (s.state == NoSession || s.state == Initial ==> s.subs == [])
    && (s.state == Initial ==> s.log == [])
    && (s.state != Connected ==> !s.link.mqtt)
    && (s.state == Connected ==> |s.log| % 2 == 1 && (!s.link.persistent ==> AllAccepted(s.subs, s.link)))
    && (s.state == Disconnected ==> |s.log| % 2 == 0 && |s.log| > 0)
  }

  lemma {:induction false} RestoreAccepts(e: Env, l: Link, subs: seq<Topic>)
    ensures var o := Restore(e, l, subs); l.accepted <= o.s.accepted && (o.r ==> AllAccepted(subs, o.s))
    ensures forall x :: x in Restore(e, l, subs).s.accepted ==> x in l.accepted || x in subs
    ensures var o := Restore(e, l, subs); o.s.mqtt == (o.r && l.mqtt)
    ensures var o := Restore(e, l, subs).s; o.persistent == l.persistent && o.connections == l.connections
    decreases |subs|
  {
    if |subs| > 0 {
      var o := SubLink(e, l, subs[0]);
      if o.r {
        RestoreAccepts(e, o.s, subs[1..]);
        assert forall y :: y in subs <==> y == subs[0] || y in subs[1..];
      }
    }
  }

  /** After a loss, success means one new connection, and with persistence off every subscription accepted on it. */
  lemma AgainAccepts(e: Env, l: Link, subs: seq<Topic>)
    requires !l.tls && !l.mqtt
    ensures var o := Again(e, l, subs); o.s.persistent == l.persistent && o.s.mqtt == o.r
    ensures var o := Again(e, l, subs); o.r ==> o.s.connections == l.connections + 1 && (!l.persistent ==> AllAccepted(subs, o.s))
  {
    if e(l.t) {
      var c := ConnectLink(e, l.(t := l.t + 1), !l.persistent);
      RestoreAccepts(e, c.s, subs);
    }
  }

  /** The events of CheckState: OnConnected for the first connection; a loss is reported once, and then the connection that
      replaces it.  After the first, each OnConnected stands for exactly one new connection. */
  lemma CheckReports(e: Env, s: Session)
    ensures var c := Check(e, s); c.r <==> c.s.state == Connected
    ensures var c := Check(e, s); s.state == NoSession ==> c == Out(false, s)
    ensures var c := Check(e, s); s.state == Initial ==> c.s.log == if c.r then [OnConnected] else s.log
    ensures var c := Check(e, s); s.state == Connected && c.r ==> c.s.log == s.log || c.s.log == s.log + [OnConnectionLost, OnConnected]
    ensures var c := Check(e, s); s.state == Connected && !c.r ==> c.s.log == s.log + [OnConnectionLost]
    ensures var c := Check(e, s); s.state == Disconnected ==> c.s.log == if c.r then s.log + [OnConnected] else s.log
    ensures var c := Check(e, s); s.state != Initial && c.r ==> c.s.link.connections == s.link.connections + if c.s.log == s.log then 0 else 1
  {
    if s.state == Connected || s.state == Disconnected {
      var u := IsUp(s.link);
      if !u.r { AgainAccepts(e, u.s, s.subs); }
    }
  }

  /** A first connection starts without subscriptions; with persistence on it is made twice. */
  lemma FirstConnects(e: Env, l: Link)
    requires !(l.tls && l.mqtt)
    ensures var c := FirstConnect(e, l); c.r ==> c.s.mqtt && c.s.tls == e(c.s.t - 1) && c.s.accepted == {} && c.s.connections == l.connections + if l.persistent then 2 else 1
    ensures var c := FirstConnect(e, l); !c.r ==> !c.s.tls && !c.s.mqtt
  {
  }

  lemma Reports(log: seq<Event>)
    requires Alternating(log)
    ensures |log| % 2 == 0 ==> Alternating(log + [OnConnected])
    ensures |log| % 2 == 1 ==> Alternating(log + [OnConnectionLost]) && Alternating(log + [OnConnectionLost] + [OnConnected])
  {
  }

  /** CheckState keeps the invariant; true means, with persistence off, every subscription accepted. */
  lemma CheckKeeps(e: Env, s: Session)
    requires Valid(s)
    ensures var c := Check(e, s); Valid(c.s) && c.s.subs == s.subs && c.s.link.persistent == s.link.persistent
    ensures var c := Check(e, s); (c.r <==> c.s.state == Connected) && (c.s.state == NoSession <==> s.state == NoSession)
    ensures var c := Check(e, s); c.r && !s.link.persistent ==> AllAccepted(c.s.subs, c.s.link)
  {
    if s.state == Connected || s.state == Disconnected {
      var u := IsUp(s.link);
      Reports(s.log);
      if !u.r { AgainAccepts(e, u.s, s.subs); }
    }
  }

  lemma DoKeeps(e: Env, s: Session, call: Call)
    requires Valid(s)
    ensures Valid(Do(e, s, call).s)
  {
    if call.Start? {
      if s.state == NoSession { CheckKeeps(e, Session(Initial, s.subs, s.link.(persistent := call.persistent), [])); }
    } else if !call.End? && !call.AskConnected? {
      CheckKeeps(e, s);
      if call.Subscribe? { InsertAscends(s.subs, call.topic); }
      if call.Unsubscribe? { EraseAscends(s.subs, call.topic); }
    }
  }

  /** A topic is recorded, or forgotten, exactly if the broker accepted the request on a connected session. */
  lemma Recorded(e: Env, s: Session, topic: Topic)
    requires Valid(s)
    ensures var o := Do(e, s, Subscribe(topic)); o.r ==> o.s.state == Connected && topic in o.s.link.accepted
    ensures var o := Do(e, s, Subscribe(topic)); forall x :: x in o.s.subs <==> x in s.subs || (o.r && x == topic)
    ensures var o := Do(e, s, Unsubscribe(topic)); o.r ==> o.s.state == Connected && topic !in o.s.link.accepted
    ensures var o := Do(e, s, Unsubscribe(topic)); forall x :: x in o.s.subs <==> x in s.subs && !(o.r && x == topic)
  {
    CheckKeeps(e, s);
  }

  /** Without a session there is no connection. */
  ghost predicate Down(s: Session) { s.state == NoSession ==> s.subs == [] && !s.link.tls && !s.link.mqtt && !s.link.present }

  lemma {:induction false} DownWithout(e: Env, s: Session, calls: seq<Call>)
    requires Valid(s) && Down(s)
    ensures Down(Run(e, s, calls + [End])) && Run(e, s, calls + [End]).state == NoSession
    decreases |calls|
  {
    if |calls| == 0 {
      assert calls + [End] == [End];
      assert Run(e, s, [End]) == Do(e, s, End).s;
    } else {
      DoKeeps(e, s, calls[0]);
      CheckKeeps(e, s);
      assert Down(Do(e, s, calls[0]).s);
      DownWithout(e, Do(e, s, calls[0]).s, calls[1..]);
      assert (calls + [End])[1..] == calls[1..] + [End];
    }
  }

  /** EndSession: nothing is left up and nothing subscribed, whatever was called before. */
  lemma EndIsEnd(e: Env, calls: seq<Call>)
    ensures var s := Run(e, Fresh(), calls + [End]); s.state == NoSession && s.subs == [] && !s.link.tls && !s.link.mqtt && !s.link.present
  {
    DownWithout(e, Fresh(), calls);
  }

  /** In every run, against every environment. */
  lemma {:induction false} EveryRun(e: Env, s: Session, calls: seq<Call>)
    requires Valid(s)
    ensures Valid(Run(e, s, calls))
    decreases |calls|
  {
    if |calls| > 0 {
      DoKeeps(e, s, calls[0]);
      EveryRun(e, Do(e, s, calls[0]).s, calls[1..]);
    }
  }

  /** The events of a session alternate, starting with OnConnected; and whenever CheckState returns true with persistence
      off, every subscription is accepted on the current connection. */
  lemma RunsAreRight(e: Env, calls: seq<Call>)
    ensures var s := Run(e, Fresh(), calls); Alternating(s.log) && Ascending(s.subs)
    ensures var c := Check(e, Run(e, Fresh(), calls)); c.r && !c.s.link.persistent ==> AllAccepted(c.s.subs, c.s.link)
  {
    EveryRun(e, Fresh(), calls);
    CheckKeeps(e, Run(e, Fresh(), calls));
  }

  // ---------- what a session is started with ----------

  lemma {:induction false} RestorePersists(e: Env, l: Link, subs: seq<Topic>)
    ensures Restore(e, l, subs).s.persistent == l.persistent
    decreases |subs|
  {
    if |subs| > 0 { RestorePersists(e, SubLink(e, l, subs[0]).s, subs[1..]); }
  }

  lemma CheckPersists(e: Env, s: Session)
    ensures Check(e, s).s.link.persistent == s.link.persistent && (Check(e, s).s.state == NoSession <==> s.state == NoSession)
  {
    if s.state == Connected || s.state == Disconnected {
      var l := IsUp(s.link).s;
      RestorePersists(e, ConnectLink(e, l.(t := l.t + 1), !l.persistent).s, s.subs);
    }
  }

  /** Start begins a session with its argument, and changes nothing in one that is started; End ends it; no other call
      begins or ends one or changes what it was started with. */
  lemma StartAndEnd(e: Env, s: Session, call: Call)
    ensures var o := Do(e, s, call).s; call.Start? && s.state == NoSession ==> o.state != NoSession && o.link.persistent == call.persistent
    ensures call.Start? && s.state != NoSession ==> Do(e, s, call).s == s
    ensures call == End ==> Do(e, s, call).s.state == NoSession
    ensures var o := Do(e, s, call).s; !call.Start? ==> o.link.persistent == s.link.persistent
    ensures var o := Do(e, s, call).s; !call.Start? && call != End ==> (o.state == NoSession <==> s.state == NoSession)
  {
    if call.Start? {
      CheckPersists(e, Session(Initial, s.subs, s.link.(persistent := call.persistent), []));
    } else {
      OthersKeep(e, s, call);
    }
  }

  lemma OthersKeep(e: Env, s: Session, call: Call)
    requires !call.Start?
    ensures var o := Do(e, s, call).s; o.link.persistent == s.link.persistent && (call != End ==> (o.state == NoSession <==> s.state == NoSession))
  {
    CheckPersists(e, s);
  }

  lemma {:induction false} RunLast(e: Env, s: Session, calls: seq<Call>, call: Call)
    ensures Run(e, s, calls + [call]) == Do(e, Run(e, s, calls), call).s
    decreases |calls|
  {
    if |calls| == 0 {
      assert calls + [call] == [call] && [call][1..] == [];
    } else {
      RunLast(e, Do(e, s, calls[0]).s, calls[1..], call);
      assert (calls + [call])[1..] == calls[1..] + [call];
    }
  }

  /** Call i of a run begins a session that has not ended since. */
  ghost predicate Began(e: Env, calls: seq<Call>, i: nat) {
    && i < |calls| && calls[i].Start? && Run(e, Fresh(), calls[..i]).state == NoSession
    && forall j :: i < j <= |calls| ==> Run(e, Fresh(), calls[..j]).state != NoSession
  }

  /** In every run: a session that is on was begun by a Start, and persistence is what that Start asked for. */
  lemma {:induction false} StartDecides(e: Env, calls: seq<Call>)
    ensures var s := Run(e, Fresh(), calls); s.state != NoSession ==> exists i: nat :: Began(e, calls, i) && calls[i].persistent == s.link.persistent
    decreases |calls|
  {
    var s := Run(e, Fresh(), calls);
    if |calls| > 0 && s.state != NoSession {
      var n := |calls| - 1;
      var before, call := calls[..n], calls[n];
      assert calls == before + [call] && calls[..|calls|] == calls;
      RunLast(e, Fresh(), before, call);
      var r := Run(e, Fresh(), before);
      StartAndEnd(e, r, call);
      StartDecides(e, before);
      if r.state == NoSession {
        assert Began(e, calls, n);
      } else {
        var i: nat :| Began(e, before, i) && before[i].persistent == r.link.persistent;
        assert forall j :: 0 <= j <= n ==> calls[..j] == before[..j];
        assert Began(e, calls, i);
      }
    }
  }

  /** With persistence on, the first connection is a clean one and then one that asks for the session; later ones ask for
      it, keep what was accepted, and make the topics again only if it is gone. */
  lemma Resumes(e: Env, l: Link, subs: seq<Topic>)
    requires l.persistent && !l.tls && !l.mqtt
    ensures var c := FirstConnect(e, l); c.r ==> c.s.present == e(l.t + 6) && c.s.connections == l.connections + 2 && c.s.accepted == {}
    ensures var o := Again(e, l, subs); l.accepted <= o.s.accepted
    ensures e(l.t) && e(l.t + 1) && e(l.t + 2) && e(l.t + 3) ==>
      var o := Again(e, l, subs); o.r && o.s.present && o.s.accepted == l.accepted && o.s.connections == l.connections + 1
  {
    if e(l.t) { RestoreAccepts(e, ConnectLink(e, l.(t := l.t + 1), false).s, subs); }
  }

  /** With persistence off every connection is clean. */
  lemma Cleans(e: Env, l: Link, subs: seq<Topic>)
    requires !l.persistent && !l.tls && !l.mqtt
    ensures var c := FirstConnect(e, l); c.r ==> !c.s.present && c.s.connections == l.connections + 1 && c.s.accepted == {}
    ensures var o := Again(e, l, subs); o.r ==> !o.s.present && forall x :: x in o.s.accepted <==> x in subs
  {
    if e(l.t) {
      var c := ConnectLink(e, l.(t := l.t + 1), true);
      RestoreAccepts(e, c.s, subs);
      RestoreAbsent(e, c.s, subs);
    }
  }

  lemma {:induction false} RestoreAbsent(e: Env, l: Link, subs: seq<Topic>)
    ensures !l.present ==> !Restore(e, l, subs).s.present
    decreases |subs|
  {
    if |subs| > 0 { RestoreAbsent(e, SubLink(e, l, subs[0]).s, subs[1..]); }
  }

  /** What the calls of the application answer: IsConnected, that both layers are up; the others, that the state is good and
      the request served over TLS, or for the message loop that it did not break the connection. */
  lemma Answers(e: Env, s: Session, topic: Topic)
    requires Valid(s)
    ensures Do(e, s, AskConnected).r <==> s.link.tls && s.link.mqtt
    ensures var o := Do(e, s, AskConnected); if o.r then o.s == s else !o.s.link.tls && !o.s.link.mqtt && o.s.state == s.state && o.s.subs == s.subs
    ensures var c := Check(e, s); var l := c.s.link; Do(e, s, Subscribe(topic)).r <==> c.r && l.tls && e(l.t)
    ensures var c := Check(e, s); var l := c.s.link; Do(e, s, Unsubscribe(topic)).r <==> c.r && l.tls && e(l.t)
    ensures var c := Check(e, s); var l := c.s.link; Do(e, s, Publish).r <==> c.r && e(l.t) && l.tls && e(l.t + 1)
    ensures var c := Check(e, s); var l := c.s.link; Do(e, s, Loop).r <==> c.r && (e(l.t) || (l.tls && e(l.t + 1)))
  {
    CheckGood(e, s);
  }

  /** What a call that fails in a good state leaves: a request that was not served has taken the MQTT layer down, a message
      too long has not, and a message loop fails only with TLS down.  The session and its topics stay. */
  lemma Failures(e: Env, s: Session, topic: Topic)
    requires Valid(s) && Check(e, s).r
    ensures var o, l := Do(e, s, Subscribe(topic)), Check(e, s).s.link; !o.r ==> !o.s.link.mqtt && o.s.link.accepted == l.accepted
    ensures var o, l := Do(e, s, Unsubscribe(topic)), Check(e, s).s.link; !o.r ==> !o.s.link.mqtt && o.s.link.accepted == l.accepted
    ensures var o, l := Do(e, s, Publish), Check(e, s).s.link;
      !o.r ==> if e(l.t) then !o.s.link.mqtt else o.s.link.tls == l.tls && o.s.link.mqtt == l.mqtt
    ensures var o, l := Do(e, s, Loop), Check(e, s).s.link; !o.r ==> !o.s.link.tls && o.s.link.mqtt == l.mqtt
    ensures forall call :: call in {Subscribe(topic), Unsubscribe(topic), Publish, Loop} ==>
      var o := Do(e, s, call); o.s.state == Connected && (!o.r ==> !o.s.link.present && o.s.subs == s.subs)
  {
    CheckKeeps(e, s);
  }

  /** In a good state the MQTT layer is up. */
  lemma CheckGood(e: Env, s: Session)
    requires Valid(s)
    ensures Check(e, s).r ==> Check(e, s).s.link.mqtt
  {
    if s.state == Connected || s.state == Disconnected {
      var u := IsUp(s.link);
      if !u.r { AgainAccepts(e, u.s, s.subs); }
    }
  }

  // ---------- when CheckState succeeds ----------

  /** All topics are made again if and only if the broker accepts every one, over a connection that stays up until then. */
  lemma {:induction false} RestoreIff(e: Env, l: Link, subs: seq<Topic>)
    requires l.mqtt
    ensures Restore(e, l, subs).r <==> |subs| == 0 || (l.tls && forall i :: l.t <= i < l.t + 2 * |subs| - 1 ==> e(i))
    decreases |subs|
  {
    if |subs| > 0 && Served(e, l) { RestoreIff(e, SubLink(e, l, subs[0]).s, subs[1..]); }
  }

  /** What the environment answers from t on to an attempt at a new connection: authentication, TLS and MQTT succeed, and
      the session is still there or each of n topics is accepted. */
  ghost predicate Welcomes(e: Env, t: nat, persistent: bool, n: nat) {
    && e(t) && e(t + 1) && e(t + 2)
    && ((persistent && e(t + 3)) || forall i :: t + 4 <= i < t + 4 + 2 * n ==> e(i))
  }

  lemma AgainIff(e: Env, l: Link, subs: seq<Topic>)
    requires !l.tls && !l.mqtt
    ensures Again(e, l, subs).r <==> Welcomes(e, l.t, l.persistent, |subs|)
  {
    if e(l.t) {
      var c := ConnectLink(e, l.(t := l.t + 1), !l.persistent);
      if c.r && !c.s.present { RestoreIff(e, c.s, subs); }
    }
  }

  /** A session that has been connected is found good if and only if the connection is still up, which it never is in the
      disconnected state, or a new one is welcome: every call tries again, and makes every topic again. */
  lemma CheckIff(e: Env, s: Session)
    requires Valid(s)
    ensures s.state == Connected ==> (Check(e, s).r <==> (s.link.tls && s.link.mqtt) || Welcomes(e, s.link.t, s.link.persistent, |s.subs|))
    ensures s.state == Disconnected ==> (Check(e, s).r <==> Welcomes(e, s.link.t, s.link.persistent, |s.subs|))
  {
    if s.state == Connected || s.state == Disconnected {
      var u := IsUp(s.link);
      if !u.r { AgainIff(e, u.s, s.subs); }
    }
  }

  /** The first connection: authentication, TLS and MQTT; with persistence on, TLS and MQTT once more. */
  lemma FirstIff(e: Env, s: Session)
    requires Valid(s) && s.state == Initial
    ensures var t := s.link.t;
      Check(e, s).r <==> e(t) && e(t + 1) && e(t + 2) && (s.link.persistent ==> e(t + 5) && e(t + 6))
  {
  }

  /** No state is a dead end: after any calls in any environment, if a session is started, one call is enough once the
      environment is friendly. */
  lemma Recovers(e: Env, calls: seq<Call>)
    ensures var s := Run(e, Fresh(), calls);
      s.state != NoSession && (forall i :: s.link.t <= i ==> e(i)) ==> Check(e, s).r
  {
    EveryRun(e, Fresh(), calls);
    var s := Run(e, Fresh(), calls);
    CheckIff(e, s);
    if s.state == Initial { FirstIff(e, s); }
  }

  /** The connection breaks once, and a topic is refused once after it. */
  ghost function OneRefusal(): Env { i => i != 7 && i != 8 && i != 14 }

  /** Connected, subscribed, lost, connected again, refused: the session is not connected, but the next call makes a third
      connection and the subscription on it. */
  lemma RefusedOnce(topic: Topic)
    ensures var e, calls := OneRefusal(), [Start(false), Subscribe(topic), Loop, Loop];
      var s := Run(e, Fresh(), calls);
      && s.state == Disconnected && s.subs == [topic] && s.link.connections == 2
      && Check(e, s).r && Check(e, s).s.link.connections == 3 && topic in Check(e, s).s.link.accepted
  {
    var e := OneRefusal();
    var s1 := Do(e, Fresh(), Start(false)).s;
    assert s1 == Session(Connected, [], Link(true, true, false, false, 1, {}, 5), [OnConnected]);
    var s2 := Do(e, s1, Subscribe(topic)).s;
    assert s2 == Session(Connected, [topic], Link(true, true, false, false, 1, {topic}, 7), [OnConnected]);
    var s3 := Do(e, s2, Loop).s;
    assert s3 == Session(Connected, [topic], Link(false, true, false, false, 1, {topic}, 9), [OnConnected]);
    var s4 := Do(e, s3, Loop).s;
    LostAndRefused(topic);
    assert s4 == Session(Disconnected, [topic], Link(true, false, false, false, 2, {}, 16), [OnConnected, OnConnectionLost]);
    RunFour(e, Start(false), Subscribe(topic), Loop, Loop);
    Recovers(e, [Start(false), Subscribe(topic), Loop, Loop]);
    CheckReports(e, s4);
    EveryRun(e, Fresh(), [Start(false), Subscribe(topic), Loop, Loop]);
    CheckKeeps(e, s4);
  }

  lemma RunFour(e: Env, a: Call, b: Call, c: Call, d: Call)
    ensures Run(e, Fresh(), [a, b, c, d]) == Do(e, Do(e, Do(e, Do(e, Fresh(), a).s, b).s, c).s, d).s
  {
    var s := Do(e, Fresh(), a).s;
    RunFirst(e, Do(e, Do(e, s, b).s, c).s, d, []);
    RunFirst(e, Do(e, s, b).s, c, [d]);
    RunFirst(e, s, b, [c, d]);
    RunFirst(e, Fresh(), a, [b, c, d]);
    assert [a] + [b, c, d] == [a, b, c, d] && [b] + [c, d] == [b, c, d] && [c] + [d] == [c, d] && [d] + [] == [d];
  }

  lemma RunFirst(e: Env, s: Session, call: Call, calls: seq<Call>)
    ensures Run(e, s, [call] + calls) == Run(e, Do(e, s, call).s, calls)
  {
    assert ([call] + calls)[1..] == calls;
  }

  lemma LostAndRefused(topic: Topic)
    ensures Again(OneRefusal(), Link(false, false, false, false, 1, {topic}, 9), [topic]) == Out(false, Link(true, false, false, false, 2, {}, 16))
  {
    var e := OneRefusal();
    var c := ConnectLink(e, Link(false, false, false, false, 1, {topic}, 10), true);
    assert c == Out(true, Link(true, true, false, false, 2, {}, 14));
    assert Restore(e, c.s, [topic]) == Out(false, c.s.(mqtt := false, t := 16));
  }

  // ---------- the classes ----------

  class Mqtt {
    /** The environment, and how often it has been asked. */
    const env: Env
    var t: nat

    /** m_connection.IsConnected() and m_client.isConnected() */
    var tlsUp: bool
    var mqttUp: bool
    var persistent: bool
    var sessionPresent: bool

    ghost var connections: nat
    ghost var accepted: set<Topic>

    ghost function View(): Link
      reads this
    {
      Link(tlsUp, mqttUp, persistent, sessionPresent, connections, accepted, t)
    }

    constructor (env: Env)
      ensures this.env == env && View() == Link(false, false, true, false, 0, {}, 0)
    {
      this.env := env;
      t, tlsUp, mqttUp, persistent, sessionPresent := 0, false, false, true, false;
      connections, accepted := 0, {};
    }

    /** The next answer. */
    method Ask() returns (r: bool)
      modifies `t
      ensures r == env(old(t)) && t == old(t) + 1
    {
      r := env(t);
      t := t + 1;
    }

    /** A request that needs both layers; the TLS connection may break in it. */
    method Request() returns (ok: bool)
      modifies `t, `tlsUp
      ensures ok == Served(env, old(View())) && View() == old(View()).(tls := old(tlsUp) && env(old(t) + 1), t := old(t) + 2)
    {
      ok := Ask();
      var up := Ask();
      ok := ok && tlsUp && mqttUp;
      tlsUp := tlsUp && up;
    }

    method IsConnected() returns (r: bool)
      modifies `tlsUp, `mqttUp, `sessionPresent
      ensures Out(r, View()) == IsUp(old(View()))
    {
      if !tlsUp {
        if mqttUp {
          mqttUp := false;
          sessionPresent := false;
        }
        return false;
      }
      if !mqttUp {
        tlsUp := false;
        sessionPresent := false;
        return false;
      }
      r := true;
    }

    method OnError() returns (r: bool)
      modifies `sessionPresent
      ensures Out(r, View()) == Failed(old(View()))
    {
      sessionPresent := false;
      r := false;
    }

    method MqttConnect(cleanSession: bool) returns (r: bool)
      modifies this
      ensures Out(r, View()) == MqttUp(env, old(View()), cleanSession)
    {
      var ok := Ask();
      var present := Ask();
      var up := Ask();
      tlsUp := tlsUp && up;
      if !ok {
        r := OnError();
        return;
      }
      mqttUp := true;
      sessionPresent := present && !cleanSession;
      connections := connections + 1;
      if cleanSession { accepted := {}; }
      r := true;
    }

    method ConnectWith(cleanSession: bool) returns (r: bool)
      modifies this
      ensures Out(r, View()) == ConnectLink(env, old(View()), cleanSession)
    {
      var up := IsConnected();
      if up { return true; }
      var tls := Ask();
      if !tls {
        r := OnError();
        return;
      }
      tlsUp := true;
      r := MqttConnect(cleanSession);
      if !r { tlsUp := false; }
    }

    method Disconnect()
      modifies `tlsUp, `mqttUp, `sessionPresent
      ensures View() == old(View()).(tls := false, mqtt := false, present := false)
    {
      if mqttUp { mqttUp := false; }
      tlsUp := false;
      sessionPresent := false;
    }

    method Connect() returns (r: bool)
      modifies this
      ensures Out(r, View()) == FirstConnect(env, old(View()))
    {
      r := ConnectWith(true);
      if !r { return false; }
      if !persistent { return true; }
      Disconnect();
      r := ConnectWith(false);
    }

    method Reconnect() returns (r: bool)
      modifies this
      ensures Out(r, View()) == ConnectLink(env, old(View()), !old(persistent))
    {
      if !persistent {
        r := ConnectWith(true);
        return;
      }
      r := ConnectWith(false);
    }

    method Subscribe(topic: Topic) returns (r: bool)
      modifies this
      ensures Out(r, View()) == SubLink(env, old(View()), topic)
    {
      var ok := Request();
      if !ok {
        mqttUp := false;
        r := OnError();
        return;
      }
      accepted := accepted + {topic};
      r := true;
    }

    method Unsubscribe(topic: Topic) returns (r: bool)
      modifies this
      ensures Out(r, View()) == UnsubLink(env, old(View()), topic)
    {
      var ok := Request();
      if !ok {
        mqttUp := false;
        r := OnError();
        return;
      }
      accepted := accepted - {topic};
      r := true;
    }

    method Publish() returns (r: bool)
      modifies this
      ensures Out(r, View()) == PublishLink(env, old(View()))
    {
      var fits := Ask();
      if !fits {
        r := OnError();
        return;
      }
      var ok := Request();
      if !ok {
        mqttUp := false;
        r := OnError();
        return;
      }
      r := true;
    }

    method RunMessageLoop() returns (r: bool)
      modifies this
      ensures Out(r, View()) == LoopLink(env, old(View()))
    {
      var ok := Ask();
      var up := Ask();
      tlsUp := tlsUp && up;
      if !ok && !tlsUp {
        r := OnError();
        return;
      }
      r := true;
    }
  }

  class Client {
    const client: Mqtt
    var state: State
    var subscriptions: seq<Topic>
    ghost var log: seq<Event>

    ghost function View(): Session
      reads this, client
    {
      Session(state, subscriptions, client.View(), log)
    }

    constructor (env: Env)
      ensures View() == Fresh() && fresh(client) && client.env == env
    {
      client := new Mqtt(env);
      state, subscriptions, log := NoSession, [], [];
    }

    method RestoreSubscriptions() returns (r: bool)
      modifies client
      ensures Out(r, client.View()) == Restore(client.env, old(client.View()), subscriptions)
    {
      var i := 0;
      while i < |subscriptions|
        invariant 0 <= i <= |subscriptions| && subscriptions == old(subscriptions)
        invariant Restore(client.env, client.View(), subscriptions[i..]) == Restore(client.env, old(client.View()), subscriptions)
      {
        r := client.Subscribe(subscriptions[i]);
        if !r { return false; }
        assert subscriptions[i..][1..] == subscriptions[i + 1..];
        i := i + 1;
      }
      r := true;
    }

    method Reconnect() returns (r: bool)
      modifies client
      ensures Out(r, client.View()) == Again(client.env, old(client.View()), subscriptions)
    {
      var ok := client.Ask();
      if ok {
        ok := client.Reconnect();
        if ok {
          if !client.sessionPresent {
            r := RestoreSubscriptions();
            return;
          }
          return true;
        }
      }
      r := false;
    }

    method CheckState() returns (r: bool)
      modifies this, client
      ensures Out(r, View()) == Check(client.env, old(View()))
    {
      if state == NoSession { return false; }
      if state == Initial {
        var ok := client.Ask();
        if ok { ok := client.Connect(); }
        if !ok { return false; }
        state := Connected;
        log := [OnConnected];
        return true;
      }
      var up := client.IsConnected();
      if !up {
        if state == Connected {
          state := Disconnected;
          log := log + [OnConnectionLost];
        }
        var ok := Reconnect();
        if ok {
          state := Connected;
          log := log + [OnConnected];
        }
      }
      return state == Connected;
    }

    method StartSession(persistent: bool)
      modifies this, client
      ensures View() == Do(client.env, old(View()), Start(persistent)).s
    {
      if state == NoSession {
        client.persistent := persistent;
        state := Initial;
        log := [];
        var r := CheckState();
      }
    }

    method EndSession()
      modifies this, client
      ensures View() == Do(client.env, old(View()), End).s
    {
      if state != NoSession {
        client.Disconnect();
        subscriptions := [];
        state := NoSession;
      }
    }

    method IsConnected() returns (r: bool)
      modifies client
      ensures Out(r, View()) == Do(client.env, old(View()), AskConnected)
    {
      r := client.IsConnected();
    }

    method SubscribeTo(topic: Topic) returns (r: bool)
      modifies this, client
      ensures Out(r, View()) == Do(client.env, old(View()), Subscribe(topic))
    {
      r := CheckState();
      if !r { return false; }
      r := client.Subscribe(topic);
      if !r { return false; }
      subscriptions := Insert(subscriptions, topic);
    }

    method UnsubscribeFrom(topic: Topic) returns (r: bool)
      modifies this, client
      ensures Out(r, View()) == Do(client.env, old(View()), Unsubscribe(topic))
    {
      r := CheckState();
      if !r { return false; }
      r := client.Unsubscribe(topic);
      if !r { return false; }
      subscriptions := Erase(subscriptions, topic);
    }

    method Send() returns (r: bool)
      modifies this, client
      ensures Out(r, View()) == Do(client.env, old(View()), Publish)
    {
      r := CheckState();
      if !r { return false; }
      r := client.Publish();
    }

    method RunMessageLoop() returns (r: bool)
      modifies this, client
      ensures Out(r, View()) == Do(client.env, old(View()), Loop)
    {
      r := CheckState();
      if !r { return false; }
      r := client.RunMessageLoop();
    }

    method Call(call: Call)
      modifies this, client
      ensures View() == Do(client.env, old(View()), call).s
    {
      var r: bool;
      match call {
        case Start(persistent) => StartSession(persistent);
        case End => EndSession();
        case AskConnected => r := IsConnected();
        case Subscribe(topic) => r := SubscribeTo(topic);
        case Unsubscribe(topic) => r := UnsubscribeFrom(topic);
        case Publish => r := Send();
        case Loop => r := RunMessageLoop();
      }
    }
  }

  /** The client object, in every run: the machine above, hence alternating events and accepted subscriptions. */
  method Drive(env: Env, calls: seq<Call>) returns (c: Client, ok: bool)
    ensures fresh(c) && Out(ok, c.View()) == Check(env, Run(env, Fresh(), calls)) && Alternating(c.log)
    ensures ok ==> c.state == Connected && (!c.client.persistent ==> forall x :: x in c.subscriptions ==> x in c.client.accepted)
    ensures c.state != NoSession ==> exists i: nat :: Began(env, calls, i) && calls[i].persistent == c.client.persistent
  {
    c := new Client(env);
    var i := 0;
    while i < |calls|
      invariant 0 <= i <= |calls| && fresh(c) && fresh(c.client) && c.client.env == env
      invariant Run(env, c.View(), calls[i..]) == Run(env, Fresh(), calls)
    {
      c.Call(calls[i]);
      assert calls[i..][1..] == calls[i + 1..];
      i := i + 1;
    }
    EveryRun(env, Fresh(), calls);
    CheckKeeps(env, c.View());
    StartDecides(env, calls);
    ok := c.CheckState();
  }
}
