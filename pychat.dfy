/** State shared by the three Python chat servers: the `clients` dict from socket to user name
    (kept in insertion order, as Python dicts are), the append-only `chat_history` list, and the
    log of messages the server managed to send, client by client. */
module PyChat {
  import opened Common
  import opened PyStr

  /** A connected socket; only its identity matters. */
  type Client = nat

  /** One `clients[client] = username` item. */
  datatype Entry = Entry(client: Client, name: string)

  /** The dict, in insertion order. */
  type Registry = seq<Entry>

  function Keys(r: Registry): seq<Client> {
    seq(|r|, i requires 0 <= i < |r| => r[i].client)
  }

  /** `list(clients.values())` */
  function Values(r: Registry): seq<string> {
    seq(|r|, i requires 0 <= i < |r| => r[i].name)
  }

  /** `client in clients` */
  predicate Has(r: Registry, c: Client) {
    exists i :: 0 <= i < |r| && r[i].client == c
  }

  /** A dict holds each key once. */
  predicate UniqueKeys(r: Registry) {
    forall i, j :: 0 <= i < j < |r| ==> r[i].client != r[j].client
  }

  /** `clients[client]` */
  function Lookup(r: Registry, c: Client): string
    requires Has(r, c)
  {
    var n := |r| - 1;
    if r[n].client == c then r[n].name
    else
      assert Has(r[..n], c) by {
        var i :| 0 <= i < |r| && r[i].client == c;
        assert r[..n][i].client == c;
      }
      Lookup(r[..n], c)
  }

  /** Under unique keys, looking up the key of an entry gives that entry's name. */
  lemma {:induction false} LookupAt(r: Registry, i: nat)
    requires UniqueKeys(r) && i < |r|
    ensures Lookup(r, r[i].client) == r[i].name
  {
    var n := |r| - 1;
    if i < n {
      assert r[..n][i] == r[i];
      LookupAt(r[..n], i);
    }
  }

  /** `clients[client] = name`: an existing key keeps its place, a new key goes last. */
  function Put(r: Registry, c: Client, name: string): Registry {
    if Has(r, c) then seq(|r|, i requires 0 <= i < |r| => if r[i].client == c then Entry(c, name) else r[i])
    else r + [Entry(c, name)]
  }

  /** After `clients[c] = name` the keys are still unique; a new key is appended at the end,
      an existing one keeps its position. */
  lemma PutKeys(r: Registry, c: Client, name: string)
    requires UniqueKeys(r)
    ensures var p := Put(r, c, name);
      && UniqueKeys(p)
      && (!Has(r, c) ==> p == r + [Entry(c, name)])
      && (Has(r, c) ==> Keys(p) == Keys(r))
  {
    var p := Put(r, c, name);
    if Has(r, c) {
      assert Keys(p) == Keys(r) by {
        forall k | 0 <= k < |r| ensures p[k].client == r[k].client {}
      }
    }
  }

  /** After `clients[c] = name` the keys are the old ones plus `c`. */
  lemma PutHas(r: Registry, c: Client, name: string, d: Client)
    ensures Has(Put(r, c, name), d) <==> Has(r, d) || d == c
  {
    var p := Put(r, c, name);
    if Has(r, d) {
      var k :| 0 <= k < |r| && r[k].client == d;
      assert p[k].client == d;
    }
    if Has(p, d) && d != c {
      var k :| 0 <= k < |p| && p[k].client == d;
      assert r[k].client == d;
    }
    if d == c {
      if Has(r, c) {
        var i :| 0 <= i < |r| && r[i].client == c;
        assert p[i].client == c;
      } else {
        assert p[|r|].client == c;
      }
    }
  }

  /** After `clients[c] = name`, `c` maps to `name` and every other key to what it mapped to. */
  lemma PutLookup(r: Registry, c: Client, name: string, d: Client)
    requires UniqueKeys(r) && (Has(r, d) || d == c)
    ensures Has(Put(r, c, name), d) && Lookup(Put(r, c, name), d) == if d == c then name else Lookup(r, d)
  {
    PutKeys(r, c, name);
    PutHas(r, c, name, d);
    var p := Put(r, c, name);
    if d == c {
      if Has(r, c) {
        var i :| 0 <= i < |r| && r[i].client == c;
        assert p[i] == Entry(c, name);
        LookupAt(p, i);
      } else {
        assert p[|r|] == Entry(c, name);
        LookupAt(p, |r|);
      }
    } else {
      var j :| 0 <= j < |r| && r[j].client == d;
      assert p[j] == r[j];
      LookupAt(p, j);
      LookupAt(r, j);
    }
  }

  /** The dict after `del` of every key in `gone`: the other entries, in their order. */
  function Without(r: Registry, gone: set<Client>): (w: Registry)
    ensures |w| <= |r|
  {
    if r == [] then []
    else
      var n := |r| - 1;
      var w := Without(r[..n], gone);
      if r[n].client in gone then w else w + [r[n]]
  }

  /** `del clients[client]` */
  function Delete(r: Registry, c: Client): Registry {
    Without(r, {c})
  }

  /** An entry survives exactly when it was there and its key is not removed. */
  lemma {:induction false} WithoutMembers(r: Registry, gone: set<Client>, x: Entry)
    ensures x in Without(r, gone) <==> x in r && x.client !in gone
  {
    if r != [] {
      var n := |r| - 1;
      WithoutMembers(r[..n], gone, x);
      assert r == r[..n] + [r[n]];
    }
  }

  /** A key is left exactly when it was there and is not removed. */
  lemma WithoutHas(r: Registry, gone: set<Client>, c: Client)
    ensures Has(Without(r, gone), c) <==> Has(r, c) && c !in gone
  {
    var w := Without(r, gone);
    if Has(w, c) {
      var i :| 0 <= i < |w| && w[i].client == c;
      WithoutMembers(r, gone, w[i]);
    }
    if Has(r, c) && c !in gone {
      var i :| 0 <= i < |r| && r[i].client == c;
      WithoutMembers(r, gone, r[i]);
    }
  }

  /** Removal works piece by piece. */
  lemma {:induction false} WithoutConcat(a: Registry, b: Registry, gone: set<Client>)
    ensures Without(a + b, gone) == Without(a, gone) + Without(b, gone)
    decreases |b|
  {
    if b == [] {
      assert a + b == a;
    } else {
      var ab, n := a + b, |b| - 1;
      assert ab[..|ab| - 1] == a + b[..n];
      assert ab[|ab| - 1] == b[n];
      WithoutConcat(a, b[..n], gone);
      var tail := if b[n].client in gone then [] else [b[n]];
      assert Without(ab, gone) == Without(a + b[..n], gone) + tail;
      assert Without(b, gone) == Without(b[..n], gone) + tail;
    }
  }

  /** Removing keys that are not there changes nothing. */
  lemma {:induction false} WithoutAbsent(r: Registry, gone: set<Client>)
    requires forall i :: 0 <= i < |r| ==> r[i].client !in gone
    ensures Without(r, gone) == r
  {
    if r != [] {
      var n := |r| - 1;
      WithoutAbsent(r[..n], gone);
    }
  }

  /** Removing twice is removing the union. */
  lemma {:induction false} WithoutTwice(r: Registry, f: set<Client>, g: set<Client>)
    ensures Without(Without(r, f), g) == Without(r, f + g)
  {
    if r != [] {
      var n := |r| - 1;
      WithoutTwice(r[..n], f, g);
      var w := Without(r[..n], f);
      if r[n].client !in f {
        assert (w + [r[n]])[..|w|] == w;
      }
    }
  }

  /** Removing keys keeps the keys unique. */
  lemma {:induction false} WithoutUnique(r: Registry, gone: set<Client>)
    requires UniqueKeys(r)
    ensures UniqueKeys(Without(r, gone))
  {
    if r != [] {
      var n := |r| - 1;
      WithoutUnique(r[..n], gone);
      var w := Without(r[..n], gone);
      forall i | 0 <= i < |w| ensures w[i].client != r[n].client {
        WithoutMembers(r[..n], gone, w[i]);
      }
    }
  }

  /** `del` of the key of one entry, when keys are unique, takes out that entry and nothing else. */
  lemma DeleteEntry(a: Registry, x: Entry, b: Registry)
    requires UniqueKeys(a + [x] + b)
    ensures Delete(a + [x] + b, x.client) == a + b
  {
    var r := a + [x] + b;
    assert r[|a|] == x;
    forall i | 0 <= i < |a| ensures a[i].client != x.client {
      assert a[i] == r[i];
    }
    forall i | 0 <= i < |b| ensures b[i].client != x.client {
      assert b[i] == r[|a| + 1 + i];
    }
    WithoutConcat(a + [x], b, {x.client});
    WithoutConcat(a, [x], {x.client});
    WithoutAbsent(a, {x.client});
    WithoutAbsent(b, {x.client});
  }

  /** The messages the Python servers serialise with `json.dumps` and send. */
  datatype Event =
    | UserJoined(username: string, message: string)
    | Chat(username: string, text: Json, timestamp: Json)
    | UserLeft(username: string, message: string)
    | UserList(users: seq<string>)

  /** `{'type': 'user-joined', ...}` with the text "<name> joined the chat room!". */
  function JoinNotice(username: string): Event {
    UserJoined(username, username + " 加入了聊天室！")
  }

  /** `{'type': 'user-left', ...}` with the text "<name> left the chat room!". */
  function LeaveNotice(username: string): Event {
    UserLeft(username, username + " 离开了聊天室！")
  }

  /** One successful `send_ws_message(to, json.dumps(event))`. */
  datatype Delivery = Delivery(to: Client, event: Event)

  /** The shared state of one server: registry, history, and every message sent so far. */
  datatype State = State(clients: Registry, history: seq<Event>, sent: seq<Delivery>)

  /** One message to each client of `r`, in the registry's order. */
  function Fanout(r: Registry, e: Event): seq<Delivery> {
    seq(|r|, i requires 0 <= i < |r| => Delivery(r[i].client, e))
  }

  /** The chat history sent to one client, in order (`for msg in chat_history`). */
  function Replay(c: Client, h: seq<Event>): seq<Delivery> {
    seq(|h|, i requires 0 <= i < |h| => Delivery(c, h[i]))
  }

  /** What client `c` received, in the order it was sent. */
  function To(sent: seq<Delivery>, c: Client): seq<Event> {
    if sent == [] then []
    else
      var n := |sent| - 1;
      To(sent[..n], c) + (if sent[n].to == c then [sent[n].event] else [])
  }

  /** What a client receives from two stretches of sending is what it gets from each, in order. */
  lemma {:induction false} ToConcat(a: seq<Delivery>, b: seq<Delivery>, c: Client)
    ensures To(a + b, c) == To(a, c) + To(b, c)
    decreases |b|
  {
    if b == [] {
      assert a + b == a;
    } else {
      var ab, n := a + b, |b| - 1;
      assert ab[..|ab| - 1] == a + b[..n];
      ToConcat(a, b[..n], c);
    }
  }

  /** A fan-out over a registry with unique keys reaches each registered client exactly once
      and nobody else. */
  lemma {:induction false} ToFanout(r: Registry, e: Event, c: Client)
    requires UniqueKeys(r)
    ensures To(Fanout(r, e), c) == if Has(r, c) then [e] else []
  {
    if r != [] {
      var n := |r| - 1;
      var f := Fanout(r, e);
      assert f[..n] == Fanout(r[..n], e);
      ToFanout(r[..n], e, c);
      if Has(r[..n], c) {
        var i :| 0 <= i < n && r[..n][i].client == c;
        assert r[i].client == c;
      }
      if Has(r, c) && r[n].client != c {
        var i :| 0 <= i < |r| && r[i].client == c;
        assert r[..n][i].client == c;
      }
    }
  }

  /** Replaying a history sends all of it, in order, to that client and nothing to others. */
  lemma {:induction false} ToReplay(c: Client, h: seq<Event>, d: Client)
    ensures To(Replay(c, h), d) == if d == c then h else []
  {
    if h != [] {
      var n := |h| - 1;
      assert Replay(c, h)[..n] == Replay(c, h[..n]);
      ToReplay(c, h[..n], d);
      assert h == h[..n] + [h[n]];
    }
  }

  /** The fan-out over the survivors of a removal grows entry by entry. */
  lemma FanoutSnoc(r: Registry, x: Entry, e: Event)
    ensures Fanout(r + [x], e) == Fanout(r, e) + [Delivery(x.client, e)]
  {
  }

  /** The name a frame registers (`if message: username = message.strip()`): frames that decode
      to nothing or to the empty text register nothing. */
  function Registration(message: Option<string>): Option<string> {
    if message.Some? && message.value != [] then Some(Strip(message.value)) else None
  }

  /** A non-empty frame always registers, and registers the empty name exactly when it is
      whitespace only; such a name counts as false, so no join follows. */
  lemma RegistrationBlank(m: string)
    requires m != []
    ensures Registration(Some(m)).Some?
    ensures Registration(Some(m)).value == [] <==> forall k :: 0 <= k < |m| ==> IsSpace(m[k])
  {
    StripEmptyIffBlank(m);
  }

  /** The `chat_msg` built from a decoded JSON value: only an object whose `type` is the string
      `chat` and that has `message` and `timestamp` gives one (anything else raises KeyError or
      TypeError, or compares unequal); the name is the handler's registered name. */
  function ChatEvent(username: string, msg: Option<Json>): Option<Event> {
    match msg
    case Some(JObj(fields)) =>
      if "type" in fields && fields["type"] == JStr("chat") && "message" in fields && "timestamp" in fields
      then Some(Chat(username, fields["message"], fields["timestamp"]))
      else None
    case _ => None
  }

  /** A handler's `username` counts as true: it was set and is not empty. */
  predicate Truthy(username: Option<string>) {
    username.Some? && username.value != []
  }

  /** The name the registration loop settles on: the first frame that registers one. */
  function FirstName(messages: seq<Option<string>>): Option<string> {
    if messages == [] then None
    else if Registration(messages[0]).Some? then Registration(messages[0])
    else FirstName(messages[1..])
  }

  /** No name is registered exactly when no frame is a non-empty text. */
  lemma {:induction false} FirstNameNone(messages: seq<Option<string>>)
    ensures FirstName(messages).None? <==> forall i :: 0 <= i < |messages| ==> Registration(messages[i]).None?
  {
    if messages != [] {
      FirstNameNone(messages[1..]);
      assert forall i :: 1 <= i < |messages| ==> messages[i] == messages[1..][i - 1];
    }
  }

  /** The name registered is the stripped text of the first non-empty frame. */
  lemma {:induction false} FirstNameAt(messages: seq<Option<string>>, i: nat)
    requires i < |messages| && Registration(messages[i]).Some?
    requires forall j :: 0 <= j < i ==> Registration(messages[j]).None?
    ensures FirstName(messages) == Some(Strip(messages[i].value))
  {
    if i > 0 {
      assert messages[1..][i - 1] == messages[i];
      assert forall j :: 0 <= j < i - 1 ==> messages[1..][j] == messages[j + 1];
      FirstNameAt(messages[1..], i - 1);
    }
  }

  /** The module-level globals of one Python server: the `clients` dict and `chat_history`, plus
      the record of what has been sent. */
  class Globals {
    var clients: Registry
    var history: seq<Event>
    var sent: seq<Delivery>

    ghost predicate Valid()
      reads this
    {
      UniqueKeys(clients)
    }

    function St(): State
      reads this
    {
      State(clients, history, sent)
    }

    /** `clients = {}` and `chat_history = []` at start-up. */
    constructor ()
      ensures Valid() && St() == State([], [], [])
    {
      clients, history, sent := [], [], [];
    }

    /** The registration loop of the client handler over the frames received after the
        handshake, decoded: skips frames that decode to nothing or to the empty text, and at the
        first other one stores its stripped text as the client's name and stops. */
    method ReceiveName(c: Client, messages: seq<Option<string>>) returns (username: Option<string>)
      requires Valid()
      modifies this
      ensures Valid() && username == FirstName(messages)
      ensures clients == if username.Some? then Put(old(clients), c, username.value) else old(clients)
      ensures history == old(history) && sent == old(sent)
    {
      username := None;
      var i := 0;
      while i < |messages|
        invariant 0 <= i <= |messages| && FirstName(messages) == FirstName(messages[i..])
        invariant clients == old(clients)
      {
        var message := messages[i];
        if message.Some? && message.value != [] {
          var name := Strip(message.value);
          assert messages[i..][0] == message;
          PutKeys(clients, c, name);
          clients := Put(clients, c, name);
          username := Some(name);
          return;
        }
        assert messages[i..][1..] == messages[i + 1..];
        i := i + 1;
      }
    }
  }
}
