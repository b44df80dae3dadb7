/** The client handler of combined_server.py and simple_chat_server.py, one handler step at a
    time. The two files differ only in logging, names and `except` clauses: both broadcast over a
    snapshot of the keys (`list(clients.keys())`), drop a client whose send fails and carry on
    with the rest. Send failures are an input: every send to a client in `failing` raises. */
module SnapshotServer {
  import opened Common
  import opened PyStr
  import opened PyChat

  /** `broadcast_message(message)`: every client whose send fails is deleted, the others receive
      the message once each, in registry order. */
  function AfterBroadcast(s: State, e: Event, failing: set<Client>): State {
    var kept := Without(s.clients, failing);
    State(kept, s.history, s.sent + Fanout(kept, e))
  }

  /** The join block after registration (`if username:`): replay the history to the joiner, log
      and broadcast the join notice, then broadcast the user list. A failing send to the joiner
      during the replay ends the handler (the flag is then false and it goes on to cleanup). */
  function AfterJoin(s: State, c: Client, username: Option<string>, failing: set<Client>): (State, bool) {
    if !Truthy(username) then (s, false)
    else if c in failing && s.history != [] then (s, false)
    else
      var notice := JoinNotice(username.value);
      var s1 := State(s.clients, s.history + [notice], s.sent + Replay(c, s.history));
      var s2 := AfterBroadcast(s1, notice, failing);
      (AfterBroadcast(s2, UserList(Values(s2.clients)), failing), true)
  }

  /** One frame of the message loop: `if message:` then `json.loads`, and a chat object is logged
      and broadcast; anything else is dropped by the `except`. */
  function AfterChat(s: State, username: string, message: Option<string>, loads: string -> Option<Json>,
                     failing: set<Client>): State
  {
    if message.None? || message.value == [] then s
    else match ChatEvent(username, loads(message.value))
      case None => s
      case Some(e) => AfterBroadcast(s.(history := s.history + [e]), e, failing)
  }

  /** The `finally` block: for a registered client with a name, log and broadcast the leave
      notice and then the user list without this client; then delete it. */
  function AfterCleanup(s: State, c: Client, username: Option<string>, failing: set<Client>): State {
    if !Has(s.clients, c) then s
    else
      var s1 :=
        if Truthy(username) then
          var notice := LeaveNotice(username.value);
          var s2 := AfterBroadcast(s.(history := s.history + [notice]), notice, failing);
          AfterBroadcast(s2, UserList(Values(Delete(s2.clients, c))), failing)
        else s;
      s1.(clients := Delete(s1.clients, c))
  }

  /** The broadcast loop run over the keys `keys` still to visit, from the current registry and
      log: a failing key is deleted if still present, any other receives the message. */
  function Run(clients: Registry, sent: seq<Delivery>, keys: seq<Client>, failing: set<Client>, e: Event)
    : (Registry, seq<Delivery>)
    decreases |keys|
  {
    if keys == [] then (clients, sent)
    else if keys[0] in failing then
      Run(if Has(clients, keys[0]) then Delete(clients, keys[0]) else clients, sent, keys[1..], failing, e)
    else Run(clients, sent + [Delivery(keys[0], e)], keys[1..], failing, e)
  }

  /** `broadcast_message(message)` over `list(clients.keys())`. */
  method Broadcast(g: Globals, e: Event, failing: set<Client>)
    requires g.Valid()
    modifies g
    ensures g.Valid() && g.St() == AfterBroadcast(old(g.St()), e, failing)
  {
    var keys := Keys(g.clients);
    ghost var r, before := g.clients, g.sent;
    var i := 0;
    while i < |keys|
      invariant 0 <= i <= |keys|
      invariant Run(g.clients, g.sent, keys[i..], failing, e) == Run(r, before, keys, failing, e)
      invariant g.history == old(g.history)
    {
      var client := keys[i];
      assert keys[i..][0] == client && keys[i..][1..] == keys[i + 1..];
      if client in failing {
        if Has(g.clients, client) {
          g.clients := Delete(g.clients, client);
        }
      } else {
        g.sent := g.sent + [Delivery(client, e)];
      }
      i := i + 1;
    }
    RunCompletes(r, failing, e, before);
    WithoutUnique(r, failing);
  }

  /** Over a registry with unique keys the loop deletes exactly the failing clients and sends to
      the others in order. */
  lemma RunCompletes(r: Registry, failing: set<Client>, e: Event, before: seq<Delivery>)
    requires UniqueKeys(r)
    ensures Run(r, before, Keys(r), failing, e) == (Without(r, failing), before + Fanout(Without(r, failing), e))
  {
    RunFrom(r, 0, failing, e, before);
    assert r[..0] == [] && r[0..] == r && Keys(r)[0..] == Keys(r);
    var done := Without(r[..0], failing);
    assert done == [];
    assert done + r[0..] == r;
    assert before + Fanout(done, e) == before;
  }

  lemma {:induction false} RunFrom(r: Registry, i: nat, failing: set<Client>, e: Event, before: seq<Delivery>)
    requires UniqueKeys(r) && i <= |r|
    ensures var done := Without(r[..i], failing);
      Run(done + r[i..], before + Fanout(done, e), Keys(r)[i..], failing, e)
        == (Without(r, failing), before + Fanout(Without(r, failing), e))
    decreases |r| - i
  {
    if i == |r| {
      assert r[..i] == r && r[i..] == [] && Keys(r)[i..] == [];
      assert Without(r, failing) + [] == Without(r, failing);
    } else {
      BroadcastStep(r, i, failing, e, before);
      var ks := Keys(r)[i..];
      assert ks[0] == r[i].client && ks[1..] == Keys(r)[i + 1..];
      RunFrom(r, i + 1, failing, e, before);
    }
  }

  /** One turn of the broadcast loop, on the registry `r` it started from: the key at `i` is
      still present; deleting it (failed send) or sending to it extends the part already done. */
  lemma BroadcastStep(r: Registry, i: nat, failing: set<Client>, e: Event, before: seq<Delivery>)
    requires UniqueKeys(r) && i < |r|
    ensures var done, next := Without(r[..i], failing), Without(r[..i + 1], failing);
      var cur := done + r[i..];
      && Has(cur, r[i].client)
      && (r[i].client in failing ==> next == done && Delete(cur, r[i].client) == next + r[i + 1..])
      && (r[i].client !in failing ==>
            && cur == next + r[i + 1..]
            && before + Fanout(next, e) == before + Fanout(done, e) + [Delivery(r[i].client, e)])
  {
    var done := Without(r[..i], failing);
    assert r[..i + 1] == r[..i] + [r[i]];
    assert [r[i]][..0] == [];
    WithoutConcat(r[..i], [r[i]], failing);
    var cur := done + r[i..];
    assert cur == done + [r[i]] + r[i + 1..];
    assert cur[|done|] == r[i];
    if r[i].client in failing {
      PartlyDoneUnique(r, i, failing);
      DeleteEntry(done, r[i], r[i + 1..]);
    } else {
      FanoutSnoc(done, r[i], e);
      assert before + (Fanout(done, e) + [Delivery(r[i].client, e)]) == before + Fanout(done, e) + [Delivery(r[i].client, e)];
    }
  }

  /** Midway through the loop the registry still has unique keys. */
  lemma PartlyDoneUnique(r: Registry, i: nat, failing: set<Client>)
    requires UniqueKeys(r) && i <= |r|
    ensures UniqueKeys(Without(r[..i], failing) + r[i..])
  {
    var done := Without(r[..i], failing);
    var cur := done + r[i..];
    forall a, b | 0 <= a < b < |cur| ensures cur[a].client != cur[b].client {
      if a < |done| {
        WithoutMembers(r[..i], failing, cur[a]);
        var k :| 0 <= k < i && r[..i][k] == cur[a];
        if b < |done| {
          WithoutUnique(r[..i], failing);
        } else {
          assert cur[b] == r[i + b - |done|];
        }
      } else {
        assert cur[a] == r[i + a - |done|] && cur[b] == r[i + b - |done|];
      }
    }
  }

  /** The join block of the handler. */
  method Join(g: Globals, c: Client, username: Option<string>, failing: set<Client>) returns (joined: bool)
    requires g.Valid()
    modifies g
    ensures g.Valid() && (g.St(), joined) == AfterJoin(old(g.St()), c, username, failing)
  {
    if !Truthy(username) {
      return false;
    }
    var i := 0;
    while i < |g.history|
      invariant 0 <= i <= |g.history|
      invariant c in failing ==> i == 0
      invariant g.clients == old(g.clients) && g.history == old(g.history)
      invariant g.sent == old(g.sent) + Replay(c, g.history[..i])
    {
      if c in failing {
        assert Replay(c, []) == [];
        return false;
      }
      assert Replay(c, g.history[..i + 1]) == Replay(c, g.history[..i]) + [Delivery(c, g.history[i])];
      g.sent := g.sent + [Delivery(c, g.history[i])];
      i := i + 1;
    }
    assert g.history[..i] == g.history;
    var notice := JoinNotice(username.value);
    g.history := g.history + [notice];
    Broadcast(g, notice, failing);
    Broadcast(g, UserList(Values(g.clients)), failing);
    joined := true;
  }

  /** One frame of the message loop. */
  method Chat(g: Globals, username: string, message: Option<string>, loads: string -> Option<Json>,
              failing: set<Client>)
    requires g.Valid()
    modifies g
    ensures g.Valid() && g.St() == AfterChat(old(g.St()), username, message, loads, failing)
  {
    if message.Some? && message.value != [] {
      var chat := ChatEvent(username, loads(message.value));
      if chat.Some? {
        g.history := g.history + [chat.value];
        Broadcast(g, chat.value, failing);
      }
    }
  }

  /** The `finally` block of the handler. */
  method Cleanup(g: Globals, c: Client, username: Option<string>, failing: set<Client>)
    requires g.Valid()
    modifies g
    ensures g.Valid() && g.St() == AfterCleanup(old(g.St()), c, username, failing)
  {
    if Has(g.clients, c) {
      if Truthy(username) {
        var notice := LeaveNotice(username.value);
        g.history := g.history + [notice];
        Broadcast(g, notice, failing);
        Broadcast(g, UserList(Values(Delete(g.clients, c))), failing);
      }
      WithoutUnique(g.clients, {c});
      g.clients := Delete(g.clients, c);
    }
  }

  /** After a broadcast the registry is the old one minus exactly the failing clients, in the
      same order; each remaining client received the message once, and a failing one nothing. */
  lemma BroadcastReach(s: State, e: Event, failing: set<Client>, d: Client)
    requires UniqueKeys(s.clients)
    ensures var t := AfterBroadcast(s, e, failing);
      && UniqueKeys(t.clients) && t.history == s.history
      && (forall x :: x in t.clients <==> x in s.clients && x.client !in failing)
      && (Has(t.clients, d) <==> Has(s.clients, d) && d !in failing)
      && To(t.sent, d) == To(s.sent, d) + (if Has(s.clients, d) && d !in failing then [e] else [])
  {
    var kept := Without(s.clients, failing);
    forall x ensures x in kept <==> x in s.clients && x.client !in failing {
      WithoutMembers(s.clients, failing, x);
    }
    WithoutUnique(s.clients, failing);
    WithoutHas(s.clients, failing, d);
    ToConcat(s.sent, Fanout(kept, e), d);
    ToFanout(kept, e, d);
  }

  /** A second broadcast with the same failures removes nobody else. */
  lemma BroadcastSettled(r: Registry, failing: set<Client>)
    ensures Without(Without(r, failing), failing) == Without(r, failing)
  {
    WithoutTwice(r, failing, failing);
    assert failing + failing == failing;
  }

  /** A join goes ahead unless the joiner's replay fails. Then the joiner receives the whole
      history, in order, before anything else; the join notice is logged once; and every client
      that stays (the joiner included) receives the notice and then the user list, which is the
      registry minus the failing clients. */
  lemma JoinDelivers(s: State, c: Client, username: Option<string>, failing: set<Client>, d: Client)
    requires UniqueKeys(s.clients) && Truthy(username) && (c !in failing || s.history == [])
    ensures var t := AfterJoin(s, c, username, failing).0;
      var kept := Without(s.clients, failing);
      && AfterJoin(s, c, username, failing).1
      && t.history == s.history + [JoinNotice(username.value)] && t.clients == kept
      && To(t.sent, d) == To(s.sent, d) + (if d == c then s.history else [])
         + (if Has(s.clients, d) && d !in failing then [JoinNotice(username.value), UserList(Values(kept))] else [])
  {
    var notice := JoinNotice(username.value);
    var s1 := State(s.clients, s.history + [notice], s.sent + Replay(c, s.history));
    assert To(s1.sent, d) == To(s.sent, d) + (if d == c then s.history else []) by {
      ToConcat(s.sent, Replay(c, s.history), d);
      ToReplay(c, s.history, d);
    }
    TwoBroadcasts(s1, notice, failing, d);
  }

  /** The join notice and then the user list, broadcast with the same failures. */
  lemma TwoBroadcasts(s: State, e: Event, failing: set<Client>, d: Client)
    requires UniqueKeys(s.clients)
    ensures var kept := Without(s.clients, failing);
      var t := AfterBroadcast(AfterBroadcast(s, e, failing), UserList(Values(kept)), failing);
      && t.clients == kept && t.history == s.history
      && To(t.sent, d) == To(s.sent, d) + (if Has(s.clients, d) && d !in failing then [e, UserList(Values(kept))] else [])
  {
    var kept := Without(s.clients, failing);
    var s2 := AfterBroadcast(s, e, failing);
    BroadcastReach(s, e, failing, d);
    BroadcastReach(s2, UserList(Values(kept)), failing, d);
    BroadcastSettled(s.clients, failing);
  }

  /** A client whose first non-empty frame is whitespace only is stored under the empty name,
      and no join follows. */
  lemma BlankNameNoJoin(s: State, c: Client, messages: seq<Option<string>>, i: nat, failing: set<Client>)
    requires i < |messages| && messages[i].Some? && messages[i].value != []
    requires forall k :: 0 <= k < |messages[i].value| ==> IsSpace(messages[i].value[k])
    requires forall j :: 0 <= j < i ==> Registration(messages[j]).None?
    ensures FirstName(messages) == Some([])
    ensures AfterJoin(s, c, FirstName(messages), failing) == (s, false)
  {
    RegistrationBlank(messages[i].value);
    FirstNameAt(messages, i);
  }

  /** A frame is logged and broadcast exactly when it is a chat object; the entry carries the
      handler's registered name, and every client that stays receives it. */
  lemma ChatDelivers(s: State, username: string, m: string, loads: string -> Option<Json>,
                     failing: set<Client>, d: Client)
    requires UniqueKeys(s.clients) && m != []
    ensures var t := AfterChat(s, username, Some(m), loads, failing);
      var chat := ChatEvent(username, loads(m));
      && (chat.None? ==> t == s)
      && (chat.Some? ==>
            && t.history == s.history + [chat.value]
            && chat.value.Chat? && chat.value.username == username
            && To(t.sent, d) == To(s.sent, d) + (if Has(s.clients, d) && d !in failing then [chat.value] else []))
  {
    var chat := ChatEvent(username, loads(m));
    if chat.Some? {
      BroadcastReach(s.(history := s.history + [chat.value]), chat.value, failing, d);
    }
  }

  /** Cleanup of a registered client removes it. With a name, one leave notice is logged, and
      every client that stays (the departing one included, while it can still be reached)
      receives the notice and then the user list, which is exactly the final registry: the old
      one without the failing clients and without the departing one. Without a name the client
      is deleted silently. */
  lemma CleanupDelivers(s: State, c: Client, username: Option<string>, failing: set<Client>, d: Client)
    requires UniqueKeys(s.clients) && Has(s.clients, c)
    ensures var t := AfterCleanup(s, c, username, failing);
      && !Has(t.clients, c) && UniqueKeys(t.clients)
      && (Truthy(username) ==>
            && t.history == s.history + [LeaveNotice(username.value)]
            && t.clients == Without(s.clients, failing + {c})
            && To(t.sent, d) == To(s.sent, d)
               + (if Has(s.clients, d) && d !in failing then [LeaveNotice(username.value), UserList(Values(t.clients))] else []))
      && (!Truthy(username) ==> t == s.(clients := Delete(s.clients, c)))
  {
    var t := AfterCleanup(s, c, username, failing);
    if Truthy(username) {
      var notice := LeaveNotice(username.value);
      var s1 := s.(history := s.history + [notice]);
      var s2 := AfterBroadcast(s1, notice, failing);
      BroadcastReach(s1, notice, failing, d);
      var list := UserList(Values(Delete(s2.clients, c)));
      BroadcastReach(s2, list, failing, d);
      BroadcastSettled(s.clients, failing);
      WithoutTwice(s.clients, failing, {c});
      WithoutHas(s2.clients, {c}, c);
      WithoutUnique(s2.clients, {c});
    } else {
      WithoutHas(s.clients, {c}, c);
      WithoutUnique(s.clients, {c});
    }
  }
}
