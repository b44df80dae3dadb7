/** The client handler of chat_server.py. It shares the registry, the history and the handler's
    shape with the other two Python servers, but its `broadcast` iterates over the live dict:
    the first failed send deletes that client, and the iteration's next step raises
    `RuntimeError` (the dict changed size), so nobody after it is reached, later dead clients
    stay registered, and the error travels to whatever called `broadcast`. Its cleanup also
    differs: it reads the name from the registry, deletes the client first and always
    announces the departure. Send failures are an input: every send to a client in `failing`
    raises. */
module ChatServer {
  import opened Common
  import opened PyStr
  import opened PyChat
  import SnapshotServer

  /** The position of the first client of `r` whose send fails, or `|r|` when none does. */
  function FirstFailing(r: Registry, failing: set<Client>): (k: nat)
    ensures k <= |r|
    ensures forall j :: 0 <= j < k ==> r[j].client !in failing
    ensures k < |r| ==> r[k].client in failing
  {
    if r == [] then 0
    else if r[0].client in failing then 0
    else
      var k := FirstFailing(r[1..], failing);
      assert forall j :: 1 <= j < k + 1 ==> r[j] == r[1..][j - 1];
      k + 1
  }

  /** `broadcast(message)` as written: the clients before the first failing one receive the
      message; that one is deleted and the loop raises (the flag); without a failing client
      everyone receives it and nothing is raised. */
  function AfterLive(s: State, e: Event, failing: set<Client>): (State, bool) {
    var k := FirstFailing(s.clients, failing);
    if k == |s.clients| then (s.(sent := s.sent + Fanout(s.clients, e)), false)
    else (State(Delete(s.clients, s.clients[k].client), s.history, s.sent + Fanout(s.clients[..k], e)), true)
  }

  /** `broadcast(message)` over the live registry. */
  method LiveBroadcast(g: Globals, e: Event, failing: set<Client>) returns (raised: bool)
    requires g.Valid()
    modifies g
    ensures g.Valid() && (g.St(), raised) == AfterLive(old(g.St()), e, failing)
  {
    var i := 0;
    while i < |g.clients|
      invariant 0 <= i <= |g.clients|
      invariant g.clients == old(g.clients) && g.history == old(g.history)
      invariant g.sent == old(g.sent) + Fanout(g.clients[..i], e)
      invariant forall j :: 0 <= j < i ==> g.clients[j].client !in failing
    {
      var client := g.clients[i].client;
      if client in failing {
        WithoutUnique(g.clients, {client});
        g.clients := Delete(g.clients, client);
        // the next step of the `for` loop raises RuntimeError
        return true;
      }
      assert g.clients[..i + 1] == g.clients[..i] + [g.clients[i]];
      FanoutSnoc(g.clients[..i], g.clients[i], e);
      g.sent := g.sent + [Delivery(client, e)];
      i := i + 1;
    }
    assert g.clients[..i] == g.clients;
    return false;
  }

  /** The join block (`if username:`): replay the history to the joiner, log and broadcast the
      join notice, then broadcast the user list. A failed send to the joiner during the replay,
      or a `RuntimeError` out of either broadcast, ends the handler (flag false). */
  function AfterJoin(s: State, c: Client, username: Option<string>, failing: set<Client>): (State, bool) {
    if !Truthy(username) then (s, false)
    else if c in failing && s.history != [] then (s, false)
    else
      var notice := JoinNotice(username.value);
      var s1 := State(s.clients, s.history + [notice], s.sent + Replay(c, s.history));
      var (s2, raised) := AfterLive(s1, notice, failing);
      if raised then (s2, false)
      else
        var (s3, raised') := AfterLive(s2, UserList(Values(s2.clients)), failing);
        (s3, !raised')
  }

  /** One frame of the message loop; a `RuntimeError` out of the broadcast is swallowed by the
      loop's `except Exception`. */
  function AfterChat(s: State, username: string, message: Option<string>, loads: string -> Option<Json>,
                     failing: set<Client>): State
  {
    if message.None? || message.value == [] then s
    else match ChatEvent(username, loads(message.value))
      case None => s
      case Some(e) => AfterLive(s.(history := s.history + [e]), e, failing).0
  }

  /** The `finally` block: a registered client is looked up, deleted, and its departure is logged
      and broadcast under the stored name (empty or not); the user list follows unless that
      broadcast raised. */
  function AfterCleanup(s: State, c: Client, failing: set<Client>): State {
    if !Has(s.clients, c) then s
    else
      var notice := LeaveNotice(Lookup(s.clients, c));
      var s1 := State(Delete(s.clients, c), s.history + [notice], s.sent);
      var (s2, raised) := AfterLive(s1, notice, failing);
      if raised then s2 else AfterLive(s2, UserList(Values(s2.clients)), failing).0
  }

  /** The join block of the handler. */
  method Join(g: Globals, c: Client, username: Option<string>, failing: set<Client>) returns (joined: bool)
    requires g.Valid()
    modifies g
    ensures g.Valid() && (g.St(), joined) == AfterJoin(old(g.St()), c, username, failing)
  {
    if !Truthy(username) {
      return false;
    }
    var i := 0;
    while i < |g.history|
      invariant 0 <= i <= |g.history|
      invariant c in failing ==> i == 0
      invariant g.clients == old(g.clients) && g.history == old(g.history)
      invariant g.sent == old(g.sent) + Replay(c, g.history[..i])
    {
      if c in failing {
        assert Replay(c, []) == [];
        return false;
      }
      assert Replay(c, g.history[..i + 1]) == Replay(c, g.history[..i]) + [Delivery(c, g.history[i])];
      g.sent := g.sent + [Delivery(c, g.history[i])];
      i := i + 1;
    }
    assert g.history[..i] == g.history;
    var notice := JoinNotice(username.value);
    g.history := g.history + [notice];
    var raised := LiveBroadcast(g, notice, failing);
    if raised {
      return false;
    }
    raised := LiveBroadcast(g, UserList(Values(g.clients)), failing);
    joined := !raised;
  }

  /** One frame of the message loop. */
  method Chat(g: Globals, username: string, message: Option<string>, loads: string -> Option<Json>,
              failing: set<Client>)
    requires g.Valid()
    modifies g
    ensures g.Valid() && g.St() == AfterChat(old(g.St()), username, message, loads, failing)
  {
    if message.Some? && message.value != [] {
      var chat := ChatEvent(username, loads(message.value));
      if chat.Some? {
        g.history := g.history + [chat.value];
        var _ := LiveBroadcast(g, chat.value, failing);
      }
    }
  }

  /** The `finally` block of the handler. */
  method Cleanup(g: Globals, c: Client, failing: set<Client>)
    requires g.Valid()
    modifies g
    ensures g.Valid() && g.St() == AfterCleanup(old(g.St()), c, failing)
  {
    if Has(g.clients, c) {
      var name := Lookup(g.clients, c);
      WithoutUnique(g.clients, {c});
      g.clients := Delete(g.clients, c);
      var notice := LeaveNotice(name);
      g.history := g.history + [notice];
      var raised := LiveBroadcast(g, notice, failing);
      if !raised {
        raised := LiveBroadcast(g, UserList(Values(g.clients)), failing);
      }
    }
  }

  /** The clients before position `k` of a registry with unique keys have unique keys. */
  lemma PrefixUnique(r: Registry, k: nat)
    requires UniqueKeys(r) && k <= |r|
    ensures UniqueKeys(r[..k])
  {
    forall a, b | 0 <= a < b < k ensures r[..k][a].client != r[..k][b].client {
      assert r[..k][a] == r[a] && r[..k][b] == r[b];
    }
  }

  /** A live broadcast raises exactly when some registered client fails; exactly the clients
      before the first failing one receive the message, once each; and that client alone is
      removed, every other keeping its place. */
  lemma LiveReach(s: State, e: Event, failing: set<Client>, d: Client)
    requires UniqueKeys(s.clients)
    ensures var t, r, k := AfterLive(s, e, failing).0, s.clients, FirstFailing(s.clients, failing);
      && (AfterLive(s, e, failing).1 <==> exists i :: 0 <= i < |r| && r[i].client in failing)
      && t.history == s.history && UniqueKeys(t.clients)
      && t.clients == (if k == |r| then r else r[..k] + r[k + 1..])
      && To(t.sent, d) == To(s.sent, d) + (if Has(r[..k], d) then [e] else [])
  {
    var t, r, k := AfterLive(s, e, failing).0, s.clients, FirstFailing(s.clients, failing);
    if k < |r| {
      assert r == r[..k] + [r[k]] + r[k + 1..];
      DeleteEntry(r[..k], r[k], r[k + 1..]);
      WithoutUnique(r, {r[k].client});
    } else {
      assert r[..k] == r;
    }
    PrefixUnique(r, k);
    ToConcat(s.sent, Fanout(r[..k], e), d);
    ToFanout(r[..k], e, d);
  }

  /** Where the source falls short: a client after the first failing one gets nothing, and if
      its own send would fail too, it stays registered. */
  lemma LiveMisses(s: State, e: Event, failing: set<Client>, j: nat)
    requires UniqueKeys(s.clients) && FirstFailing(s.clients, failing) < j < |s.clients|
    ensures var t, d := AfterLive(s, e, failing).0, s.clients[j].client;
      To(t.sent, d) == To(s.sent, d) && Has(t.clients, d)
  {
    var r, k, d := s.clients, FirstFailing(s.clients, failing), s.clients[j].client;
    LiveReach(s, e, failing, d);
    assert (r[..k] + r[k + 1..])[j - 1] == r[j];
  }

  /** As long as no registered client fails, the live broadcast does what the snapshot one does. */
  lemma LiveAgrees(s: State, e: Event, failing: set<Client>)
    requires forall i :: 0 <= i < |s.clients| ==> s.clients[i].client !in failing
    ensures AfterLive(s, e, failing) == (SnapshotServer.AfterBroadcast(s, e, failing), false)
  {
    WithoutAbsent(s.clients, failing);
  }

  /** Two healthy-looking clients, the first of which is gone: the snapshot broadcast still
      reaches the second, the live one does not. */
  lemma LiveBroadcastCounterexample(e: Event)
    ensures var s := State([Entry(1, "a"), Entry(2, "b")], [], []);
      && To(AfterLive(s, e, {1}).0.sent, 2) == []
      && To(SnapshotServer.AfterBroadcast(s, e, {1}).sent, 2) == [e]
  {
    var s := State([Entry(1, "a"), Entry(2, "b")], [], []);
    assert FirstFailing(s.clients, {1}) == 0;
    assert s.clients[..0] == [];
    assert Fanout([], e) == [];
    var kept := Without(s.clients, {1});
    assert s.clients[..1] == [Entry(1, "a")];
    assert kept == [Entry(2, "b")];
    assert Fanout(kept, e) == [Delivery(2, e)];
    assert [Delivery(2, e)][..0] == [];
  }

  /** A join with a successful replay goes ahead exactly when no registered client fails. The
      joiner first receives the history; the clients before the first failing one receive the
      notice; the user list, the whole registry, goes out only if nobody failed. */
  lemma JoinLive(s: State, c: Client, username: Option<string>, failing: set<Client>, d: Client)
    requires UniqueKeys(s.clients) && Truthy(username) && (c !in failing || s.history == [])
    ensures var t, r, k := AfterJoin(s, c, username, failing).0, s.clients, FirstFailing(s.clients, failing);
      var notice := JoinNotice(username.value);
      && (AfterJoin(s, c, username, failing).1 <==> k == |r|)
      && t.history == s.history + [notice]
      && t.clients == (if k == |r| then r else r[..k] + r[k + 1..])
      && To(t.sent, d) == To(s.sent, d) + (if d == c then s.history else [])
         + (if Has(r[..k], d) then [notice] else [])
         + (if k == |r| && Has(r, d) then [UserList(Values(r))] else [])
  {
    var r, k := s.clients, FirstFailing(s.clients, failing);
    var notice := JoinNotice(username.value);
    var s1 := State(s.clients, s.history + [notice], s.sent + Replay(c, s.history));
    assert To(s1.sent, d) == To(s.sent, d) + (if d == c then s.history else []) by {
      ToConcat(s.sent, Replay(c, s.history), d);
      ToReplay(c, s.history, d);
    }
    LiveReach(s1, notice, failing, d);
    var s2 := AfterLive(s1, notice, failing).0;
    if k == |r| {
      assert r[..k] == r;
      LiveReach(s2, UserList(Values(r)), failing, d);
    }
  }

  /** A frame is logged and broadcast exactly when it is a chat object; the clients before the
      first failing one receive it, and the error out of the broadcast is swallowed. */
  lemma ChatLive(s: State, username: string, m: string, loads: string -> Option<Json>,
                 failing: set<Client>, d: Client)
    requires UniqueKeys(s.clients) && m != []
    ensures var t, chat := AfterChat(s, username, Some(m), loads, failing), ChatEvent(username, loads(m));
      var r, k := s.clients, FirstFailing(s.clients, failing);
      && (chat.None? ==> t == s)
      && (chat.Some? ==>
            && t.history == s.history + [chat.value]
            && t.clients == (if k == |r| then r else r[..k] + r[k + 1..])
            && To(t.sent, d) == To(s.sent, d) + (if Has(r[..k], d) then [chat.value] else []))
  {
    var chat := ChatEvent(username, loads(m));
    if chat.Some? {
      LiveReach(s.(history := s.history + [chat.value]), chat.value, failing, d);
    }
  }

  /** Cleanup of a registered client deletes it before anything is sent, so it receives
      nothing; the notice carries the stored name and is logged even for an empty name; the
      clients left before the first failing one receive it; the user list, the registry
      without the departing client, follows only if nobody failed. */
  lemma CleanupLive(s: State, c: Client, failing: set<Client>, d: Client)
    requires UniqueKeys(s.clients) && Has(s.clients, c)
    ensures var t, r := AfterCleanup(s, c, failing), Delete(s.clients, c);
      var k, notice := FirstFailing(r, failing), LeaveNotice(Lookup(s.clients, c));
      && t.history == s.history + [notice]
      && !Has(t.clients, c) && To(t.sent, c) == To(s.sent, c)
      && t.clients == (if k == |r| then r else r[..k] + r[k + 1..])
      && To(t.sent, d) == To(s.sent, d)
         + (if Has(r[..k], d) then [notice] else [])
         + (if k == |r| && Has(r, d) then [UserList(Values(r))] else [])
  {
    var r := Delete(s.clients, c);
    var k, notice := FirstFailing(r, failing), LeaveNotice(Lookup(s.clients, c));
    WithoutUnique(s.clients, {c});
    WithoutHas(s.clients, {c}, c);
    var s1 := State(r, s.history + [notice], s.sent);
    CleanupReach(s1, notice, failing, d);
    CleanupReach(s1, notice, failing, c);
  }

  /** The two broadcasts of the cleanup, from the state after the deletion. */
  lemma CleanupReach(s1: State, notice: Event, failing: set<Client>, d: Client)
    requires UniqueKeys(s1.clients)
    ensures var r, k := s1.clients, FirstFailing(s1.clients, failing);
      var s2 := AfterLive(s1, notice, failing).0;
      var t := if AfterLive(s1, notice, failing).1 then s2 else AfterLive(s2, UserList(Values(s2.clients)), failing).0;
      && t.history == s1.history
      && t.clients == (if k == |r| then r else r[..k] + r[k + 1..])
      && (!Has(r, d) ==> !Has(t.clients, d))
      && To(t.sent, d) == To(s1.sent, d)
         + (if Has(r[..k], d) then [notice] else [])
         + (if k == |r| && Has(r, d) then [UserList(Values(r))] else [])
  {
    var r, k := s1.clients, FirstFailing(s1.clients, failing);
    LiveReach(s1, notice, failing, d);
    var s2 := AfterLive(s1, notice, failing).0;
    if k == |r| {
      assert r[..k] == r;
      LiveReach(s2, UserList(Values(r)), failing, d);
    } else if Has(s2.clients, d) {
      var i :| 0 <= i < |s2.clients| && s2.clients[i].client == d;
      if i < k {
        assert s2.clients[i] == r[i];
      } else {
        assert s2.clients[i] == r[i + 1];
      }
    }
  }
}
