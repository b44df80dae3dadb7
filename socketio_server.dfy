/** The Socket.IO chat server of server.js: the `onlineUsers` array and the `join`,
    `sendMessage` and `disconnect` handlers of one socket, each run as one step. What the
    handlers emit is recorded with its audience: `io.emit` reaches every socket,
    `socket.emit` only the handler's socket, `socket.broadcast.emit` every socket but it. The
    `disconnect` listener runs after its socket has left the namespace, so its `io.emit` calls
    reach every socket but the departing one.
    `Date.now()` and `toLocaleTimeString()` enter as a stamp per message. */
module SocketIoServer {
  import opened Common

  type SocketId = string

  /** One entry of `onlineUsers`: `{id, name, status}`. */
  datatype User = User(id: SocketId, name: string, status: string)

  /** The clock readings a message carries: `Date.now()` and `new Date().toLocaleTimeString()`. */
  datatype Stamp = Stamp(now: int, time: string)

  /** Who an emission reaches. */
  datatype Target = Everyone | Only(socket: SocketId) | AllBut(socket: SocketId)

  /** The two payload shapes: `{user, onlineUsers}` and `{id, sender, content, type, time}`;
      a `sender` or `content` read from a payload that lacks it is `undefined` (None). */
  datatype Payload =
    | Presence(user: string, onlineUsers: seq<User>)
    | Message(id: int, sender: Option<Json>, content: Option<Json>, kind: string, time: string)

  datatype Emission = Emission(target: Target, event: string, payload: Payload)

  const SYSTEM: string := "系统"
  const ONLINE: string := "online"

  /** A message from the system account (`sender: '系统', type: 'system'`). */
  function SystemMessage(text: string, at: Stamp): Payload {
    Message(at.now, Some(JStr(SYSTEM)), Some(JStr(text)), "system", at.time)
  }

  /** "Welcome <name> to the chat room!" */
  function WelcomeText(username: string): string {
    "欢迎 " + username + " 加入聊天室！"
  }

  /** "<name> joined the chat room" */
  function JoinedText(username: string): string {
    username + " 加入了聊天室"
  }

  /** "<name> left the chat room" */
  function LeftText(username: string): string {
    username + " 离开了聊天室"
  }

  predicate Reaches(t: Target, x: SocketId) {
    match t
    case Everyone => true
    case Only(s) => x == s
    case AllBut(s) => x != s
  }

  /** The emissions socket `x` receives, in order. */
  function Inbox(emitted: seq<Emission>, x: SocketId): seq<Emission> {
    if emitted == [] then []
    else
      var n := |emitted| - 1;
      Inbox(emitted[..n], x) + (if Reaches(emitted[n].target, x) then [emitted[n]] else [])
  }

  /** One more emission reaches `x` exactly when its audience includes `x`. */
  lemma InboxSnoc(a: seq<Emission>, e: Emission, x: SocketId)
    ensures Inbox(a + [e], x) == Inbox(a, x) + (if Reaches(e.target, x) then [e] else [])
  {
    assert (a + [e])[..|a|] == a;
  }

  /** The first entry with id `id` is at `i`. */
  lemma IndexOfAt(users: seq<User>, id: SocketId, i: nat)
    requires i < |users| && users[i].id == id
    requires forall j :: 0 <= j < i ==> users[j].id != id
    ensures IndexOf(users, id) == i
  {
  }

  /** The position of the first entry with id `id`, or -1 (`findIndex(user => user.id === id)`). */
  function IndexOf(users: seq<User>, id: SocketId): (i: int)
    ensures -1 <= i < |users|
    ensures i == -1 <==> forall j :: 0 <= j < |users| ==> users[j].id != id
    ensures i >= 0 ==> users[i].id == id && forall j :: 0 <= j < i ==> users[j].id != id
  {
    if users == [] then -1
    else if users[0].id == id then 0
    else
      var i := IndexOf(users[1..], id);
      assert forall j :: 1 <= j < |users| ==> users[j] == users[1..][j - 1];
      if i == -1 then -1 else i + 1
  }

  /** `findIndex`, the loop. */
  method FindIndex(users: seq<User>, id: SocketId) returns (i: int)
    ensures i == IndexOf(users, id)
  {
    var k := 0;
    while k < |users|
      invariant 0 <= k <= |users|
      invariant forall j :: 0 <= j < k ==> users[j].id != id
    {
      if users[k].id == id {
        return k;
      }
      k := k + 1;
    }
    return -1;
  }

  /** `splice(i, 1)`: the entry at `i` is gone, the others keep their order. */
  function RemoveAt(users: seq<User>, i: nat): (r: seq<User>)
    requires i < |users|
    ensures |r| == |users| - 1
    ensures forall j :: 0 <= j < i ==> r[j] == users[j]
    ensures forall j :: i <= j < |r| ==> r[j] == users[j + 1]
  {
    users[..i] + users[i + 1..]
  }

  /** `splice` takes out exactly the one entry: nothing is lost or duplicated. */
  lemma RemoveAtTakesOne(users: seq<User>, i: nat)
    requires i < |users|
    ensures multiset(RemoveAt(users, i)) + multiset{users[i]} == multiset(users)
  {
    assert users == users[..i] + [users[i]] + users[i + 1..];
  }

  /** What `join` emits, given the registry after the push. */
  function JoinEmissions(socket: SocketId, username: string, users: seq<User>, welcomeAt: Stamp, noticeAt: Stamp)
    : seq<Emission>
  {
    [ Emission(Everyone, "userJoined", Presence(username, users)),
      Emission(Only(socket), "message", SystemMessage(WelcomeText(username), welcomeAt)),
      Emission(AllBut(socket), "message", SystemMessage(JoinedText(username), noticeAt)) ]
  }

  /** A property read `message.<key>` on the `sendMessage` argument: JSON null and a missing
      argument (None) throw a TypeError; an object yields its field or `undefined`; any other
      value has no such property. */
  function Field(message: Option<Json>, key: string): Option<Json>
    requires message.Some? && !message.value.JNull?
  {
    match message.value
    case JObj(fields) => if key in fields then Some(fields[key]) else None
    case _ => None
  }

  /** What `sendMessage` emits: one `message` to every socket, or nothing when reading the
      argument throws. */
  function SendEmissions(message: Option<Json>, at: Stamp): seq<Emission> {
    if message.None? || message.value.JNull? then []
    else [Emission(Everyone, "message", Message(at.now, Field(message, "sender"), Field(message, "content"), "other", at.time))]
  }

  /** What `disconnect` of `socket` emits once the entry is gone, given its name and the
      registry left: both `io.emit` calls reach the sockets still connected. */
  function LeaveEmissions(socket: SocketId, username: string, users: seq<User>, at: Stamp): seq<Emission> {
    [ Emission(AllBut(socket), "userLeft", Presence(username, users)),
      Emission(AllBut(socket), "message", SystemMessage(LeftText(username), at)) ]
  }

  /** The server's state: `onlineUsers` and everything emitted so far. */
  class Relay {
    var onlineUsers: seq<User>
    var emitted: seq<Emission>

    constructor ()
      ensures onlineUsers == [] && emitted == []
    {
      onlineUsers := [];
      emitted := [];
    }

    /** `socket.on('join', username => ...)` */
    method Join(socket: SocketId, username: string, welcomeAt: Stamp, noticeAt: Stamp)
      modifies this
      ensures onlineUsers == old(onlineUsers) + [User(socket, username, ONLINE)]
      ensures emitted == old(emitted) + JoinEmissions(socket, username, onlineUsers, welcomeAt, noticeAt)
    {
      onlineUsers := onlineUsers + [User(socket, username, ONLINE)];
      emitted := emitted + [Emission(Everyone, "userJoined", Presence(username, onlineUsers))];
      emitted := emitted + [Emission(Only(socket), "message", SystemMessage(WelcomeText(username), welcomeAt))];
      emitted := emitted + [Emission(AllBut(socket), "message", SystemMessage(JoinedText(username), noticeAt))];
    }

    /** `socket.on('sendMessage', message => ...)`; `thrown` when reading the argument throws. */
    method SendMessage(message: Option<Json>, at: Stamp) returns (thrown: bool)
      modifies this
      ensures thrown <==> message.None? || message.value.JNull?
      ensures onlineUsers == old(onlineUsers)
      ensures emitted == old(emitted) + SendEmissions(message, at)
    {
      if message.None? || message.value.JNull? {
        return true;
      }
      var sender := Field(message, "sender");
      var content := Field(message, "content");
      emitted := emitted + [Emission(Everyone, "message", Message(at.now, sender, content, "other", at.time))];
      return false;
    }

    /** `socket.on('disconnect', () => ...)` */
    method Disconnect(socket: SocketId, at: Stamp)
      modifies this
      ensures var i := IndexOf(old(onlineUsers), socket);
        && (i == -1 ==> onlineUsers == old(onlineUsers) && emitted == old(emitted))
        && (i >= 0 ==>
              && onlineUsers == RemoveAt(old(onlineUsers), i)
              && emitted == old(emitted) + LeaveEmissions(socket, old(onlineUsers)[i].name, onlineUsers, at))
    {
      var i := FindIndex(onlineUsers, socket);
      if i != -1 {
        var username := onlineUsers[i].name;
        onlineUsers := RemoveAt(onlineUsers, i);
        emitted := emitted + [Emission(AllBut(socket), "userLeft", Presence(username, onlineUsers))];
        emitted := emitted + [Emission(AllBut(socket), "message", SystemMessage(LeftText(username), at))];
      }
    }
  }

  /** After `join` every socket receives the `userJoined` list, which is the whole registry
      with the new entry last, and then exactly one system message: the joiner the welcome,
      every other socket the notice. */
  lemma JoinInbox(before: seq<Emission>, socket: SocketId, username: string, users: seq<User>,
                  welcomeAt: Stamp, noticeAt: Stamp, x: SocketId)
    ensures var after := before + JoinEmissions(socket, username, users, welcomeAt, noticeAt);
      Inbox(after, x) == Inbox(before, x)
        + [Emission(Everyone, "userJoined", Presence(username, users))]
        + (if x == socket then [Emission(Only(socket), "message", SystemMessage(WelcomeText(username), welcomeAt))]
           else [Emission(AllBut(socket), "message", SystemMessage(JoinedText(username), noticeAt))])
  {
    var js := JoinEmissions(socket, username, users, welcomeAt, noticeAt);
    assert before + js == before + [js[0]] + [js[1]] + [js[2]];
    InboxSnoc(before, js[0], x);
    InboxSnoc(before + [js[0]], js[1], x);
    InboxSnoc(before + [js[0]] + [js[1]], js[2], x);
  }

  /** `sendMessage` with a readable argument reaches every socket, the sender included, once,
      with `sender` and `content` copied and type `other`; the registry is not touched. */
  lemma SendInbox(before: seq<Emission>, message: Json, at: Stamp, x: SocketId)
    requires !message.JNull?
    ensures var e := Emission(Everyone, "message", Message(at.now, Field(Some(message), "sender"),
                                                           Field(Some(message), "content"), "other", at.time));
      && Inbox(before + SendEmissions(Some(message), at), x) == Inbox(before, x) + [e]
      && (message.JObj? && "sender" in message.fields ==> e.payload.sender == Some(message.fields["sender"]))
      && (message.JObj? && "content" in message.fields ==> e.payload.content == Some(message.fields["content"]))
  {
    var es := SendEmissions(Some(message), at);
    InboxSnoc(before, es[0], x);
  }

  /** `disconnect` of a socket with an entry sends every other socket the leave list, which is
      the registry with exactly the socket's first entry taken out, and then the leave message;
      the departing socket receives nothing. */
  lemma LeaveInbox(before: seq<Emission>, users: seq<User>, socket: SocketId, at: Stamp, x: SocketId)
    requires IndexOf(users, socket) >= 0
    ensures var i := IndexOf(users, socket); var left := RemoveAt(users, i);
      var es := LeaveEmissions(socket, users[i].name, left, at);
      && (x != socket ==> Inbox(before + es, x) == Inbox(before, x) + es)
      && (x == socket ==> Inbox(before + es, x) == Inbox(before, x))
      && es[0].payload.onlineUsers == left
      && multiset(left) + multiset{users[i]} == multiset(users)
  {
    var i := IndexOf(users, socket);
    var es := LeaveEmissions(socket, users[i].name, RemoveAt(users, i), at);
    assert before + es == before + [es[0]] + [es[1]];
    InboxSnoc(before, es[0], x);
    InboxSnoc(before + [es[0]], es[1], x);
    RemoveAtTakesOne(users, i);
  }

  /** Entries appended behind a registry without `id` are found right after it. */
  lemma IndexOfAppend(users: seq<User>, tail: seq<User>, id: SocketId)
    requires IndexOf(users, id) == -1 && tail != [] && tail[0].id == id
    ensures IndexOf(users + tail, id) == |users|
  {
    var joined := users + tail;
    forall j | 0 <= j < |users| ensures joined[j].id != id {
      assert joined[j] == users[j];
    }
    IndexOfAt(joined, id, |users|);
  }

  lemma RemoveLast(users: seq<User>, u: User)
    ensures RemoveAt(users + [u], |users|) == users
  {
    assert (users + [u])[..|users|] == users;
  }

  /** A socket that joins once and then disconnects leaves the registry as it found it. */
  lemma JoinThenLeave(users: seq<User>, socket: SocketId, username: string)
    requires IndexOf(users, socket) == -1
    ensures var joined := users + [User(socket, username, ONLINE)];
      IndexOf(joined, socket) == |users| && RemoveAt(joined, |users|) == users
  {
    IndexOfAppend(users, [User(socket, username, ONLINE)], socket);
    RemoveLast(users, User(socket, username, ONLINE));
  }

  /** A socket that joins twice has two entries and its one disconnect removes only the first,
      so an entry under its id stays behind. */
  lemma DoubleJoinLeavesEntry(users: seq<User>, socket: SocketId, first: string, second: string)
    requires IndexOf(users, socket) == -1
    ensures var joined := users + [User(socket, first, ONLINE), User(socket, second, ONLINE)];
      && IndexOf(joined, socket) == |users|
      && RemoveAt(joined, |users|) == users + [User(socket, second, ONLINE)]
      && IndexOf(users + [User(socket, second, ONLINE)], socket) == |users|
  {
    var joined := users + [User(socket, first, ONLINE), User(socket, second, ONLINE)];
    IndexOfAppend(users, [User(socket, first, ONLINE), User(socket, second, ONLINE)], socket);
    assert joined[..|users|] == users && joined[|users| + 1..] == [User(socket, second, ONLINE)];
    IndexOfAppend(users, [User(socket, second, ONLINE)], socket);
  }
}
