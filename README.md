# WebSocket chat servers in Dafny

This project models the core of a small chat room that comes in four server variants.

Three Python servers speak WebSocket by hand:
- `combined_server.py`;
- `simple_chat_server.py`;
- `chat_server.py`.

The fourth, `server.js`, is a Socket.IO server.

The model covers:

- **Framing** (module `Framing`, file `framing.dfy`):
  - `send_ws_message` builds an unmasked text frame (section 5.2 of RFC 6455). The first byte is `0x81`. The length is written in 7 bits, or as `0x7E` plus 16 bits, or as `0x7F` plus 64 bits, big-endian.
  - `decode_ws_frame` reads the header and the extended length. It then unmasks the payload with `mask[i % 4]` (section 5.3 of RFC 6455).
  - The text is then decoded. Two servers decode leniently (`errors='ignore'`). `chat_server.py` decodes strictly and returns None on invalid UTF-8.
- **Handshake** (module `Handshake`, file `handshake.dfy`). `handle_handshake` splits the request at `\r\n` and finds the first `Sec-WebSocket-Key:` line. It then cuts the key out of that line in one of two ways:
  - `combined_server.py` and `simple_chat_server.py` use `split(':', 1)`;
  - `chat_server.py` uses `split(':')`.

  Finally it answers `101 Switching Protocols` with `Sec-WebSocket-Accept = base64(SHA-1(key + GUID))` (section 4.2.2 of RFC 6455).
- **Python string helpers** (module `PyStr`, file `pystr.dfy`): `bytes`, `str.strip`, `startswith`, `find`, `split`, `join` and `encode('utf-8')`.
- **Python chat state** (module `PyChat`, file `pychat.dfy`):
  - the `clients` dict, an insertion-ordered registry from socket to user name;
  - the append-only `chat_history`;
  - the log of every message successfully sent;
  - the name registration loop.
- **`combined_server.py` and `simple_chat_server.py`** (module `SnapshotServer`, file `snapshot_server.dfy`). Their registry and history logic is the same:
  - The broadcast iterates over a snapshot of the keys and deletes every client whose send fails.
  - The join step replays the history, then broadcasts the join notice and the user list.
  - The chat step logs and broadcasts chat objects.
  - The cleanup step broadcasts a leave notice and a user list that omits the departing client, then deletes it.
- **`chat_server.py`** (module `ChatServer`, file `chat_server.dfy`):
  - The broadcast iterates over the live dict. It deletes the first failing client, and the next iteration step raises `RuntimeError`.
  - The cleanup reads the stored name and deletes the entry before anything is sent.
- **`server.js`** (module `SocketIoServer`, file `socketio_server.dfy`): the `onlineUsers` array and the `join`, `sendMessage` and `disconnect` handlers, with everything they emit and to whom.

How the model is set up:

- Each handler step is one atomic step on the shared state.
- A step's send outcomes are an input: the set `failing` of clients whose sends fail during that step.
- Library calls enter as function parameters. These are SHA-1, base64, strict and lenient UTF-8 decoding, and `json.loads`.
- The clock values of a Socket.IO message (`Date.now()` and `toLocaleTimeString()`) enter as a `Stamp` parameter.
- Bytes are the integers 0..255. Python's `&` and `^` on bytes are spelled out as arithmetic.

## Model

| member | source | states |
|---|---|---|
| Framing.EncodeFrame | combined_server.py:21-30 | The frame is the header followed by the payload, and its size is header size plus payload size. The first byte is `0x81` and the mask bit of the second byte is clear. |
| Framing.LengthField | simple_chat_server.py:34-39 | Payloads of up to 125 bytes get one length byte equal to their size. Payloads of 126-65535 bytes get `0x7E` and two big-endian bytes holding the size. Larger payloads get `0x7F` and eight big-endian bytes. |
| Framing.SendWsMessage | chat_server.py:26-38 | The frame carries the UTF-8 encoding of the text, after a header of the size its length class demands. |
| Framing.FromToBytes | combined_server.py:26-30 | Reading back `n.to_bytes(k, 'big')` with `int.from_bytes` gives `n`. |
| Framing.ParseHeader | simple_chat_server.py:87-98 | A header is masked exactly when the top bit of byte 1 is set. A length field of 126 takes bytes 2-3 and puts the mask or payload at 4. A field of 127 takes bytes 2-9 and puts it at 10. Otherwise the field is the length and the start is 2. |
| Framing.Slice | combined_server.py:91-103 | Python slicing: the result is cut at the end of the buffer and holds the bytes from the start index on. |
| Framing.Unmask | combined_server.py:106-108 | The unmasking loop yields one byte per payload byte, with byte `i` equal to `payload[i] XOR mask[i % 4]`. |
| Framing.DecodePayload | combined_server.py:80-113 | The decoder fails exactly when the buffer has fewer than two bytes. Otherwise it yields the payload bytes of the buffer. |
| Framing.DecodeLossy | combined_server.py:80-113 | `decode_ws_frame` with `errors='ignore'` returns None exactly for buffers shorter than two bytes. Otherwise it returns the lenient decoding of the payload. |
| Framing.DecodeStrict | chat_server.py:71-114 | The strict `decode_ws_frame` returns text exactly when the buffer has two bytes and its payload is valid UTF-8, and the text is that decoding. |
| Framing.RoundTrip | combined_server.py:19-32 | For every payload shorter than 2^64 bytes, decoding the frame the server builds gives back exactly that payload. |
| Framing.MessageRoundTrip | chat_server.py:26-38 | Decoding the frame sent for a text gives back that text's UTF-8 bytes. |
| Framing.XorTwice | combined_server.py:108 | XOR with the same key byte twice gives back the byte. |
| Framing.UnmaskTwice | combined_server.py:100-108 | Unmasking twice with the same key is the identity. |
| Framing.MaskedPayload | combined_server.py:100-108 | A masked payload has the length min(declared length, bytes left after the key). Byte `i` is the data byte XORed with key byte `i % 4`. |
| Framing.UnmaskedPayload | simple_chat_server.py:111-114 | An unmasked payload is `data[start:start+length]`. It is never longer than the declared length. |
| Framing.OpcodeIgnored | simple_chat_server.py:85-86 | FIN and opcode play no part: buffers that differ only in their first byte decode alike, so close and ping frames decode as text. |
| Handshake.FirstColon | combined_server.py:55-56 | In a line that starts with `Sec-WebSocket-Key:` the first colon is at index 17. |
| Handshake.KeyOf | chat_server.py:49-50 | The key cut from a key line is stripped: it neither starts nor ends with whitespace. |
| Handshake.KeyAfterFirstColon | combined_server.py:56 | With `split(':', 1)` the key is everything after `Sec-WebSocket-Key:`, stripped. |
| Handshake.KeyBetweenColons | chat_server.py:50 | With `split(':')` the key is the stripped text between the first and second colon, or up to the end of the line when there is no second colon. |
| Handshake.RulesAgreeWithoutColon | chat_server.py:50 | The two rules give the same key whenever the value holds no further colon. |
| Handshake.KeyLineIndex | combined_server.py:54-57 | The index of the first key line, with every earlier line not a key line. |
| Handshake.SecKeyFirstMatch | combined_server.py:52-57 | No key is found exactly when no line starts with `Sec-WebSocket-Key:`. Otherwise the key comes from the first such line. |
| Handshake.SecKeyAt | simple_chat_server.py:52-55 | The first key line determines the key. |
| Handshake.FindSecKey | chat_server.py:47-51 | The search loop with its early `break` returns what the first key line yields. |
| Handshake.HandleHandshake | combined_server.py:46-77 | A response is produced exactly when the request decodes, a key line exists and its key is non-empty. The response is the `101` text carrying base64(SHA-1(UTF-8(key) + GUID)). Otherwise nothing is sent. |
| Handshake.BlankKeyLine | simple_chat_server.py:54-58 | A key line whose value is whitespace only gives the empty key, under either rule, so the handshake fails. |
| PyStr.Strip | combined_server.py:135 | `strip()` leaves text with no whitespace at either end. |
| PyStr.StripKeepsMiddle | combined_server.py:135 | `strip()` returns the slice of the text between its leading and its trailing whitespace. Everything cut off before the slice and after it is whitespace. |
| PyStr.StripEmptyIffBlank | simple_chat_server.py:139 | Stripping leaves nothing exactly when the text is all whitespace. |
| PyStr.Find | combined_server.py:56 | `find` returns the leftmost occurrence, and there is none before it. |
| PyStr.JoinSplit | chat_server.py:44 | Joining the pieces of a split with the separator gives back the text. |
| PyStr.SplitPiecesAvoidSep | chat_server.py:50 | No piece of `split(sep)` contains `sep`. |
| PyStr.SplitOnceAgrees | combined_server.py:56 | `split(sep, 1)` and `split(sep)` agree on the first piece, and `split(sep, 1)` joins back to the text. |
| PyStr.EncodeChar | combined_server.py:21 | A character's UTF-8 bytes are the shortest form. That is 1, 2, 3 or 4 bytes as the code point is below 0x80, 0x800 or 0x10000, or above. Continuation bytes are in 0x80..0xBF and the bytes decode back to the character's code point. |
| PyStr.AsciiEncodesBytewise | combined_server.py:63-64 | ASCII text encodes to one byte per character, with the same values. |
| PyChat.LookupAt | chat_server.py:195 | With unique keys, looking up an entry's key gives that entry's name. |
| PyChat.PutKeys | combined_server.py:136 | `clients[c] = name` keeps keys unique. A new key goes last and an existing key keeps its place. |
| PyChat.PutHas | combined_server.py:136 | After `clients[c] = name` the keys are the old keys plus `c`. |
| PyChat.PutLookup | simple_chat_server.py:140 | After `clients[c] = name`, `c` maps to `name` and every other key to its old name. |
| PyChat.WithoutMembers | combined_server.py:42-43 | An entry survives a removal exactly when it was present and its key is not removed. |
| PyChat.WithoutHas | simple_chat_server.py:24-25 | A key remains exactly when it was present and is not removed. |
| PyChat.WithoutTwice | simple_chat_server.py:24-25 | Removing one set of keys and then another is the same as removing their union. |
| PyChat.WithoutUnique | combined_server.py:42-43 | Deleting keys keeps the keys unique. |
| PyChat.DeleteEntry | chat_server.py:196 | `del` of an entry's key with unique keys takes out that entry alone and keeps the others in order. |
| PyChat.ToFanout | combined_server.py:37-39 | Sending to every client of a unique-key registry reaches each registered client exactly once and nobody else. |
| PyChat.ToReplay | combined_server.py:141-142 | The history replay sends every entry, in order, to the joiner and nothing to anyone else. |
| PyChat.ToConcat | combined_server.py:141-158 | What a client receives from two stretches of sending is what it gets from each, in order. |
| PyChat.RegistrationBlank | simple_chat_server.py:137-141 | A non-empty frame always registers a name. The name is empty exactly when the frame is whitespace only. |
| PyChat.FirstNameNone | combined_server.py:128-137 | No name is registered exactly when no frame decodes to non-empty text. |
| PyChat.FirstNameAt | combined_server.py:128-137 | The registered name is the stripped text of the first frame that decodes to non-empty text. |
| PyChat.Globals.ReceiveName | simple_chat_server.py:132-141 | The registration loop returns the first registered name, stores it under the client (or leaves the dict alone when there is none) and leaves the history and the sends unchanged. |
| SnapshotServer.Broadcast | combined_server.py:35-43 | The loop over a key snapshot leaves the registry equal to the old registry without exactly the failing clients, in order. It sends the message once to each survivor, in registry order. |
| SnapshotServer.RunCompletes | simple_chat_server.py:17-25 | Over unique keys the loop deletes the failing clients and sends to the others, in order. |
| SnapshotServer.BroadcastReach | combined_server.py:37-43 | After a broadcast:<br>- the registry holds exactly the old entries whose client did not fail;<br>- the keys stay unique and the history is unchanged;<br>- each client receives the message exactly when it was registered and did not fail. |
| SnapshotServer.BroadcastSettled | combined_server.py:37-43 | A second broadcast with the same failures removes nobody else. |
| SnapshotServer.Join | combined_server.py:139-158 | The join block computes the state and the outcome its specification function gives. |
| SnapshotServer.JoinDelivers | combined_server.py:139-158 | For a non-empty name whose replay succeeds:<br>- the joiner receives the whole history, in order;<br>- one join notice is appended to the history;<br>- every registered, non-failing client receives the notice and then the user list of the registry's values;<br>- the failing clients are removed. |
| SnapshotServer.BlankNameNoJoin | simple_chat_server.py:137-143 | A whitespace-only first frame stores the empty name, and the join block then changes nothing. |
| SnapshotServer.Chat | simple_chat_server.py:172-186 | One frame of the message loop computes the state its specification function gives. |
| SnapshotServer.ChatDelivers | simple_chat_server.py:175-184 | A frame is logged and broadcast exactly when it is a chat object, and it carries the registered name. The history grows by that entry, and each non-failing client receives it. |
| SnapshotServer.Cleanup | simple_chat_server.py:191-213 | The cleanup computes the state its specification function gives. |
| SnapshotServer.CleanupDelivers | simple_chat_server.py:193-213 | Afterwards the client is absent. With a non-empty name:<br>- one leave notice is appended;<br>- every registered client that does not fail receives the notice and then the user list. This includes the departing client, which is still registered.<br>- the user list omits the departing client and equals the final registry, which is the old one minus the failing clients and the departing one.<br>With an empty name the entry is only deleted. |
| ChatServer.FirstFailing | chat_server.py:18-23 | The position of the first registered client whose send fails. Every client before it succeeds. |
| ChatServer.LiveBroadcast | chat_server.py:17-23 | The loop over the live dict computes the state and the `RuntimeError` flag its specification function gives. |
| ChatServer.LiveReach | chat_server.py:17-23 | The broadcast raises exactly when some registered client fails. Only the first failing client is deleted, and only the clients before it receive the message. The history is unchanged. |
| ChatServer.LiveMisses | chat_server.py:17-23 | A client after the first failing one receives nothing and stays registered. |
| ChatServer.LiveAgrees | chat_server.py:17-23 | With no failing client the live broadcast equals the snapshot broadcast and raises nothing. |
| ChatServer.LiveBroadcastCounterexample | chat_server.py:17-23 | Two clients where the first fails: the live broadcast delivers nothing to the second, while the snapshot one does. |
| ChatServer.Join | chat_server.py:144-163 | The join block computes the state and the outcome its specification function gives. |
| ChatServer.JoinLive | chat_server.py:144-163 | When the replay succeeds:<br>- the joiner gets the whole history;<br>- the join notice is logged;<br>- the join succeeds exactly when no registered client fails its send.<br>Otherwise the `RuntimeError` aborts before the user list. |
| ChatServer.Chat | chat_server.py:172-188 | One frame of the message loop computes the state its specification function gives. |
| ChatServer.ChatLive | chat_server.py:176-186 | A chat object is appended to the history before it is broadcast, and the clients before the first failing one receive it. Any other frame changes nothing. |
| ChatServer.Cleanup | chat_server.py:192-213 | The cleanup computes the state its specification function gives. |
| ChatServer.CleanupLive | chat_server.py:194-213 | The entry is read and deleted before anything is sent, so the departing client receives nothing. A leave notice with the stored name is logged even when that name is empty. The user list equals the remaining registry's values. |
| ChatServer.CleanupReach | chat_server.py:206-213 | The two cleanup broadcasts start from the registry after the deletion and never add a client back. |
| SocketIoServer.IndexOf | server.js:73 | `findIndex` is -1 exactly when no entry has the id. Otherwise it is the first entry with that id. |
| SocketIoServer.FindIndex | server.js:73 | The search loop returns `findIndex`. |
| SocketIoServer.RemoveAt | server.js:76 | `splice(i, 1)` drops entry `i` and keeps every other entry in its order. |
| SocketIoServer.RemoveAtTakesOne | server.js:76 | `splice` takes out exactly one entry: the multiset of entries loses that one and nothing else. |
| SocketIoServer.Relay.Join | server.js:25-56 | `join` appends one entry `{id, name, 'online'}` at the end, with no duplicate check. It then emits `userJoined` with the whole registry to everyone, the welcome to the joiner and the notice to everyone else. |
| SocketIoServer.Relay.SendMessage | server.js:59-68 | `sendMessage` leaves the registry unchanged and emits one `message` to everyone. It throws exactly when the argument is missing or null. |
| SocketIoServer.Relay.Disconnect | server.js:71-92 | For a socket with no entry nothing changes and nothing is emitted. Otherwise the first entry with the id is removed. `userLeft` with the remaining entries, and then the leave message, go to every socket except the one that left. |
| SocketIoServer.JoinInbox | server.js:34-55 | After `join` every socket receives `userJoined` with the registry, new entry last. The joiner then receives only the welcome and every other socket only the notice. |
| SocketIoServer.SendInbox | server.js:59-67 | `sendMessage` reaches every socket once, the sender included. `sender` and `content` are copied unchanged and `type` is `other`. |
| SocketIoServer.LeaveInbox | server.js:73-91 | After `disconnect` every other socket receives the leave list and then the leave message. The departing socket receives nothing. The list is the registry with only the socket's first entry taken out: exactly one entry is removed. |
| SocketIoServer.JoinThenLeave | server.js:27-76 | A socket that joins once and then disconnects leaves the registry as it found it. |
| SocketIoServer.DoubleJoinLeavesEntry | server.js:27-76 | A socket that joins twice gets two entries. One disconnect removes only the first, so an entry under its id stays behind. |

## Left out

- Sockets, `recv`, `send`, `accept`, threads and the unlocked sharing of `clients` between handler threads are not modelled. Each handler step is one atomic step, and send outcomes are the `failing` input.
- Which sends fail is a set per step rather than a verdict per send: a client in `failing` fails every send of that step.
- In server.js, what a socket receives is read off each emission's audience. Connections are not tracked: an `io.emit` counts as reaching every socket id, including ids that disconnected in an earlier step. The one exception is a `disconnect` handler's own emissions, which skip the departing socket because it has already left the namespace.
- SHA-1, `base64.b64encode`, UTF-8 decoding (strict and `errors='ignore'`) and `json.loads` are library code. They enter as function parameters and nothing is proved about them.
- `json.dumps` is not modelled: messages are the `Event` datatype.
- JSON numbers are integers; floating point is not modelled.
- Frames split or coalesced across `recv(1024)` boundaries are left out. The decoder works on one buffer, as the code expects.
- Framing.EncodeFrame: requires a payload shorter than 2^64 bytes, where `to_bytes(8, 'big')` would raise `OverflowError`.
- The `close()` calls are left out.
- In the snapshot servers, a departing client may fail its own send in the cleanup broadcasts. It is then already deleted, and `del ws_clients[client]` (combined_server.py:202) raises `KeyError`, which skips `close()`. The registry ends the same either way, and only the registry is modelled.
- chat_server.py's `UnicodeDecodeError` in the handshake is modelled only by its effect: nothing is sent and no entry is made.
- When the `RuntimeError` from a cleanup broadcast in chat_server.py propagates out of the handler thread, only the skipped user list is modelled.
- The HTTP file server (combined_server.py:230-239), Express static serving and the Socket.IO transport are left out.
- `script.js` is browser decoration with no state logic and is left out.
- `Date.now()` and `toLocaleTimeString()` enter as a `Stamp` parameter.
- `getLocalIP()` and `process.env.PORT` are left out.
- In server.js the `join` username is modelled as a string; other JSON values are not.
- SocketIoServer.Relay.SendMessage: a thrown `TypeError` is reported by the flag. What Socket.IO does with the exception afterwards is not modelled.
- The servers' logging (`print`, `console.log`) is left out.

## Findings

| source | as written | input that shows it | evidently intended | confidence | as-written member | corrected member |
|---|---|---|---|---|---|---|
| chat_server.py:17-23 | `broadcast` iterates over the live `clients` dict and deletes a failing client from it; the next iteration step raises `RuntimeError: dictionary changed size during iteration` | registry `{1: "a", 2: "b"}` where the send to client 1 fails: client 2 never receives the message | every client whose send succeeds receives the message and only failing clients are removed, as in the two other servers, which iterate over `list(clients.keys())` | not executed | ChatServer.LiveBroadcastCounterexample | SnapshotServer.Broadcast |

The as-written behaviour is `ChatServer.LiveBroadcast`, and `ChatServer.LiveMisses` generalises the counterexample. The `ChatServer` handlers keep that broadcast so that they model `chat_server.py` as written. The corrected broadcast is `SnapshotServer.Broadcast`. `SnapshotServer.BroadcastReach` proves the intended property about it. `ChatServer.LiveAgrees` shows that the two broadcasts coincide whenever no send fails.
