/** The opening handshake of the Python servers (section 4.2.2 of RFC 6455): find the
    `Sec-WebSocket-Key:` line of the request, take the key from it, and answer with
    `101 Switching Protocols` carrying base64(SHA-1(key + magic GUID)). SHA-1, base64 and
    strict UTF-8 decoding are library calls and enter as parameters. */
module Handshake {
  import opened Common
  import opened PyStr

  const KEY_PREFIX: string := "Sec-WebSocket-Key:"
  /** The GUID every server appends to the client's key (section 1.3 of RFC 6455), a bytes literal. */
  const MAGIC: seq<Byte> := Ascii("258EAFA5-E914-47DA-95CA-C5AB0DC85B11")
  const CRLF: string := "\r\n"

  /** How a server cuts the key out of its header line: combined_server.py and
      simple_chat_server.py use `split(':', 1)[1]` (everything after the first colon),
      chat_server.py uses `split(':')[1]` (only the text up to a second colon). */
  datatype KeyRule = AfterFirstColon | BetweenColons

  /** In a key line the first colon is the one closing `Sec-WebSocket-Key`, at index 17. */
  lemma FirstColon(line: string)
    requires StartsWith(line, KEY_PREFIX)
    ensures Find(line, ":") == Some(17)
  {
    assert line[..18] == KEY_PREFIX;
    assert OccursAt(line, ":", 17) by {
      assert line[17..18] == [line[17]];
    }
    forall i: nat | i < 17 ensures !OccursAt(line, ":", i) {
      assert line[i] == KEY_PREFIX[i];
      assert line[i..i + 1] == [line[i]];
    }
  }

  /** The key a server reads from a line that starts with `Sec-WebSocket-Key:`, stripped. */
  function KeyOf(line: string, rule: KeyRule): (key: string)
    requires StartsWith(line, KEY_PREFIX)
    ensures key == [] || (!IsSpace(key[0]) && !IsSpace(key[|key| - 1]))
  {
    FirstColon(line);
    match rule
    case AfterFirstColon => Strip(SplitOnce(line, ":")[1])
    case BetweenColons =>
      assert |Split(line, ":")| >= 2 by {
        assert Split(line, ":") == [line[..17]] + Split(line[18..], ":");
      }
      Strip(Split(line, ":")[1])
  }

  /** With `split(':', 1)` the key is everything after `Sec-WebSocket-Key:`, stripped. */
  lemma KeyAfterFirstColon(line: string)
    requires StartsWith(line, KEY_PREFIX)
    ensures KeyOf(line, AfterFirstColon) == Strip(line[18..])
  {
    FirstColon(line);
  }

  /** With `split(':')` the key is the text after `Sec-WebSocket-Key:` up to the next colon (or
      the end of the line), stripped; that piece holds no colon. */
  lemma KeyBetweenColons(line: string)
    requires StartsWith(line, KEY_PREFIX)
    ensures var rest := line[18..]; var piece := Split(rest, ":")[0];
      && KeyOf(line, BetweenColons) == Strip(piece)
      && |piece| <= |rest| && piece == rest[..|piece|]
      && (forall i: nat :: !OccursAt(piece, ":", i))
      && (|piece| < |rest| ==> rest[|piece|] == ':')
  {
    FirstColon(line);
    var rest := line[18..];
    assert Split(line, ":") == [line[..17]] + Split(rest, ":");
    forall i: nat ensures !OccursAt(Split(rest, ":")[0], ":", i) {
      SplitPiecesAvoidSep(rest, ":", 0, i);
    }
    match Find(rest, ":")
    case None =>
    case Some(j) =>
      assert rest[j..j + 1] == [rest[j]];
  }

  /** The two rules agree on every key line whose value holds no further colon, which is the
      case for every base64 key. */
  lemma RulesAgreeWithoutColon(line: string)
    requires StartsWith(line, KEY_PREFIX)
    requires forall i :: 18 <= i < |line| ==> line[i] != ':'
    ensures KeyOf(line, AfterFirstColon) == KeyOf(line, BetweenColons)
  {
    var rest := line[18..];
    KeyAfterFirstColon(line);
    FirstColon(line);
    assert Split(line, ":") == [line[..17]] + Split(rest, ":");
    forall i | 0 <= i < |rest| ensures rest[i] != ':' {
      assert rest[i] == line[18 + i];
    }
    NoColonNoSplit(rest);
    assert SplitOnce(line, ":")[1] == rest;
    assert Split(line, ":")[1] == rest;
  }

  /** Text without a colon is one piece. */
  lemma NoColonNoSplit(s: string)
    requires forall i :: 0 <= i < |s| ==> s[i] != ':'
    ensures Split(s, ":") == [s]
  {
    forall j: nat ensures !OccursAt(s, ":", j) {
      if j + 1 <= |s| {
        assert s[j..j + 1] == [s[j]];
      }
    }
    assert Find(s, ":") == None;
  }

  /** The key of the first request line that starts with `Sec-WebSocket-Key:`, or None. */
  function SecKey(lines: seq<string>, rule: KeyRule): Option<string> {
    if lines == [] then None
    else if StartsWith(lines[0], KEY_PREFIX) then Some(KeyOf(lines[0], rule))
    else SecKey(lines[1..], rule)
  }

  /** The index of the first line that starts with `Sec-WebSocket-Key:`, or `|lines|` when none does. */
  function KeyLineIndex(lines: seq<string>): (i: nat)
    ensures i <= |lines|
    ensures i < |lines| ==> StartsWith(lines[i], KEY_PREFIX)
    ensures forall j :: 0 <= j < i ==> !StartsWith(lines[j], KEY_PREFIX)
  {
    if lines == [] || StartsWith(lines[0], KEY_PREFIX) then 0
    else
      var i := 1 + KeyLineIndex(lines[1..]);
      assert forall j :: 1 <= j < i ==> lines[j] == lines[1..][j - 1];
      i
  }

  /** With no key line among them, `SecKey` finds nothing. */
  lemma {:induction false} SecKeyNoKey(lines: seq<string>, rule: KeyRule)
    requires forall j :: 0 <= j < |lines| ==> !StartsWith(lines[j], KEY_PREFIX)
    ensures SecKey(lines, rule) == None
  {
    if lines != [] {
      assert forall j :: 0 <= j < |lines| - 1 ==> lines[1..][j] == lines[j + 1];
      SecKeyNoKey(lines[1..], rule);
    }
  }

  /** `SecKey` is None exactly when no line is a key line; otherwise it is the key of the first one. */
  lemma SecKeyFirstMatch(lines: seq<string>, rule: KeyRule)
    ensures SecKey(lines, rule).None? <==> forall i :: 0 <= i < |lines| ==> !StartsWith(lines[i], KEY_PREFIX)
    ensures SecKey(lines, rule).Some? ==>
      exists i :: 0 <= i < |lines| && StartsWith(lines[i], KEY_PREFIX)
        && (forall j :: 0 <= j < i ==> !StartsWith(lines[j], KEY_PREFIX))
        && SecKey(lines, rule).value == KeyOf(lines[i], rule)
  {
    var i := KeyLineIndex(lines);
    if i < |lines| {
      SecKeyAt(lines, rule, i);
    } else {
      SecKeyNoKey(lines, rule);
    }
  }

  /** The search loop of `handle_handshake`: stops at the first key line. */
  method FindSecKey(lines: seq<string>, rule: KeyRule) returns (key: Option<string>)
    ensures key == SecKey(lines, rule)
  {
    key := None;
    var i := 0;
    while i < |lines|
      invariant 0 <= i <= |lines|
      invariant SecKey(lines, rule) == SecKey(lines[i..], rule)
    {
      if StartsWith(lines[i], KEY_PREFIX) {
        key := Some(KeyOf(lines[i], rule));
        return;
      }
      assert lines[i..][1..] == lines[i + 1..];
      i := i + 1;
    }
  }

  /** `Sec-WebSocket-Accept` value: base64 of the SHA-1 digest of the key's bytes followed by the GUID. */
  function AcceptKey(key: string, sha1: seq<Byte> -> seq<Byte>, b64: seq<Byte> -> string): string {
    b64(sha1(Utf8Encode(key) + MAGIC))
  }

  /** The text of the `101 Switching Protocols` response. */
  function Response(accept: string): string {
    "HTTP/1.1 101 Switching Protocols\r\n" + "Upgrade: websocket\r\n" + "Connection: Upgrade\r\n"
    + "Sec-WebSocket-Accept: " + accept + "\r\n" + "\r\n"
  }

  /** `handle_handshake(client, data)`: the bytes sent back, or None where it returns False
      (or, in chat_server.py, raises on invalid UTF-8). A response goes out exactly when the
      request decodes, some line starts with `Sec-WebSocket-Key:` and the first such line
      yields a non-empty key; the response carries that key's accept value. */
  method HandleHandshake(data: seq<Byte>, rule: KeyRule, utf8: seq<Byte> -> Option<string>,
                         sha1: seq<Byte> -> seq<Byte>, b64: seq<Byte> -> string)
    returns (response: Option<seq<Byte>>)
    ensures response.Some? <==>
      utf8(data).Some? && var key := SecKey(Split(utf8(data).value, CRLF), rule); key.Some? && key.value != []
    ensures response.Some? ==>
      response.value == Utf8Encode(Response(AcceptKey(SecKey(Split(utf8(data).value, CRLF), rule).value, sha1, b64)))
  {
    var request := utf8(data);
    if request.None? {
      return None;
    }
    var lines := Split(request.value, CRLF);
    var key := FindSecKey(lines, rule);
    if key.None? || key.value == [] {
      return None;
    }
    var accept := b64(sha1(Utf8Encode(key.value) + MAGIC));
    response := Some(Utf8Encode(Response(accept)));
  }

  /** The key of the first key line is the one `SecKey` finds. */
  lemma {:induction false} SecKeyAt(lines: seq<string>, rule: KeyRule, i: nat)
    requires i < |lines| && StartsWith(lines[i], KEY_PREFIX)
    requires forall j :: 0 <= j < i ==> !StartsWith(lines[j], KEY_PREFIX)
    ensures SecKey(lines, rule) == Some(KeyOf(lines[i], rule))
  {
    if i > 0 {
      assert !StartsWith(lines[0], KEY_PREFIX);
      assert lines[1..][i - 1] == lines[i];
      assert forall j :: 0 <= j < i - 1 ==> lines[1..][j] == lines[j + 1];
      SecKeyAt(lines[1..], rule, i - 1);
    }
  }

  /** A key line whose value is whitespace only yields the empty key, under either rule. */
  lemma BlankKeyLine(line: string, rule: KeyRule)
    requires StartsWith(line, KEY_PREFIX)
    requires forall k :: 18 <= k < |line| ==> IsSpace(line[k])
    ensures KeyOf(line, rule) == []
  {
    var rest := line[18..];
    assert forall k :: 0 <= k < |rest| ==> IsSpace(rest[k]) by {
      forall k | 0 <= k < |rest| ensures IsSpace(rest[k]) {
        assert rest[k] == line[18 + k];
      }
    }
    match rule
    case AfterFirstColon =>
      KeyAfterFirstColon(line);
      StripEmptyIffBlank(rest);
    case BetweenColons =>
      KeyBetweenColons(line);
      BlankPrefix(rest, Split(rest, ":")[0]);
  }

  lemma BlankPrefix(rest: string, piece: string)
    requires |piece| <= |rest| && piece == rest[..|piece|]
    requires forall k :: 0 <= k < |rest| ==> IsSpace(rest[k])
    ensures Strip(piece) == []
  {
    assert forall k :: 0 <= k < |piece| ==> piece[k] == rest[k];
    StripEmptyIffBlank(piece);
  }
}
