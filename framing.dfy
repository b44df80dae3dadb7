/** WebSocket base framing as the three Python servers do it (section 5.2 of RFC 6455): the
    server sends unmasked text frames (`send_ws_message`), and reads one frame per buffer,
    unmasking it when the mask bit is set (section 5.3 of RFC 6455, `decode_ws_frame`). */
module Framing {
  import opened Common
  import opened PyStr

  /** First byte of every frame the servers send: FIN set, opcode 1 (text). */
  const FIN_TEXT: Byte := 0x81
  /** Length markers in the second byte: a 16-bit or a 64-bit extended length follows. */
  const LEN16: Byte := 0x7E
  const LEN64: Byte := 0x7F
  /** `length.to_bytes(8, 'big')` only accepts lengths below 2^64. */
  const MAX_PAYLOAD: nat := 0x1_0000_0000_0000_0000

  /** 256 to the power `k`: the number of values `k` bytes can hold. */
  function Pow256(k: nat): (p: nat)
    ensures p >= 1
  {
    if k == 0 then 1 else 0x100 * Pow256(k - 1)
  }

  /** `n.to_bytes(k, 'big')` */
  function ToBytes(n: nat, k: nat): (b: seq<Byte>)
    requires n < Pow256(k)
    ensures |b| == k
  {
    if k == 0 then [] else ToBytes(n / 0x100, k - 1) + [ToByte(n % 0x100)]
  }

  /** `int.from_bytes(b, 'big')` */
  function FromBytes(b: seq<Byte>): (n: nat)
    ensures n < Pow256(|b|)
  {
    if b == [] then 0 else FromBytes(b[..|b| - 1]) * 0x100 + b[|b| - 1] as nat
  }

  /** Reading back the big-endian bytes of `n` gives `n`. */
  lemma {:induction false} FromToBytes(n: nat, k: nat)
    requires n < Pow256(k)
    ensures FromBytes(ToBytes(n, k)) == n
  {
    if k > 0 {
      var b := ToBytes(n, k);
      assert b[..k - 1] == ToBytes(n / 0x100, k - 1);
      FromToBytes(n / 0x100, k - 1);
    }
  }

  /** Size of the header `send_ws_message` writes before a payload of `n` bytes. */
  function HeaderSize(n: nat): nat {
    if n <= 125 then 2 else if n <= 65535 then 4 else 10
  }

  /** The frame `send_ws_message` writes for a payload: `0x81`, then the length in 7 bits, or
      `0x7E` and 16 bits, or `0x7F` and 64 bits, then the payload itself. The mask bit is clear. */
  function EncodeFrame(payload: seq<Byte>): (f: seq<Byte>)
    requires |payload| < MAX_PAYLOAD
    ensures |f| == HeaderSize(|payload|) + |payload|
    ensures f[0] == FIN_TEXT && !HighBit(f[1])
    ensures f[HeaderSize(|payload|)..] == payload
  {
    var n := |payload|;
    assert Pow256(1) == 0x100 && Pow256(2) == 0x1_0000 && Pow256(8) == MAX_PAYLOAD;
    if n <= 125 then
      [FIN_TEXT] + ToBytes(n, 1) + payload
    else if n <= 65535 then [FIN_TEXT, LEN16] + ToBytes(n, 2) + payload
    else [FIN_TEXT, LEN64] + ToBytes(n, 8) + payload
  }

  /** `b & 0x80 != 0`: the top bit (FIN in the first byte, MASK in the second) is set. */
  predicate HighBit(b: Byte) {
    b >= 0x80
  }

  /** `b & 0x7F`: the low seven bits (the payload length field). */
  function Low7(b: Byte): Byte {
    b % 0x80
  }

  /** `b & 0x0F`: the low four bits (the opcode). */
  function Low4(b: Byte): Byte {
    b % 0x10
  }

  /** 2 to the power `k`. */
  function Pow2(k: nat): (p: nat)
    ensures p >= 1
  {
    if k == 0 then 1 else 2 * Pow2(k - 1)
  }

  /** Bitwise exclusive or of the low `k` bits of `a` and `b`, lowest bit first. */
  function XorBits(a: nat, b: nat, k: nat): (r: nat)
    requires a < Pow2(k) && b < Pow2(k)
    ensures r < Pow2(k)
  {
    if k == 0 then 0
    else (if a % 2 == b % 2 then 0 else 1) + 2 * XorBits(a / 2, b / 2, k - 1)
  }

  /** Python's `a ^ b` on two bytes. */
  function Xor(a: Byte, b: Byte): Byte {
    assert Pow2(8) == 0x100;
    XorBits(a as nat, b as nat, 8) as Byte
  }

  lemma {:induction false} XorBitsTwice(a: nat, b: nat, k: nat)
    requires a < Pow2(k) && b < Pow2(k)
    ensures XorBits(XorBits(a, b, k), b, k) == a
  {
    if k > 0 {
      XorBitsTwice(a / 2, b / 2, k - 1);
      var r := XorBits(a, b, k);
      assert r / 2 == XorBits(a / 2, b / 2, k - 1);
      assert r % 2 == (if a % 2 == b % 2 then 0 else 1);
    }
  }

  /** XOR with the same key byte twice gives back the byte. */
  lemma XorTwice(a: Byte, b: Byte)
    ensures Xor(Xor(a, b), b) == a
  {
    assert Pow2(8) == 0x100;
    XorBitsTwice(a as nat, b as nat, 8);
  }

  /** `send_ws_message(client, message)`: the frame carrying the UTF-8 encoding of `message`. */
  function SendWsMessage(message: string): (f: seq<Byte>)
    requires |Utf8Encode(message)| < MAX_PAYLOAD
    ensures var u := Utf8Encode(message); |f| == HeaderSize(|u|) + |u| && f[HeaderSize(|u|)..] == u
  {
    EncodeFrame(Utf8Encode(message))
  }

  /** The length field of a frame follows the payload size: one byte equal to it up to 125,
      `0x7E` and two big-endian bytes up to 65535, `0x7F` and eight big-endian bytes above. */
  lemma LengthField(payload: seq<Byte>)
    requires |payload| < MAX_PAYLOAD
    ensures var f, n := EncodeFrame(payload), |payload|;
      && (n <= 125 ==> f[1] as nat == n)
      && (126 <= n <= 65535 ==> f[1] == LEN16 && FromBytes(f[2..4]) == n)
      && (65535 < n ==> f[1] == LEN64 && FromBytes(f[2..10]) == n)
  {
    var f, n := EncodeFrame(payload), |payload|;
    assert Pow256(1) == 0x100 && Pow256(2) == 0x1_0000 && Pow256(8) == MAX_PAYLOAD;
    if n <= 125 {
      assert f[1..2] == ToBytes(n, 1);
      FromToBytes(n, 1);
      assert FromBytes(f[1..2]) == f[1] as nat by {
        assert f[1..2][..0] == [];
      }
    } else if n <= 65535 {
      assert f[2..4] == ToBytes(n, 2);
      FromToBytes(n, 2);
    } else {
      assert f[2..10] == ToBytes(n, 8);
      FromToBytes(n, 8);
    }
  }

  function Min(a: nat, b: nat): nat {
    if a <= b then a else b
  }

  /** Python's `s[i:j]` for `0 <= i <= j`: indices past the end are cut to the length. */
  function Slice(s: seq<Byte>, i: nat, j: nat): (r: seq<Byte>)
    requires i <= j
    ensures |r| == Min(j, |s|) - Min(i, |s|)
    ensures forall k :: 0 <= k < |r| ==> r[k] == s[i + k]
  {
    s[Min(i, |s|)..Min(j, |s|)]
  }

  /** The fields `decode_ws_frame` reads from the first two bytes and the extended length.
      FIN and opcode are read but play no part in decoding. */
  datatype Header = Header(fin: bool, opcode: Byte, masked: bool, length: nat, maskStart: nat)

  /** The header of a buffer of at least two bytes. A length field of 126 takes bytes 2-3 as the
      length and puts the mask key or payload at offset 4; 127 takes bytes 2-9 and offset 10;
      any other value is the length itself, and offset 2. Missing length bytes read as absent. */
  function ParseHeader(data: seq<Byte>): (h: Header)
    requires |data| >= 2
    ensures h.masked <==> HighBit(data[1])
    ensures Low7(data[1]) == 126 ==> h.maskStart == 4 && h.length == FromBytes(Slice(data, 2, 4))
    ensures Low7(data[1]) == 127 ==> h.maskStart == 10 && h.length == FromBytes(Slice(data, 2, 10))
    ensures Low7(data[1]) < 126 ==> h.maskStart == 2 && h.length == Low7(data[1]) as nat
  {
    var fin, opcode := HighBit(data[0]), Low4(data[0]);
    var masked, len7 := HighBit(data[1]), Low7(data[1]);
    if len7 == 126 then Header(fin, opcode, masked, FromBytes(Slice(data, 2, 4)), 4)
    else if len7 == 127 then Header(fin, opcode, masked, FromBytes(Slice(data, 2, 10)), 10)
    else Header(fin, opcode, masked, len7 as nat, 2)
  }

  /** Byte `i` of the payload XORed with byte `i % 4` of the masking key. */
  function Unmasked(payload: seq<Byte>, mask: seq<Byte>): (r: seq<Byte>)
    requires Min(|payload|, 4) <= |mask|
  {
    seq(|payload|, i requires 0 <= i < |payload| => Xor(payload[i], mask[i % 4]))
  }

  /** The payload bytes `decode_ws_frame` finds in one buffer: None for fewer than two bytes;
      otherwise up to `length` bytes after the header (after the 4-byte key when masked,
      unmasked with it), fewer when the buffer ends first. */
  function PayloadBytes(data: seq<Byte>): Option<seq<Byte>> {
    if |data| < 2 then None
    else
      var h := ParseHeader(data);
      if h.masked then
        var start := h.maskStart + 4;
        Some(Unmasked(Slice(data, start, start + h.length), Slice(data, h.maskStart, start)))
      else
        Some(Slice(data, h.maskStart, h.maskStart + h.length))
  }

  /** The unmasking loop of `decode_ws_frame`: appends `Xor(payload[i], mask[i % 4])` to a
      `bytearray` for each payload byte. */
  method Unmask(payload: seq<Byte>, mask: seq<Byte>) returns (decoded: seq<Byte>)
    requires Min(|payload|, 4) <= |mask|
    ensures |decoded| == |payload|
    ensures forall i :: 0 <= i < |payload| ==> decoded[i] == Xor(payload[i], mask[i % 4])
  {
    decoded := [];
    var i := 0;
    while i < |payload|
      invariant 0 <= i <= |payload| && |decoded| == i
      invariant forall k :: 0 <= k < i ==> decoded[k] == Xor(payload[k], mask[k % 4])
    {
      decoded := decoded + [Xor(payload[i], mask[i % 4])];
      i := i + 1;
    }
  }

  /** `decode_ws_frame` up to the text decoding: the payload bytes of one buffer. */
  method DecodePayload(data: seq<Byte>) returns (r: Option<seq<Byte>>)
    ensures r.None? <==> |data| < 2
    ensures r == PayloadBytes(data)
  {
    if |data| < 2 {
      return None;
    }
    var h := ParseHeader(data);
    if h.masked {
      var mask := Slice(data, h.maskStart, h.maskStart + 4);
      var payloadStart := h.maskStart + 4;
      var payload := Slice(data, payloadStart, payloadStart + h.length);
      var decoded := Unmask(payload, mask);
      assert decoded == Unmasked(payload, mask);
      r := Some(decoded);
    } else {
      r := Some(Slice(data, h.maskStart, h.maskStart + h.length));
    }
  }

  /** `decode_ws_frame` of combined_server.py and simple_chat_server.py: the payload decoded
      with `errors='ignore'` (the decoder is a parameter); None only for a buffer under 2 bytes. */
  method DecodeLossy(data: seq<Byte>, lossy: seq<Byte> -> string) returns (message: Option<string>)
    ensures message.None? <==> |data| < 2
    ensures message.Some? ==> message.value == lossy(PayloadBytes(data).value)
  {
    var bytes := DecodePayload(data);
    match bytes
    case None => message := None;
    case Some(b) => message := Some(lossy(b));
  }

  /** `decode_ws_frame` of chat_server.py: strict UTF-8 decoding (a parameter returning None
      where Python raises `UnicodeDecodeError`); None for a short buffer or invalid UTF-8, and
      otherwise exactly what the decoder made of all the payload bytes. */
  method DecodeStrict(data: seq<Byte>, utf8: seq<Byte> -> Option<string>) returns (message: Option<string>)
    ensures message.Some? <==> |data| >= 2 && utf8(PayloadBytes(data).value).Some?
    ensures message.Some? ==> message == utf8(PayloadBytes(data).value)
  {
    var bytes := DecodePayload(data);
    match bytes
    case None => message := None;
    case Some(b) => message := utf8(b);
  }

  /** Decoding a frame the server built gives back its payload, for every payload size. */
  lemma RoundTrip(payload: seq<Byte>)
    requires |payload| < MAX_PAYLOAD
    ensures PayloadBytes(EncodeFrame(payload)) == Some(payload)
  {
    var f, n := EncodeFrame(payload), |payload|;
    LengthField(payload);
    var h := ParseHeader(f);
    assert !h.masked;
    if n <= 125 {
      assert h.maskStart == 2 && h.length == n;
    } else if n <= 65535 {
      assert Slice(f, 2, 4) == f[2..4];
      assert h.maskStart == 4 && h.length == n;
    } else {
      assert Slice(f, 2, 10) == f[2..10];
      assert h.maskStart == 10 && h.length == n;
    }
    assert Slice(f, h.maskStart, h.maskStart + h.length) == f[HeaderSize(n)..];
  }

  /** The text a server sends comes back as its UTF-8 bytes. */
  lemma MessageRoundTrip(message: string)
    requires |Utf8Encode(message)| < MAX_PAYLOAD
    ensures PayloadBytes(SendWsMessage(message)) == Some(Utf8Encode(message))
  {
    RoundTrip(Utf8Encode(message));
  }

  /** Unmasking twice with the same key gives back the original bytes. */
  lemma UnmaskTwice(payload: seq<Byte>, mask: seq<Byte>)
    requires Min(|payload|, 4) <= |mask|
    ensures Unmasked(Unmasked(payload, mask), mask) == payload
  {
    var once := Unmasked(payload, mask);
    forall i | 0 <= i < |payload| ensures Unmasked(once, mask)[i] == payload[i] {
      XorTwice(payload[i], mask[i % 4]);
    }
  }

  /** A masked payload is as long as the declared length or as the bytes left after the key,
      whichever is smaller; byte `i` is the payload byte XORed with key byte `i % 4`. */
  lemma MaskedPayload(data: seq<Byte>)
    requires |data| >= 2 && HighBit(data[1])
    ensures var h, r := ParseHeader(data), PayloadBytes(data).value;
      var start := h.maskStart + 4;
      && |r| == Min(h.length, if |data| < start then 0 else |data| - start)
      && forall i :: 0 <= i < |r| ==> r[i] == Xor(data[start + i], data[h.maskStart + i % 4])
  {
  }

  /** An unmasked payload is what follows the header, cut at the declared length: never longer. */
  lemma UnmaskedPayload(data: seq<Byte>)
    requires |data| >= 2 && !HighBit(data[1])
    ensures var h, r := ParseHeader(data), PayloadBytes(data).value;
      && |r| == Min(h.length, if |data| < h.maskStart then 0 else |data| - h.maskStart)
      && r == data[Min(h.maskStart, |data|)..Min(h.maskStart + h.length, |data|)]
  {
  }

  /** FIN and opcode play no part: two buffers that differ only in their first byte decode alike,
      so close and ping frames are decoded like text. */
  lemma OpcodeIgnored(data: seq<Byte>, first: Byte)
    requires |data| >= 1
    ensures PayloadBytes([first] + data[1..]) == PayloadBytes(data)
  {
    var other := [first] + data[1..];
    if |data| >= 2 {
      SameHeader(other, data);
      var h := ParseHeader(data);
      var ms := h.maskStart;
      if h.masked {
        SameAfterFirst(other, data, ms, ms + 4);
        SameAfterFirst(other, data, ms + 4, ms + 4 + h.length);
      } else {
        SameAfterFirst(other, data, ms, ms + h.length);
      }
    }
  }

  /** The header fields that decoding uses come from byte 1 onwards. */
  lemma SameHeader(a: seq<Byte>, b: seq<Byte>)
    requires |a| == |b| >= 2 && a[1..] == b[1..]
    ensures var g, h := ParseHeader(a), ParseHeader(b);
      g.masked == h.masked && g.length == h.length && g.maskStart == h.maskStart
  {
    assert a[1] == b[1];
    SameAfterFirst(a, b, 2, 4);
    SameAfterFirst(a, b, 2, 10);
  }

  lemma SameAfterFirst(a: seq<Byte>, b: seq<Byte>, i: nat, j: nat)
    requires |a| == |b| >= 1 && a[1..] == b[1..] && 1 <= i <= j
    ensures Slice(a, i, j) == Slice(b, i, j)
  {
    assert Slice(a, i, j) == a[1..][Min(i, |a|) - 1..Min(j, |a|) - 1];
    assert Slice(b, i, j) == b[1..][Min(i, |b|) - 1..Min(j, |b|) - 1];
  }
}
