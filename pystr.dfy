/** The Python `str` and `bytes` operations the chat servers rely on: whitespace and `strip()`,
    `startswith`, `split(sep)` and `split(sep, 1)`, and `encode('utf-8')`. */
module PyStr {
  import opened Common

  /** An element of a Python `bytes` object: an integer in 0..255. */
  newtype Byte = x: int | 0 <= x < 0x100

  /** The byte with value `n`. */
  function ToByte(n: int): (b: Byte)
    requires 0 <= n < 0x100
    ensures b as int == n
  {
    n as Byte
  }

  /** `str.isspace()` for one character: the characters Python counts as whitespace (bidirectional
      class WS, B or S, or general category Zs). */
  predicate IsSpace(c: char) {
    var v := c as int;
    (0x09 <= v <= 0x0D) || (0x1C <= v <= 0x20) || v == 0x85 || v == 0xA0 || v == 0x1680
    || (0x2000 <= v <= 0x200A) || v == 0x2028 || v == 0x2029 || v == 0x202F || v == 0x205F || v == 0x3000
  }

  /** `s.lstrip()`: drops the leading whitespace and nothing else. */
  function TrimStart(s: string): (r: string)
    ensures |r| <= |s| && r == s[|s| - |r|..]
    ensures forall k :: 0 <= k < |s| - |r| ==> IsSpace(s[k])
    ensures r == [] || !IsSpace(r[0])
  {
    if s != [] && IsSpace(s[0]) then TrimStart(s[1..]) else s
  }

  /** `s.rstrip()`: drops the trailing whitespace and nothing else. */
  function TrimEnd(s: string): (r: string)
    ensures |r| <= |s| && r == s[..|r|]
    ensures forall k :: |r| <= k < |s| ==> IsSpace(s[k])
    ensures r == [] || !IsSpace(r[|r| - 1])
  {
    if s != [] && IsSpace(s[|s| - 1]) then TrimEnd(s[..|s| - 1]) else s
  }

  /** `s.strip()`: `s` without its leading and trailing whitespace (`rstrip` then `lstrip`);
      what is left neither starts nor ends with whitespace. */
  function Strip(s: string): (r: string)
    ensures |r| <= |s|
    ensures r == [] || (!IsSpace(r[0]) && !IsSpace(r[|r| - 1]))
  {
    var t := TrimEnd(s);
    var r := TrimStart(t);
    assert r != [] ==> r[|r| - 1] == t[|t| - 1];
    r
  }

  /** `strip()` cuts whitespace from the two ends and nothing else: the result is the stretch
      of `s` that starts after the leading whitespace and ends before the trailing whitespace. */
  lemma StripKeepsMiddle(s: string)
    ensures var r := Strip(s); var a := |TrimEnd(s)| - |r|;
      && 0 <= a && a + |r| <= |s| && r == s[a..a + |r|]
      && (forall k :: 0 <= k < a ==> IsSpace(s[k]))
      && (forall k :: a + |r| <= k < |s| ==> IsSpace(s[k]))
  {
    var t := TrimEnd(s);
    assert Strip(s) == TrimStart(t);
    MiddleOf(s, t, TrimStart(t));
  }

  /** A suffix `r` of a prefix `t` of `s`, with whitespace only outside it, is a slice of `s`
      with whitespace only outside it. */
  lemma MiddleOf(s: string, t: string, r: string)
    requires |t| <= |s| && t == s[..|t|] && forall k :: |t| <= k < |s| ==> IsSpace(s[k])
    requires |r| <= |t| && r == t[|t| - |r|..] && forall k :: 0 <= k < |t| - |r| ==> IsSpace(t[k])
    ensures var a := |t| - |r|;
      && a + |r| <= |s| && r == s[a..a + |r|]
      && (forall k :: 0 <= k < a ==> IsSpace(s[k]))
      && (forall k :: a + |r| <= k < |s| ==> IsSpace(s[k]))
  {
    var a := |t| - |r|;
    assert r == s[a..a + |r|] by {
      assert s[..|t|][a..] == s[a..|t|];
    }
    forall k | 0 <= k < a ensures IsSpace(s[k]) {
      assert s[k] == t[k];
    }
  }

  /** Stripping leaves nothing exactly when the text is all whitespace. */
  lemma StripEmptyIffBlank(s: string)
    ensures Strip(s) == [] <==> forall k :: 0 <= k < |s| ==> IsSpace(s[k])
  {
    var t := TrimEnd(s);
    if Strip(s) != [] {
      var r := Strip(s);
      assert r == t[|t| - |r|..];
      assert r[0] == s[|t| - |r|];
    }
  }

  /** `s.startswith(prefix)` */
  predicate StartsWith(s: string, prefix: string) {
    |prefix| <= |s| && s[..|prefix|] == prefix
  }

  /** `sep` occurs in `s` at index `i`. */
  predicate OccursAt(s: string, sep: string, i: nat) {
    i + |sep| <= |s| && s[i..i + |sep|] == sep
  }

  /** An occurrence at `i > 0` is an occurrence at `i - 1` in the tail. */
  lemma OccursAtTail(s: string, sep: string, i: nat)
    requires 1 <= i <= |s|
    ensures OccursAt(s, sep, i) <==> OccursAt(s[1..], sep, i - 1)
  {
    if i + |sep| <= |s| {
      var a, b := s[i..i + |sep|], s[1..][i - 1..i - 1 + |sep|];
      assert |a| == |b|;
      forall m | 0 <= m < |a| ensures a[m] == b[m] {
        assert a[m] == s[i + m];
      }
      assert a == b;
    }
  }

  /** `s.find(sep)`, with None for -1: the leftmost occurrence of `sep`. */
  function Find(s: string, sep: string): (r: Option<nat>)
    requires |sep| > 0
    ensures r.Some? ==> OccursAt(s, sep, r.value)
    ensures forall i: nat :: i < (if r.Some? then r.value else |s|) ==> !OccursAt(s, sep, i)
    decreases |s|
  {
    if |s| < |sep| then None
    else if s[..|sep|] == sep then Some(0)
    else
      var r := Find(s[1..], sep);
      forall i: nat | 1 <= i <= |s| ensures OccursAt(s, sep, i) <==> OccursAt(s[1..], sep, i - 1) {
        OccursAtTail(s, sep, i);
      }
      match r
      case None => None
      case Some(i) => Some(i + 1)
  }

  /** `s.split(sep)`: the pieces between the leftmost non-overlapping occurrences of `sep`. */
  function Split(s: string, sep: string): (parts: seq<string>)
    requires |sep| > 0
    ensures |parts| >= 1
    decreases |s|
  {
    match Find(s, sep)
    case None => [s]
    case Some(i) => [s[..i]] + Split(s[i + |sep|..], sep)
  }

  /** `s.split(sep, 1)`: the part before the first `sep` and everything after it. */
  function SplitOnce(s: string, sep: string): (parts: seq<string>)
    requires |sep| > 0
    ensures 1 <= |parts| <= 2
    ensures |parts| == 2 <==> Find(s, sep).Some?
  {
    match Find(s, sep)
    case None => [s]
    case Some(i) => [s[..i], s[i + |sep|..]]
  }

  /** `sep.join(parts)` */
  function Join(parts: seq<string>, sep: string): string {
    if parts == [] then ""
    else if |parts| == 1 then parts[0]
    else parts[0] + sep + Join(parts[1..], sep)
  }

  /** Joining the pieces of a split with the same separator gives back the original text. */
  lemma {:induction false} JoinSplit(s: string, sep: string)
    requires |sep| > 0
    ensures Join(Split(s, sep), sep) == s
    decreases |s|
  {
    match Find(s, sep)
    case None =>
    case Some(i) =>
      var rest := s[i + |sep|..];
      var tail := Split(rest, sep);
      JoinSplit(rest, sep);
      assert Split(s, sep) == [s[..i]] + tail;
      assert ([s[..i]] + tail)[1..] == tail;
      assert Join([s[..i]] + tail, sep) == s[..i] + sep + Join(tail, sep);
      assert s[i..i + |sep|] == sep;
      assert s == s[..i] + s[i..i + |sep|] + rest;
  }

  /** No piece of a split contains the separator. */
  lemma {:induction false} SplitPiecesAvoidSep(s: string, sep: string, k: nat, i: nat)
    requires |sep| > 0 && k < |Split(s, sep)|
    ensures !OccursAt(Split(s, sep)[k], sep, i)
    decreases |s|
  {
    match Find(s, sep)
    case None =>
    case Some(j) =>
      if k == 0 {
        if OccursAt(s[..j], sep, i) {
          assert s[..j][i..i + |sep|] == s[i..i + |sep|];
          assert OccursAt(s, sep, i);
        }
      } else {
        SplitPiecesAvoidSep(s[j + |sep|..], sep, k - 1, i);
      }
  }

  /** `split(sep, 1)` agrees with `split(sep)` on the first piece, and joins back to the original. */
  lemma SplitOnceAgrees(s: string, sep: string)
    requires |sep| > 0
    ensures SplitOnce(s, sep)[0] == Split(s, sep)[0]
    ensures Join(SplitOnce(s, sep), sep) == s
  {
    match Find(s, sep)
    case None =>
    case Some(i) => assert s == s[..i] + sep + s[i + |sep|..];
  }

  /** The value of a well-formed 1- to 4-byte UTF-8 sequence. */
  function CodePoint(b: seq<Byte>): int
    requires 1 <= |b| <= 4
  {
    if |b| == 1 then b[0] as int
    else if |b| == 2 then (b[0] as int - 0xC0) * 0x40 + (b[1] as int - 0x80)
    else if |b| == 3 then (b[0] as int - 0xE0) * 0x1000 + (b[1] as int - 0x80) * 0x40 + (b[2] as int - 0x80)
    else (b[0] as int - 0xF0) * 0x40000 + (b[1] as int - 0x80) * 0x1000 + (b[2] as int - 0x80) * 0x40
         + (b[3] as int - 0x80)
  }

  /** The UTF-8 encoding of one character: one byte below 0x80, otherwise a lead byte followed
      by continuation bytes in 0x80..0xBF, which together carry the character's value. */
  function EncodeChar(c: char): (r: seq<Byte>)
    ensures 1 <= |r| <= 4
    ensures |r| == 1 <==> c as int < 0x80
    ensures |r| > 1 ==> 0xC0 <= r[0] as int && forall k :: 1 <= k < |r| ==> 0x80 <= r[k] as int < 0xC0
    ensures CodePoint(r) == c as int
    ensures |r| == (if c as int < 0x80 then 1 else if c as int < 0x800 then 2 else if c as int < 0x10000 then 3 else 4)
  {
    var v := c as int;
    if v < 0x80 then [ToByte(v)]
    else if v < 0x800 then EncodeTwo(v)
    else if v < 0x10000 then EncodeThree(v)
    else EncodeFour(v)
  }

  /** `v` without its low six bits. */
  function Shift6(v: nat): (q: nat)
    ensures q * 0x40 <= v < q * 0x40 + 0x40
  {
    v / 0x40
  }

  /** The low six bits of `v`, the payload of one continuation byte. */
  function Low6(v: nat): (d: nat)
    ensures d < 0x40 && v == Shift6(v) * 0x40 + d
  {
    v % 0x40
  }

  function EncodeTwo(v: nat): (r: seq<Byte>)
    requires 0x80 <= v < 0x800
    ensures |r| == 2 && 0xC0 <= r[0] as int && 0x80 <= r[1] as int < 0xC0 && CodePoint(r) == v
  {
    var d1, d0 := Low6(v), Shift6(v);
    [ToByte(0xC0 + d0), ToByte(0x80 + d1)]
  }

  function EncodeThree(v: nat): (r: seq<Byte>)
    requires 0x800 <= v < 0x10000
    ensures |r| == 3 && 0xC0 <= r[0] as int && CodePoint(r) == v
    ensures forall k :: 1 <= k < 3 ==> 0x80 <= r[k] as int < 0xC0
  {
    var q := Shift6(v);
    var d2, d1, d0 := Low6(v), Low6(q), Shift6(q);
    assert d0 < 0x10;
    assert v == d0 * 0x1000 + d1 * 0x40 + d2;
    [ToByte(0xE0 + d0), ToByte(0x80 + d1), ToByte(0x80 + d2)]
  }

  function EncodeFour(v: nat): (r: seq<Byte>)
    requires 0x10000 <= v < 0x110000
    ensures |r| == 4 && 0xC0 <= r[0] as int && CodePoint(r) == v
    ensures forall k :: 1 <= k < 4 ==> 0x80 <= r[k] as int < 0xC0
  {
    var q := Shift6(v);
    var q' := Shift6(q);
    var d3, d2, d1, d0 := Low6(v), Low6(q), Low6(q'), Shift6(q');
    assert d0 < 5;
    assert v == d0 * 0x40000 + d1 * 0x1000 + d2 * 0x40 + d3;
    [ToByte(0xF0 + d0), ToByte(0x80 + d1), ToByte(0x80 + d2), ToByte(0x80 + d3)]
  }

  /** `s.encode('utf-8')` */
  function Utf8Encode(s: string): (r: seq<Byte>)
    ensures |s| <= |r| <= 4 * |s|
  {
    if s == [] then [] else EncodeChar(s[0]) + Utf8Encode(s[1..])
  }

  /** Text made only of characters below 0x80 encodes to one byte per character, with the same values. */
  lemma {:induction false} AsciiEncodesBytewise(s: string)
    requires forall i :: 0 <= i < |s| ==> s[i] as int < 0x80
    ensures |Utf8Encode(s)| == |s|
    ensures forall i :: 0 <= i < |s| ==> Utf8Encode(s)[i] as int == s[i] as int
  {
    if s != [] {
      AsciiEncodesBytewise(s[1..]);
      assert Utf8Encode(s) == EncodeChar(s[0]) + Utf8Encode(s[1..]);
    }
  }

  /** A `b'...'` literal written with ASCII characters: one byte per character. */
  function Ascii(s: string): (b: seq<Byte>)
    ensures |b| == |s|
  {
    seq(|s|, i requires 0 <= i < |s| => ToByte(s[i] as int % 0x100))
  }
}
