/**
 * JSON string text in crow/json.h: `escape`, the meaning of escape sequences, and the lazy
 * in-place `rvalue::unescape` guarded by the flag byte before the string.
 */
module JsonText {

  import opened Octets

  const QUOTE: byte := 34
  const BACKSLASH: byte := 92
  const SLASH: byte := 47
  const LOWER_B: byte := 98
  const LOWER_F: byte := 102
  const LOWER_N: byte := 110
  const LOWER_R: byte := 114
  const LOWER_T: byte := 116
  const LOWER_U: byte := 117
  const BS: byte := 8
  const HT: byte := 9
  const NL: byte := 10
  const FF: byte := 12
  const CR: byte := 13

  // ----- escape -----

  function ToHex(n: nat): byte
    requires n < 16
  {
    if n < 10 then 48 + n else 87 + n
  }

  function EscapeByte(c: byte): bytes {
    if c == QUOTE then [BACKSLASH, QUOTE]
    else if c == BACKSLASH then [BACKSLASH, BACKSLASH]
    else if c == NL then [BACKSLASH, LOWER_N]
    else if c == BS then [BACKSLASH, LOWER_B]
    else if c == FF then [BACKSLASH, LOWER_F]
    else if c == CR then [BACKSLASH, LOWER_R]
    else if c == HT then [BACKSLASH, LOWER_T]
    else if c < 32 then [BACKSLASH, LOWER_U, 48, 48, ToHex(c / 16), ToHex(c % 16)]
    else [c]
  }

  function Escape(s: bytes): bytes {
    if s == [] then [] else EscapeByte(s[0]) + Escape(s[1..])
  }

  // ----- What escape sequences mean -----

  predicate IsHex(c: byte) { 48 <= c <= 57 || 97 <= c <= 102 || 65 <= c <= 70 }

  function FromHex(c: byte): (n: nat)
    requires IsHex(c)
    ensures n < 16
  {
    if c >= 97 then c - 87 else if c >= 65 then c - 55 else c - 48
  }

  predicate IsSimpleEscape(c: byte) {
    c == QUOTE || c == BACKSLASH || c == SLASH || c == LOWER_B || c == LOWER_F || c == LOWER_N || c == LOWER_R
        || c == LOWER_T
  }

  function SimpleEscape(c: byte): byte {
    if c == LOWER_B then BS else if c == LOWER_F then FF else if c == LOWER_N then NL
    else if c == LOWER_R then CR else if c == LOWER_T then HT else c
  }

  /** The UTF-8 form of a four-digit code. */
  function Utf8(code: nat): (r: bytes)
    requires code < 0x10000
    ensures 1 <= |r| <= 3
  {
    if code >= 0x800 then [0xE0 + code / 4096, 0x80 + code / 64 % 64, 0x80 + code % 64]
    else if code >= 0x80 then [0xC0 + code / 64, 0x80 + code % 64]
    else [code]
  }

  /** How long the unit at the front is: a byte, a simple escape or a \u escape; 0 when it is
      none of them (a quote, a NUL or a broken escape). */
  function UnitLength(s: bytes): (n: nat)
    requires s != []
    ensures n <= |s|
  {
    if s[0] == BACKSLASH then
      if |s| >= 2 && IsSimpleEscape(s[1]) then 2
      else if |s| >= 6 && s[1] == LOWER_U && IsHex(s[2]) && IsHex(s[3]) && IsHex(s[4]) && IsHex(s[5]) then 6
      else 0
    else if s[0] == QUOTE || s[0] == 0 then 0
    else 1
  }

  function UnitValue(s: bytes): (r: bytes)
    requires s != [] && UnitLength(s) > 0
    ensures 1 <= |r| <= UnitLength(s)
  {
    if UnitLength(s) == 1 then [s[0]]
    else if UnitLength(s) == 2 then [SimpleEscape(s[1])]
    else Utf8(FromHex(s[2]) * 4096 + FromHex(s[3]) * 256 + FromHex(s[4]) * 16 + FromHex(s[5]))
  }

  /** Text the parser accepts between two quotes. */
  predicate ValidText(s: bytes)
    decreases |s|
  {
    s == [] || (UnitLength(s) > 0 && ValidText(s[UnitLength(s)..]))
  }

  function Decode(s: bytes): bytes
    requires ValidText(s)
    decreases |s|
  {
    if s == [] then [] else UnitValue(s) + Decode(s[UnitLength(s)..])
  }

  lemma EscapedUnit(c: byte, rest: bytes)
    ensures var s := EscapeByte(c) + rest;
      UnitLength(s) == |EscapeByte(c)| && UnitValue(s) == [c] && s[|EscapeByte(c)|..] == rest && s[0] != QUOTE
  {
    var s := EscapeByte(c) + rest;
    assert forall i :: 0 <= i < |EscapeByte(c)| ==> s[i] == EscapeByte(c)[i];
  }

  /** Decoding inverts escaping on every byte string. */
  lemma {:induction false} DecodeEscape(s: bytes)
    ensures ValidText(Escape(s)) && Decode(Escape(s)) == s
  {
    if s != [] {
      DecodeEscape(s[1..]);
      EscapedUnit(s[0], Escape(s[1..]));
      assert [s[0]] + s[1..] == s;
    }
  }

  /** Text without a backslash means itself. */
  lemma {:induction false} DecodePlain(s: bytes)
    requires ValidText(s) && BACKSLASH !in s
    ensures Decode(s) == s
    decreases |s|
  {
    if s != [] {
      assert s[0] in s && UnitLength(s) == 1;
      DecodePlain(s[1..]);
      assert [s[0]] + s[1..] == s;
    }
  }

  lemma DecodeUnit(written: bytes, s: bytes)
    requires s != [] && ValidText(s)
    ensures written + UnitValue(s) + Decode(s[UnitLength(s)..]) == written + Decode(s)
    ensures 0 < |UnitValue(s)| <= UnitLength(s) <= |s| && ValidText(s[UnitLength(s)..])
  {
  }

  // ----- rvalue::unescape -----

  /** A string of a loaded value: a region of the shared buffer. While the flag byte before
      it is set, the region holds escaped text; afterwards it holds the decoded bytes. */
  class LoadedString {
    const buf: array<byte>
    const start: nat
    var end: nat
    ghost const limit: nat  // where the closing quote was
    ghost const text: bytes // what the string means

    ghost predicate Valid()
      reads this, buf
    {
      && 0 < start <= end <= limit < buf.Length
      && if buf[start - 1] != 0 then ValidText(buf[start..end]) && Decode(buf[start..end]) == text
         else buf[start..end] == text
    }

    constructor (buf: array<byte>, start: nat, end: nat)
      requires 0 < start <= end < buf.Length
      requires buf[start - 1] != 0 ==> ValidText(buf[start..end])
      ensures Valid() && text == if buf[start - 1] != 0 then Decode(buf[start..end]) else buf[start..end]
      ensures this.buf == buf && this.start == start && this.end == end && limit == end
    {
      this.buf, this.start, this.end := buf, start, end;
      this.limit := end;
      this.text := if buf[start - 1] != 0 then Decode(buf[start..end]) else buf[start..end];
    }

    /** The string value. It may be read any number of times: the first read decodes in
        place and clears the flag, later reads find it decoded. Nothing outside the string,
        its flag byte and its closing position is written. */
    method S() returns (r: bytes)
      requires Valid()
      modifies this`end, buf
      ensures Valid() && r == text
      ensures buf[start - 1] == 0 && end <= old(end)
      ensures forall i :: 0 <= i < buf.Length && !(start - 1 <= i <= limit) ==> buf[i] == old(buf[i])
    {
      Unescape();
      r := buf[start..end];
    }

    method Unescape()
      requires Valid()
      modifies this`end, buf
      ensures Valid() && buf[start - 1] == 0 && end <= old(end)
      ensures forall i :: 0 <= i < buf.Length && !(start - 1 <= i <= limit) ==> buf[i] == old(buf[i])
    {
      if buf[start - 1] != 0 {
        var tail := DecodeInPlace();
        end := tail;
        buf[end] := 0;
        buf[start - 1] := 0;
        assert buf[start..end] == text;
      }
    }

    /** The loop over the head and tail cursors: what is written and what the rest means
        together are the decoded text. */
    method DecodeInPlace() returns (tail: nat)
      requires 0 < start <= end < buf.Length && ValidText(buf[start..end])
      modifies buf
      ensures start <= tail <= end && buf[start..tail] == Decode(old(buf[start..end]))
      ensures forall i :: 0 <= i < buf.Length && !(start <= i < end) ==> buf[i] == old(buf[i])
    {
      var head := start;
      tail := start;
      ghost var text, written, rest := Decode(buf[start..end]), [], buf[start..end];
      while head != end
        invariant start <= tail <= head <= end
        invariant written == buf[start..tail] && rest == buf[head..end] && ValidText(rest)
        invariant written + Decode(rest) == text
        invariant forall i :: 0 <= i < buf.Length && !(start <= i < end) ==> buf[i] == old(buf[i])
        decreases end - head
      {
        head, tail, written, rest := UnescapeUnit(head, tail, written, rest);
      }
      assert rest == [] && written + [] == written;
    }

    /** One turn of the loop: a plain byte or one escape sequence. */
    method UnescapeUnit(head: nat, tail: nat, ghost written: bytes, ghost rest: bytes)
      returns (head': nat, tail': nat, ghost written': bytes, ghost rest': bytes)
      requires start <= tail <= head < end < buf.Length
      requires written == buf[start..tail] && rest == buf[head..end] && ValidText(rest)
      modifies buf
      ensures tail < tail' <= head' <= end && head < head'
      ensures written' == buf[start..tail'] && rest' == buf[head'..end] && ValidText(rest')
      ensures written' + Decode(rest') == written + Decode(rest)
      ensures forall i :: 0 <= i < buf.Length && !(start <= i < end) ==> buf[i] == old(buf[i])
    {
      var n, value := UnitLength(buf[head..end]), UnitValue(buf[head..end]);
      DecodeUnit(written, rest);
      written', rest' := written + value, rest[n..];
      head', tail' := head + n, tail + |value|;
      assert rest' == buf[head'..end];
      Put(tail, value, head');
    }

    /** `*tail++ = ...`, once per byte; the read cursor is never overtaken. */
    method Put(tail: nat, value: bytes, head: nat)
      requires start <= tail && tail + |value| <= head <= end < buf.Length
      modifies buf
      ensures forall i :: 0 <= i < buf.Length ==>
                buf[i] == if tail <= i < tail + |value| then value[i - tail] else old(buf[i])
      ensures buf[head..end] == old(buf[head..end])
      ensures buf[start..tail] == old(buf[start..tail])
      ensures buf[start..tail + |value|] == old(buf[start..tail]) + value
    {
      var k := 0;
      while k < |value|
        invariant k <= |value|
        invariant forall i :: 0 <= i < buf.Length ==>
                    buf[i] == if tail <= i < tail + k then value[i - tail] else old(buf[i])
      {
        buf[tail + k] := value[k];
        k := k + 1;
      }
    }
  }
}
