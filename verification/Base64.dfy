/**
 * base64 in crow/utility.h: the encoder for the two alphabets of sections 4 and 5 of RFC 4648,
 * the decoder that accepts both, padded or not, and their round trip. The code's masks and
 * shifts are written as quotients and remainders.
 */
module Base64 {

  import opened Octets
  import opened Wrappers

  type digit = n: int | 0 <= n < 64

  const PAD: byte := 61

  // ----- RFC 4648 -----

  /** The two alphabets differ in the last two characters. */
  function Character(n: digit, urlSafe: bool): byte {
    if n < 26 then 65 + n
    else if n < 52 then 97 + (n - 26)
    else if n < 62 then 48 + (n - 52)
    else if n == 62 then (if urlSafe then 45 else 43)
    else if urlSafe then 95 else 47
  }

  /** The decoder's key: both alphabets; any other character counts as 0. */
  function Key(c: byte): digit {
    if 65 <= c <= 90 then c - 65
    else if 97 <= c <= 122 then c - 97 + 26
    else if 48 <= c <= 57 then c - 48 + 52
    else if c == 43 || c == 45 then 62
    else if c == 47 || c == 95 then 63
    else 0
  }

  lemma KeyOfCharacter(n: digit, urlSafe: bool)
    ensures Key(Character(n, urlSafe)) == n && Character(n, urlSafe) != PAD
  {
  }

  /** A group of 24 bits, from bytes and from digits. */
  function FromBytes(a: int, b: int, c: int): int { a * 0x1_0000 + b * 0x100 + c }
  function FromDigits(p: int, q: int, r: int, s: int): int { p * 0x4_0000 + q * 0x1000 + r * 0x40 + s }

  function DigitAt(v: nat, i: nat): digit
    requires v < 0x100_0000 && i < 4
  {
    if i == 0 then v / 0x4_0000 else if i == 1 then v / 0x1000 % 64 else if i == 2 then v / 0x40 % 64 else v % 64
  }

  function ByteAt(v: nat, i: nat): byte
    requires v < 0x100_0000 && i < 3
  {
    if i == 0 then v / 0x1_0000 else if i == 1 then v / 0x100 % 256 else v % 256
  }

  /** The first `n` digits of a group. */
  function Digits(v: nat, n: nat, urlSafe: bool): (r: bytes)
    requires v < 0x100_0000 && n <= 4
    ensures |r| == n
  {
    seq(n, i requires 0 <= i < n => Character(DigitAt(v, i), urlSafe))
  }

  function Encode(d: bytes, urlSafe: bool, padded: bool): bytes {
    if d == [] then []
    else if |d| == 1 then Digits(FromBytes(d[0], 0, 0), 2, urlSafe) + if padded then [PAD, PAD] else []
    else if |d| == 2 then Digits(FromBytes(d[0], d[1], 0), 3, urlSafe) + if padded then [PAD] else []
    else Digits(FromBytes(d[0], d[1], d[2]), 4, urlSafe) + Encode(d[3..], urlSafe, padded)
  }

  /** How many characters hold `size` bytes. */
  function Characters(size: nat): nat {
    if size == 0 then 0 else if size < 3 then size + 1 else 4 + Characters(size - 3)
  }

  /** The same with padding: whole groups of four. */
  function Room(size: nat): nat {
    if size == 0 then 0 else if size < 3 then 4 else 4 + Room(size - 3)
  }

  /** How many bytes are left over from whole groups of three. */
  function LeftOver(size: nat): nat { if size < 3 then size else LeftOver(size - 3) }

  lemma {:induction false} InGroups(size: nat) returns (q: nat, r: nat)
    ensures size == 3 * q + r && r < 3 && r == LeftOver(size)
    ensures Characters(size) == 4 * q + (if r == 0 then 0 else r + 1) && Room(size) == 4 * q + (if r == 0 then 0 else 4)
    ensures Room(size) == (size + 2) / 3 * 4
    decreases size
  {
    if size < 3 {
      q, r := 0, size;
    } else {
      q, r := InGroups(size - 3);
      q := q + 1;
    }
  }

  lemma {:induction false} EncodeLength(d: bytes, urlSafe: bool)
    ensures |Encode(d, urlSafe, false)| == Characters(|d|)
    ensures |Encode(d, urlSafe, true)| == Room(|d|)
  {
    if |d| > 2 {
      EncodeLength(d[3..], urlSafe);
    }
  }

  /** The bytes in the characters of `t`, as many as `size`. */
  function Decode(t: bytes, size: nat): bytes
    requires Characters(size) <= |t|
  {
    if size == 0 then []
    else if size == 1 then [ByteAt(FromDigits(Key(t[0]), Key(t[1]), 0, 0), 0)]
    else if size == 2 then
      var v := FromDigits(Key(t[0]), Key(t[1]), Key(t[2]), 0);
      [ByteAt(v, 0), ByteAt(v, 1)]
    else
      var v := FromDigits(Key(t[0]), Key(t[1]), Key(t[2]), Key(t[3]));
      [ByteAt(v, 0), ByteAt(v, 1), ByteAt(v, 2)] + Decode(t[4..], size - 3)
  }

  /** How many bytes the decoder makes room for. None: the size would be negative. */
  function OutputSize(t: bytes): (r: Option<nat>)
    ensures r.None? <==> t == [PAD]
  {
    var n := |t|;
    if n % 4 == 2 then Some(n / 4 * 3 + 1)
    else if n % 4 == 3 then Some(n / 4 * 3 + 2)
    else if n >= 2 && t[n - 2] == PAD then Some(n / 4 * 3 - 2)
    else if n >= 1 && t[n - 1] == PAD then (if n == 1 then None else Some(n / 4 * 3 - 1))
    else Some(n / 4 * 3)
  }

  /** The text has the characters for that many bytes. */
  lemma OutputFits(t: bytes)
    ensures OutputSize(t).Some? ==> Characters(OutputSize(t).value) <= |t|
  {
    if OutputSize(t).Some? {
      var q, r := InGroups(OutputSize(t).value);
    }
  }

  // ----- The round trip -----

  lemma DigitsOfGroup(v: nat)
    requires v < 0x100_0000
    ensures FromDigits(DigitAt(v, 0), DigitAt(v, 1), DigitAt(v, 2), DigitAt(v, 3)) == v
  {
    assert v / 0x40 / 0x40 == v / 0x1000;
    assert v / 0x1000 / 0x40 == v / 0x4_0000;
  }

  lemma BytesOfGroup(a: byte, b: byte, c: byte)
    ensures 0 <= FromBytes(a, b, c) < 0x100_0000
    ensures ByteAt(FromBytes(a, b, c), 0) == a && ByteAt(FromBytes(a, b, c), 1) == b
        && ByteAt(FromBytes(a, b, c), 2) == c
  {
    var v := FromBytes(a, b, c);
    assert v / 0x100 == a * 0x100 + b;
    assert v / 0x1_0000 == a;
  }

  lemma EmptyDigits(v: nat)
    requires v < 0x100_0000
    ensures v % 0x100 == 0 ==> DigitAt(v, 3) == 0
    ensures v % 0x1_0000 == 0 ==> DigitAt(v, 2) == 0 && DigitAt(v, 3) == 0
  {
    var q := v / 0x100;
    if v % 0x100 == 0 {
      assert v == 0x40 * (4 * q);
    }
    if v % 0x1_0000 == 0 {
      assert v == 0x40 * (0x40 * (16 * (v / 0x1_0000)));
    }
  }

  lemma KeysOfDigits(v: nat, n: nat, urlSafe: bool, rest: bytes)
    requires v < 0x100_0000 && n <= 4
    ensures var t := Digits(v, n, urlSafe) + rest;
      t[n..] == rest && forall i :: 0 <= i < n ==> Key(t[i]) == DigitAt(v, i)
  {
    forall i | 0 <= i < n ensures Key(Digits(v, n, urlSafe)[i]) == DigitAt(v, i) {
      KeyOfCharacter(DigitAt(v, i), urlSafe);
    }
  }

  /** The digits decode to the bytes they were made from, whatever follows them. */
  lemma {:induction false} DigitsDecode(d: bytes, urlSafe: bool, padded: bool)
    ensures Characters(|d|) <= |Encode(d, urlSafe, padded)|
    ensures Decode(Encode(d, urlSafe, padded), |d|) == d
  {
    EncodeLength(d, urlSafe);
    if |d| == 1 {
      OneByteDecodes(d, urlSafe, padded);
    } else if |d| == 2 {
      TwoBytesDecode(d, urlSafe, padded);
    } else if |d| > 2 {
      DigitsDecode(d[3..], urlSafe, padded);
      GroupDecodes(d, urlSafe, padded);
    }
  }

  lemma OneByteDecodes(d: bytes, urlSafe: bool, padded: bool)
    requires |d| == 1
    ensures var t := Encode(d, urlSafe, padded); Characters(|d|) <= |t| && Decode(t, |d|) == d
  {
    var v := FromBytes(d[0], 0, 0);
    KeysOfDigits(v, 2, urlSafe, if padded then [PAD, PAD] else []);
    DigitsOfGroup(v);
    EmptyDigits(v);
    BytesOfGroup(d[0], 0, 0);
  }

  lemma TwoBytesDecode(d: bytes, urlSafe: bool, padded: bool)
    requires |d| == 2
    ensures var t := Encode(d, urlSafe, padded); Characters(|d|) <= |t| && Decode(t, |d|) == d
  {
    var v := FromBytes(d[0], d[1], 0);
    KeysOfDigits(v, 3, urlSafe, if padded then [PAD] else []);
    DigitsOfGroup(v);
    EmptyDigits(v);
    BytesOfGroup(d[0], d[1], 0);
  }

  lemma {:induction false} GroupDecodes(d: bytes, urlSafe: bool, padded: bool)
    requires |d| > 2
    requires var t := Encode(d[3..], urlSafe, padded); Characters(|d| - 3) <= |t| && Decode(t, |d| - 3) == d[3..]
    ensures var t := Encode(d, urlSafe, padded); Characters(|d|) <= |t| && Decode(t, |d|) == d
  {
    var v := FromBytes(d[0], d[1], d[2]);
    KeysOfDigits(v, 4, urlSafe, Encode(d[3..], urlSafe, padded));
    DigitsOfGroup(v);
    BytesOfGroup(d[0], d[1], d[2]);
    EncodeLength(d, urlSafe);
    assert d == d[..3] + d[3..];
  }

  lemma DigitsAreNoPadding(v: nat, n: nat, urlSafe: bool)
    requires v < 0x100_0000 && n <= 4
    ensures forall i :: 0 <= i < n ==> Digits(v, n, urlSafe)[i] != PAD
  {
    forall i | 0 <= i < n ensures Digits(v, n, urlSafe)[i] != PAD {
      KeyOfCharacter(DigitAt(v, i), urlSafe);
    }
  }

  /** Where the padding characters are: the last two, or the last. */
  ghost predicate EndsWith(t: bytes, two: bool, one: bool) {
    && (|t| >= 2 ==> (t[|t| - 2] == PAD <==> two))
    && (|t| >= 1 ==> (t[|t| - 1] == PAD <==> one))
  }

  lemma EndOfConcat(a: bytes, b: bytes, two: bool, one: bool)
    requires |a| >= 2 && (forall i :: 0 <= i < |a| ==> a[i] != PAD) && EndsWith(b, two, one)
    requires b == [] ==> !two && !one
    requires |b| != 1
    ensures EndsWith(a + b, two, one)
  {
    var t := a + b;
    if b != [] {
      assert t[|t| - 2] == b[|b| - 2] && t[|t| - 1] == b[|b| - 1];
    }
  }

  lemma {:induction false} PaddingIsLast(d: bytes, urlSafe: bool, padded: bool)
    ensures EndsWith(Encode(d, urlSafe, padded), padded && LeftOver(|d|) == 1, padded && LeftOver(|d|) != 0)
  {
    if |d| == 1 {
      DigitsAreNoPadding(FromBytes(d[0], 0, 0), 2, urlSafe);
    } else if |d| == 2 {
      DigitsAreNoPadding(FromBytes(d[0], d[1], 0), 3, urlSafe);
    } else if |d| > 2 {
      var v := FromBytes(d[0], d[1], d[2]);
      DigitsAreNoPadding(v, 4, urlSafe);
      PaddingIsLast(d[3..], urlSafe, padded);
      EncodeLength(d[3..], urlSafe);
      EndOfConcat(Digits(v, 4, urlSafe), Encode(d[3..], urlSafe, padded),
                  padded && LeftOver(|d|) == 1, padded && LeftOver(|d|) != 0);
    }
  }

  /** Decoding what was encoded gives it back: in both alphabets, with and without padding. */
  lemma RoundTrip(d: bytes, urlSafe: bool, padded: bool)
    ensures var t := Encode(d, urlSafe, padded);
      OutputSize(t) == Some(|d|) && Characters(|d|) <= |t| && Decode(t, |d|) == d
  {
    SizeIsKnown(d, urlSafe, padded);
    DigitsDecode(d, urlSafe, padded);
  }

  lemma SizeIsKnown(d: bytes, urlSafe: bool, padded: bool)
    ensures OutputSize(Encode(d, urlSafe, padded)) == Some(|d|)
  {
    EncodeLength(d, urlSafe);
    PaddingIsLast(d, urlSafe, padded);
    var q, r := InGroups(|d|);
    SizeFrom(Encode(d, urlSafe, padded), q, r, padded);
  }

  lemma SizeFrom(t: bytes, q: nat, r: nat, padded: bool)
    requires r < 3 && |t| == 4 * q + if r == 0 then 0 else if padded then 4 else r + 1
    requires EndsWith(t, padded && r == 1, padded && r != 0)
    ensures OutputSize(t) == Some(3 * q + r)
  {
    if r == 0 {
      Quarter(|t|, q, 0);
    } else if padded {
      Quarter(|t|, q + 1, 0);
    } else {
      Quarter(|t|, q, r + 1);
    }
  }

  lemma Quarter(n: nat, q: nat, r: nat)
    requires n == 4 * q + r && r < 4
    ensures n / 4 == q && n % 4 == r
  {
  }

  /** The unpadded text is the padded text without its trailing padding characters. */
  lemma {:induction false} PaddingIsStripped(d: bytes, urlSafe: bool)
    ensures Encode(d, urlSafe, true) ==
            Encode(d, urlSafe, false) + match LeftOver(|d|) { case 0 => [] case 1 => [PAD, PAD] case _ => [PAD] }
  {
    if |d| > 2 {
      PaddingIsStripped(d[3..], urlSafe);
    }
  }

  // ----- The code -----

  lemma {:induction false} EncodeStep(d: bytes, p: nat, urlSafe: bool)
    requires p + 3 <= |d|
    ensures 0 <= FromBytes(d[p], d[p + 1], d[p + 2]) < 0x100_0000
    ensures Encode(d[p..], urlSafe, true) ==
        Digits(FromBytes(d[p], d[p + 1], d[p + 2]), 4, urlSafe) + Encode(d[p + 3..], urlSafe, true)
  {
    assert d[p..][3..] == d[p + 3..];
  }

  lemma DigitsAre(p: digit, q: digit, r: digit, s: digit)
    ensures var v := FromDigits(p, q, r, s);
      && 0 <= v < 0x100_0000 && DigitAt(v, 0) == p && DigitAt(v, 1) == q && DigitAt(v, 2) == r && DigitAt(v, 3) == s
  {
    var v := FromDigits(p, q, r, s);
    assert v / 0x40 == p * 0x1000 + q * 0x40 + r;
    assert v / 0x1000 == p * 0x40 + q;
    assert v / 0x4_0000 == p;
  }

  /** The code's digits, byte by byte, are the digits of the group. */
  lemma DigitsOfBytes(a: byte, b: byte, c: byte)
    ensures var v := FromBytes(a, b, c);
      && 0 <= v < 0x100_0000
      && DigitAt(v, 0) == a / 4 && DigitAt(v, 1) == a % 4 * 16 + b / 16
      && DigitAt(v, 2) == b % 16 * 4 + c / 64 && DigitAt(v, 3) == c % 64
  {
    var q: int, r: int := a % 4 * 16 + b / 16, b % 16 * 4 + c / 64;
    assert FromDigits(a / 4, q, r, c % 64) == FromBytes(a, b, c);
    DigitsAre(a / 4, q, r, c % 64);
  }

  /** Four characters at `it`, the read position advanced. */
  method WriteFour(ret: array<byte>, it: nat, c0: byte, c1: byte, c2: byte, c3: byte)
    requires it + 4 <= ret.Length
    modifies ret
    ensures ret[..it + 4] == old(ret[..it]) + [c0, c1, c2, c3]
  {
    ret[it] := c0;
    ret[it + 1] := c1;
    ret[it + 2] := c2;
    ret[it + 3] := c3;
  }

  /** `base64encode` */
  method EncodeBytes(data: bytes, urlSafe: bool) returns (ret: array<byte>)
    ensures ret[..] == Encode(data, urlSafe, true)
  {
    EncodeLength(data, urlSafe);
    ghost var q, r := InGroups(|data|);
    ret := new byte[(|data| + 2) / 3 * 4];
    var p, it := EncodeGroups(data, ret, urlSafe);
    ghost var done, rest := ret[..it], Encode(data[p..], urlSafe, true);
    if p < |data| {
      EncodeTail(data[p..], ret, it, urlSafe);
      assert ret[..] == ret[..it + 4];
    } else {
      assert ret[..] == ret[..it] == done + rest;
    }
  }

  /** The loop over whole groups of three bytes. */
  method EncodeGroups(data: bytes, ret: array<byte>, urlSafe: bool) returns (p: nat, it: nat)
    requires ret.Length == Room(|data|)
    modifies ret
    ensures p <= |data| < p + 3 && it + Room(|data| - p) == ret.Length
    ensures ret[..it] + Encode(data[p..], urlSafe, true) == Encode(data, urlSafe, true)
  {
    p, it := 0, 0;
    assert data[0..] == data && ret[..0] == [];
    while |data| - p >= 3
      invariant p <= |data| && it + Room(|data| - p) == ret.Length
      invariant ret[..it] + Encode(data[p..], urlSafe, true) == Encode(data, urlSafe, true)
    {
      EncodeOne(data, p, ret, it, urlSafe);
      p, it := p + 3, it + 4;
    }
  }

  method EncodeOne(data: bytes, p: nat, ret: array<byte>, it: nat, urlSafe: bool)
    requires p + 3 <= |data| && it + 4 <= ret.Length
    modifies ret
    ensures ret[..it + 4] + Encode(data[p + 3..], urlSafe, true) == old(ret[..it]) + Encode(data[p..], urlSafe, true)
  {
    EncodeStep(data, p, urlSafe);
    ghost var before, group := ret[..it], Digits(FromBytes(data[p], data[p + 1], data[p + 2]), 4, urlSafe);
    EncodeGroup(data[p], data[p + 1], data[p + 2], ret, it, urlSafe);
    Reassociate(before, group, Encode(data[p + 3..], urlSafe, true));
  }

  method EncodeGroup(a: byte, b: byte, c: byte, ret: array<byte>, it: nat, urlSafe: bool)
    requires it + 4 <= ret.Length
    modifies ret
    ensures 0 <= FromBytes(a, b, c) < 0x100_0000
    ensures ret[..it + 4] == old(ret[..it]) + Digits(FromBytes(a, b, c), 4, urlSafe)
  {
    DigitsOfBytes(a, b, c);
    FourDigits(FromBytes(a, b, c), urlSafe);
    var x: int, y: int, z: int := a, b, c;
    WriteFour(ret, it, Character(x / 4, urlSafe), Character(x % 4 * 16 + y / 16, urlSafe),
              Character(y % 16 * 4 + z / 64, urlSafe), Character(z % 64, urlSafe));
  }

  /** The one or two bytes left over. */
  method EncodeTail(rest: bytes, ret: array<byte>, it: nat, urlSafe: bool)
    requires 0 < |rest| < 3 && it + 4 <= ret.Length
    modifies ret
    ensures ret[..it + 4] == old(ret[..it]) + Encode(rest, urlSafe, true)
  {
    var a: int := rest[0];
    if |rest| == 1 {
      DigitsOfBytes(a, 0, 0);
      ghost var v := FromBytes(a, 0, 0);
      assert Digits(v, 2, urlSafe) == [Character(DigitAt(v, 0), urlSafe), Character(DigitAt(v, 1), urlSafe)];
      WriteFour(ret, it, Character(a / 4, urlSafe), Character(a % 4 * 16, urlSafe), PAD, PAD);
    } else {
      var b: int := rest[1];
      DigitsOfBytes(a, b, 0);
      ghost var v := FromBytes(a, b, 0);
      assert Digits(v, 3, urlSafe) ==
          [Character(DigitAt(v, 0), urlSafe), Character(DigitAt(v, 1), urlSafe), Character(DigitAt(v, 2), urlSafe)];
      WriteFour(ret, it, Character(a / 4, urlSafe), Character(a % 4 * 16 + b / 16, urlSafe),
          Character(b % 16 * 4, urlSafe), PAD);
    }
  }

  lemma FourDigits(v: nat, urlSafe: bool)
    requires v < 0x100_0000
    ensures Digits(v, 4, urlSafe) == [Character(DigitAt(v, 0), urlSafe), Character(DigitAt(v, 1), urlSafe),
                                      Character(DigitAt(v, 2), urlSafe), Character(DigitAt(v, 3), urlSafe)]
  {
  }

  lemma BytesOfDigits(p: digit, q: digit, r: digit, s: digit)
    ensures var v := FromDigits(p, q, r, s);
      && 0 <= v < 0x100_0000
      && ByteAt(v, 0) == FirstByte(p, q) && ByteAt(v, 1) == SecondByte(q, r) && ByteAt(v, 2) == ThirdByte(r, s)
  {
    assert FromDigits(p, q, r, s) == FromBytes(FirstByte(p, q), SecondByte(q, r), ThirdByte(r, s));
    BytesOfGroup(FirstByte(p, q), SecondByte(q, r), ThirdByte(r, s));
  }

  function FirstByte(p: int, q: int): byte
    requires 0 <= p < 64 && 0 <= q < 64
  {
    p * 4 + q / 16
  }

  function SecondByte(q: int, r: int): byte
    requires 0 <= q < 64 && 0 <= r < 64
  {
    q % 16 * 16 + r / 4
  }

  function ThirdByte(r: int, s: int): byte
    requires 0 <= r < 64 && 0 <= s < 64
  {
    r % 4 * 64 + s
  }

  lemma DecodeStep(t: bytes, p: nat, size: nat)
    requires p <= |t| && size >= 3 && Characters(size) <= |t| - p
    ensures var v := FromDigits(Key(t[p]), Key(t[p + 1]), Key(t[p + 2]), Key(t[p + 3]));
      && 0 <= v < 0x100_0000 && Characters(size - 3) <= |t| - p - 4
      && Decode(t[p..], size) == [ByteAt(v, 0), ByteAt(v, 1), ByteAt(v, 2)] + Decode(t[p + 4..], size - 3)
  {
    assert t[p..][4..] == t[p + 4..];
  }

  /** `base64decode`. None: the output size is out of range and the string cannot be made. */
  method DecodeText(t: bytes) returns (r: Option<bytes>)
    ensures OutputSize(t).None? ==> r == None
    ensures OutputSize(t).Some? ==> Characters(OutputSize(t).value) <= |t| && r == Some(Decode(t, OutputSize(t).value))
  {
    OutputFits(t);
    var out := OutputSize(t);
    if out.None? {
      return None;
    }
    var size := out.value;
    var ret := new byte[size];
    var p, it := 0, 0;
    assert t[0..] == t && ret[..0] == [];
    while size >= 3
      invariant p <= |t| && it + size == ret.Length && Characters(size) <= |t| - p
      invariant ret[..it] + Decode(t[p..], size) == Decode(t, out.value)
    {
      DecodeFour(t, p, size, ret, it);
      p, it, size := p + 4, it + 3, size - 3;
    }
    ghost var done, rest := ret[..it], Decode(t[p..], size);
    if size > 0 {
      DecodeTail(t[p..], size, ret, it);
    } else {
      assert ret[..] == ret[..it] == done + rest;
    }
    return Some(ret[..]);
  }

  lemma Reassociate(a: bytes, b: bytes, c: bytes)
    ensures a + b + c == a + (b + c)
  {
  }

  method DecodeGroup(c0: byte, c1: byte, c2: byte, c3: byte, ret: array<byte>, it: nat)
    requires it + 3 <= ret.Length
    modifies ret
    ensures var v := FromDigits(Key(c0), Key(c1), Key(c2), Key(c3));
      0 <= v < 0x100_0000 && ret[..it + 3] == old(ret[..it]) + [ByteAt(v, 0), ByteAt(v, 1), ByteAt(v, 2)]
  {
    var k0, k1, k2, k3 := Key(c0), Key(c1), Key(c2), Key(c3);
    BytesOfDigits(k0, k1, k2, k3);
    ret[it] := FirstByte(k0, k1);
    ret[it + 1] := SecondByte(k1, k2);
    ret[it + 2] := ThirdByte(k2, k3);
  }

  /** One turn of the loop: four characters, three bytes. */
  method DecodeFour(t: bytes, p: nat, size: nat, ret: array<byte>, it: nat)
    requires p <= |t| && size >= 3 && Characters(size) <= |t| - p && it + size == ret.Length
    modifies ret
    ensures Characters(size - 3) <= |t| - p - 4
    ensures ret[..it + 3] + Decode(t[p + 4..], size - 3) == old(ret[..it]) + Decode(t[p..], size)
  {
    ghost var v := FromDigits(Key(t[p]), Key(t[p + 1]), Key(t[p + 2]), Key(t[p + 3]));
    DecodeStep(t, p, size);
    ghost var before := ret[..it];
    DecodeGroup(t[p], t[p + 1], t[p + 2], t[p + 3], ret, it);
    Reassociate(before, [ByteAt(v, 0), ByteAt(v, 1), ByteAt(v, 2)], Decode(t[p + 4..], size - 3));
  }

  /** The last one or two bytes. */
  method DecodeTail(rest: bytes, size: nat, ret: array<byte>, it: nat)
    requires 0 < size < 3 && Characters(size) <= |rest| && it + size == ret.Length
    modifies ret
    ensures ret[..] == old(ret[..it]) + Decode(rest, size)
  {
    var k0, k1 := Key(rest[0]), Key(rest[1]);
    if size == 2 {
      var k2 := Key(rest[2]);
      BytesOfDigits(k0, k1, k2, 0);
      ret[it] := FirstByte(k0, k1);
      ret[it + 1] := SecondByte(k1, k2);
    } else {
      BytesOfDigits(k0, k1, 0, 0);
      ret[it] := FirstByte(k0, k1);
    }
  }

  /** Encode, strip the padding if asked to, decode. */
  method EncodeThenDecode(data: bytes, urlSafe: bool, strip: bool) returns (r: Option<bytes>)
    ensures r == Some(data)
  {
    var t := EncodeBytes(data, urlSafe);
    var text := t[..];
    PaddingIsStripped(data, urlSafe);
    if strip {
      text := text[..|text| - match LeftOver(|data|) { case 0 => 0 case 1 => 2 case _ => 1 }];
      assert text == Encode(data, urlSafe, false);
    }
    RoundTrip(data, urlSafe, !strip);
    r := DecodeText(text);
  }
}
