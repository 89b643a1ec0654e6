/**
 * The streaming SHA-1 of crow/TinySHA1.hpp against the hash of FIPS 180-4: the message
 * schedule and rounds of section 6.1.2, and the padding of section 5.1.1, which the code
 * writes with a 32-bit length.
 */
module Sha1 {

  import opened Octets
  import opened Words

  const SIZE_LIMIT: nat := 0x1_0000_0000_0000_0000

  type Block = b: bytes | |b| == 64 witness seq(64, _ => 0)

  datatype Hash = Hash(a: word, b: word, c: word, d: word, e: word)

  // ----- FIPS 180-4 -----

  const INITIAL: Hash := Hash(0x67452301, 0xEFCDAB89, 0x98BADCFE, 0x10325476, 0xC3D2E1F0)

  function Rotl(k: Operations, x: word, n: nat): word
    requires 0 < n < 32
  {
    k.or(k.shl(x, n), k.shr(x, 32 - n))
  }

  function Ch(k: Operations, x: word, y: word, z: word): word { k.xor(k.and(x, y), k.and(k.not(x), z)) }
  function Parity(k: Operations, x: word, y: word, z: word): word { k.xor(k.xor(x, y), z) }
  function Maj(k: Operations, x: word, y: word, z: word): word { k.xor(k.xor(k.and(x, y), k.and(x, z)), k.and(y, z)) }

  /** f_t, section 4.1.1 */
  function Mix(k: Operations, t: nat, x: word, y: word, z: word): word {
    if t < 20 then Ch(k, x, y, z) else if t < 40 then Parity(k, x, y, z) else if t < 60 then Maj(k, x, y, z)
        else Parity(k, x, y, z)
  }

  /** K_t, section 4.2.1 */
  function RoundConstant(t: nat): word {
    if t < 20 then 0x5A827999 else if t < 40 then 0x6ED9EBA1 else if t < 60 then 0x8F1BBCDC else 0xCA62C1D6
  }

  /** The message schedule. The first byte of a word is its most significant. */
  function Schedule(k: Operations, block: Block, t: nat): word
    decreases t
  {
    if t < 16 then FromBytes(block[4 * t], block[4 * t + 1], block[4 * t + 2], block[4 * t + 3])
    else
      Rotl(k, k.xor(k.xor(k.xor(Schedule(k, block, t - 3), Schedule(k, block, t - 8)), Schedule(k, block, t - 14)),
          Schedule(k, block, t - 16)), 1)
  }

  function Round(k: Operations, h: Hash, t: nat, w: word): Hash {
    Hash(k.add(k.add(k.add(k.add(Rotl(k, h.a, 5), Mix(k, t, h.b, h.c, h.d)), h.e), RoundConstant(t)), w),
         h.a, Rotl(k, h.b, 30), h.c, h.d)
  }

  /** The hash after the first `n` rounds. */
  function Rounds(round: (Hash, nat) -> Hash, h: Hash, n: nat): Hash {
    if n == 0 then h else round(Rounds(round, h, n - 1), n - 1)
  }

  function Sum(k: Operations, h: Hash, g: Hash): Hash {
    Hash(k.add(h.a, g.a), k.add(h.b, g.b), k.add(h.c, g.c), k.add(h.d, g.d), k.add(h.e, g.e))
  }

  function RoundOf(k: Operations, block: Block): (Hash, nat) -> Hash {
    (h: Hash, t: nat) => Round(k, h, t, Schedule(k, block, t))
  }

  function Compress(k: Operations, h: Hash, block: Block): Hash {
    Sum(k, h, Rounds(RoundOf(k, block), h, 80))
  }

  function CompressOf(k: Operations): (Hash, Block) -> Hash {
    (h: Hash, block: Block) => Compress(k, h, block)
  }

  /** The hash value after the first `n` blocks. */
  function AfterBlocks(compress: (Hash, Block) -> Hash, m: bytes, n: nat): Hash
    requires 64 * n <= |m|
    decreases n, m
  {
    if n == 0 then INITIAL else compress(AfterBlocks(compress, m, n - 1), m[64 * (n - 1)..64 * n])
  }

  function Zeros(n: nat): (z: bytes)
    ensures |z| == n && forall i :: 0 <= i < n ==> z[i] == 0
  {
    if n == 0 then [] else Zeros(n - 1) + [0]
  }

  /** The zero bytes between the marker byte and the length. */
  function ZeroCount(length: nat): nat { (119 - length % 64) % 64 }

  /** Section 5.1.1: the smallest number that leaves room for the length in the last block. */
  lemma ZeroCountIsLeast(length: nat, k: nat)
    ensures (length + 1 + ZeroCount(length)) % 64 == 56
    ensures (length + 1 + k) % 64 == 56 ==> ZeroCount(length) <= k
    ensures (length + 1 + k) % 64 == 56 && k < 64 ==> k == ZeroCount(length)
  {
    var q := ZeroCountFills(length);
    var s := (length + 1 + k) / 64;
    if (length + 1 + k) % 64 == 56 {
      assert ZeroCount(length) - k == 64 * (q - s);
    }
  }

  lemma ZeroCountFills(length: nat) returns (q: nat)
    ensures length + 1 + ZeroCount(length) == 64 * q + 56 && ZeroCount(length) < 64
    ensures (length + 1 + ZeroCount(length)) % 64 == 56
  {
    var r := length % 64;
    q := length / 64 + if r <= 55 then 0 else 1;
    assert (119 - r) % 64 == if r <= 55 then 55 - r else 119 - r;
  }

  /** `n` as four bytes. */
  function FourBytes(n: nat): (r: bytes)
    ensures |r| == 4
  {
    [n / 0x100_0000 % 0x100, n / 0x1_0000 % 0x100, n / 0x100 % 0x100, n % 0x100]
  }

  /** The message, a one bit, zeros and the 64-bit length in bits. */
  function Padded(m: bytes): bytes {
    m + [0x80] + Zeros(ZeroCount(|m|)) + (FourBytes(8 * |m| / 0x1_0000_0000) + FourBytes(8 * |m|))
  }

  /** What the code pads with: the upper half of the length is always zero. */
  function PaddedByCode(m: bytes): bytes {
    m + [0x80] + Zeros(ZeroCount(|m|)) + ([0, 0, 0, 0] + FourBytes(8 * |m|))
  }

  lemma PaddedLength(m: bytes)
    ensures |Padded(m)| == |PaddedByCode(m)| && |Padded(m)| % 64 == 0
  {
    ZeroCountIsLeast(|m|, 0);
    var n := |m| + 1 + ZeroCount(|m|);
    assert |Padded(m)| == n + 8 && |PaddedByCode(m)| == n + 8;
    EightMore(n);
  }

  lemma EightMore(n: nat)
    requires n % 64 == 56
    ensures (n + 8) % 64 == 0
  {
  }

  /** The hash of the standard, for messages of less than 2^64 bits. */
  function Digest(compress: (Hash, Block) -> Hash, m: bytes): Hash {
    PaddedLength(m);
    AfterBlocks(compress, Padded(m), |Padded(m)| / 64)
  }

  function DigestByCode(compress: (Hash, Block) -> Hash, m: bytes): Hash {
    PaddedLength(m);
    AfterBlocks(compress, PaddedByCode(m), |PaddedByCode(m)| / 64)
  }

  lemma FourBytesAreZero(n: nat)
    requires n < 0x1_0000_0000
    ensures FourBytes(n) == [0, 0, 0, 0] <==> n == 0
  {
    if FourBytes(n) == [0, 0, 0, 0] {
      assert n % 0x100 == 0 && n / 0x100 % 0x100 == 0 && n / 0x1_0000 % 0x100 == 0 && n / 0x100_0000 % 0x100 == 0;
      assert n / 0x100_0000 < 0x100;
    }
  }

  /** The code pads a message as the standard does exactly when it is below 2^29 bytes, and
      then computes the standard's digest. */
  lemma PadsAsTheStandard(f: (Hash, Block) -> Hash, m: bytes)
    requires 8 * |m| < SIZE_LIMIT
    ensures PaddedByCode(m) == Padded(m) <==> |m| < 0x2000_0000
    ensures |m| < 0x2000_0000 ==> DigestByCode(f, m) == Digest(f, m)
  {
    var upper := 8 * |m| / 0x1_0000_0000;
    FourBytesAreZero(upper);
    var front := m + [0x80] + Zeros(ZeroCount(|m|));
    var ours, theirs := [0, 0, 0, 0] + FourBytes(8 * |m|), FourBytes(upper) + FourBytes(8 * |m|);
    assert front + ours == front + theirs ==> ours == theirs by {
      assert (front + ours)[|front|..] == ours && (front + theirs)[|front|..] == theirs;
    }
    assert ours == theirs ==> FourBytes(upper) == [0, 0, 0, 0] by {
      assert ours[..4] == [0, 0, 0, 0] && theirs[..4] == FourBytes(upper);
    }
  }

  lemma {:induction false} AfterBlocksOfPrefix(f: (Hash, Block) -> Hash, m: bytes, x: bytes, n: nat)
    requires 64 * n <= |m|
    ensures AfterBlocks(f, m + x, n) == AfterBlocks(f, m, n)
    decreases n
  {
    if n > 0 {
      AfterBlocksOfPrefix(f, m, x, n - 1);
      assert (m + x)[64 * (n - 1)..64 * n] == m[64 * (n - 1)..64 * n];
    }
  }

  lemma OneMoreByte(n: nat)
    ensures n % 64 < 63 ==> (n + 1) % 64 == n % 64 + 1 && (n + 1) / 64 == n / 64
    ensures n % 64 == 63 ==> (n + 1) % 64 == 0 && (n + 1) / 64 == n / 64 + 1 && n + 1 == 64 * (n / 64 + 1)
  {
    var q, r := n / 64, n % 64;
    assert n + 1 == 64 * q + (r + 1);
  }

  lemma CountsOn(n: nat)
    ensures (n % SIZE_LIMIT + 1) % SIZE_LIMIT == (n + 1) % SIZE_LIMIT
  {
  }

  ghost predicate CompressLaw(f: (Hash, Block) -> Hash, k: Operations, h: Hash, b: Block) {
    f(h, b) == Compress(k, h, b)
  }

  ghost predicate IsCompress(f: (Hash, Block) -> Hash, k: Operations) {
    forall h, b {:trigger CompressLaw(f, k, h, b)} :: CompressLaw(f, k, h, b)
  }

  ghost predicate RoundLaw(f: (Hash, nat) -> Hash, k: Operations, w: seq<word>, h: Hash, t: nat) {
    t < |w| ==> f(h, t) == Round(k, h, t, w[t])
  }

  lemma RoundsAreLawful(k: Operations, block: Block, w: seq<word>)
    requires forall t :: 0 <= t < |w| ==> w[t] == Schedule(k, block, t)
    ensures forall g, t: nat {:trigger RoundLaw(RoundOf(k, block), k, w, g, t)} ::
              RoundLaw(RoundOf(k, block), k, w, g, t)
  {
  }

  lemma CompressIs(f: (Hash, Block) -> Hash, k: Operations, start: Hash, block: Block, h: Hash)
    requires IsCompress(f, k) && h == Rounds(RoundOf(k, block), start, 80)
    ensures f(start, block) == Sum(k, start, h)
  {
    assert CompressLaw(f, k, start, block);
  }

  // ----- The class -----

  class SHA1 {
    const k: Operations
    ghost const compress: (Hash, Block) -> Hash
    const digest: array<word>
    const block: array<byte>
    var blockByteIndex: nat
    var byteCount: nat // a size_t
    ghost var message: bytes // every byte processed so far

    ghost predicate Valid()
      reads this, digest, block
    {
      && digest.Length == 5 && block.Length == 64 && Lawful(k) && IsCompress(compress, k)
      && blockByteIndex == |message| % 64 && byteCount == |message| % SIZE_LIMIT
      && HashValue() == AfterBlocks(compress, message, |message| / 64)
      && block[..blockByteIndex] == message[|message| - blockByteIndex..]
    }

    ghost function HashValue(): Hash
      requires digest.Length == 5
      reads digest
    {
      Hash(digest[0], digest[1], digest[2], digest[3], digest[4])
    }

    constructor (k: Operations)
      requires Lawful(k)
      ensures Valid() && message == [] && this.k == k && compress == CompressOf(k) && fresh(digest) && fresh(block)
    {
      this.k, this.compress := k, CompressOf(k);
      digest := new word[5][0x67452301, 0xEFCDAB89, 0x98BADCFE, 0x10325476, 0xC3D2E1F0];
      block := new byte[64](_ => 0);
      blockByteIndex, byteCount := 0, 0;
      message := [];
    }

    function LeftRotate(value: word, count: nat): (r: word)
      requires 0 < count < 32 && Lawful(k)
      ensures r == Rotl(k, value, count)
    {
      assert RotationLaw(k, value, count);
      k.xor(k.shl(value, count), k.shr(value, 32 - count))
    }

    method ProcessByte(octet: byte)
      requires Valid()
      modifies this, digest, block
      ensures Valid() && message == old(message) + [octet]
      ensures blockByteIndex == if old(blockByteIndex) == 63 then 0 else old(blockByteIndex) + 1
    {
      ghost var q := |message| / 64;
      OneMoreByte(|message|);
      StoreByte(octet);
      if blockByteIndex == 64 {
        assert |message| == 64 * (q + 1);
        assert block[..] == block[..64] == message[64 * q..64 * (q + 1)];
        blockByteIndex := 0;
        ProcessBlock();
      }
    }

    method StoreByte(octet: byte)
      requires Valid()
      modifies this`blockByteIndex, this`byteCount, this`message, block
      ensures message == old(message) + [octet]
      ensures blockByteIndex == old(blockByteIndex) + 1 && byteCount == |message| % SIZE_LIMIT
      ensures block[..blockByteIndex] == message[|message| - blockByteIndex..]
      ensures HashValue() == AfterBlocks(compress, message, old(|message|) / 64)
    {
      CountsOn(|message|);
      AfterBlocksOfPrefix(compress, message, [octet], |message| / 64);
      block[blockByteIndex] := octet;
      blockByteIndex := blockByteIndex + 1;
      byteCount := (byteCount + 1) % SIZE_LIMIT;
      message := message + [octet];
    }

    /** However the input is cut into calls, the bytes processed are their concatenation. */
    method ProcessBytes(data: bytes)
      requires Valid()
      modifies this, digest, block
      ensures Valid() && message == old(message) + data
    {
      var i := 0;
      while i < |data|
        invariant i <= |data| && Valid() && message == old(message) + data[..i]
      {
        ProcessByte(data[i]);
        i := i + 1;
      }
    }

    method ProcessBlock()
      requires digest.Length == 5 && block.Length == 64 && Lawful(k) && IsCompress(compress, k)
      modifies digest
      ensures HashValue() == compress(old(HashValue()), block[..])
    {
      var w := ScheduleWords();
      var start := Hash(digest[0], digest[1], digest[2], digest[3], digest[4]);
      RoundsAreLawful(k, block[..], w[..]);
      var h := RunRounds(w, start, RoundOf(k, block[..]));
      CompressIs(compress, k, start, block[..], h);
      AddToDigest(h);
    }

    method AddToDigest(h: Hash)
      requires digest.Length == 5
      modifies digest
      ensures HashValue() == Sum(k, old(HashValue()), h)
    {
      digest[0] := k.add(digest[0], h.a);
      digest[1] := k.add(digest[1], h.b);
      digest[2] := k.add(digest[2], h.c);
      digest[3] := k.add(digest[3], h.d);
      digest[4] := k.add(digest[4], h.e);
    }

    method RunRounds(w: array<word>, start: Hash, ghost round: (Hash, nat) -> Hash) returns (h: Hash)
      requires Lawful(k) && w.Length == 80
      requires forall g, t: nat {:trigger RoundLaw(round, k, w[..], g, t)} :: RoundLaw(round, k, w[..], g, t)
      ensures h == Rounds(round, start, 80)
    {
      h := start;
      for i := 0 to 80
        invariant h == Rounds(round, start, i)
      {
        assert RoundLaw(round, k, w[..], h, i);
        h := OneRound(i, w[i], h);
      }
    }

    method ScheduleWords() returns (w: array<word>)
      requires block.Length == 64 && Lawful(k)
      ensures fresh(w) && w.Length == 80 && forall t :: 0 <= t < 80 ==> w[t] == Schedule(k, block[..], t)
    {
      w := new word[80];
      for i := 0 to 16
        invariant forall t :: 0 <= t < i ==> w[t] == Schedule(k, block[..], t)
      {
        w[i] := k.shl(block[i * 4], 24);
        w[i] := k.or(w[i], k.shl(block[i * 4 + 1], 16));
        w[i] := k.or(w[i], k.shl(block[i * 4 + 2], 8));
        w[i] := k.or(w[i], block[i * 4 + 3]);
        assert BytesLaw(k, block[i * 4], block[i * 4 + 1], block[i * 4 + 2], block[i * 4 + 3]);
      }
      for i := 16 to 80
        invariant forall t :: 0 <= t < i ==> w[t] == Schedule(k, block[..], t)
      {
        w[i] := LeftRotate(k.xor(k.xor(k.xor(w[i - 3], w[i - 8]), w[i - 14]), w[i - 16]), 1);
      }
    }

    /** One turn of the loop over the rounds. */
    method OneRound(i: nat, w: word, h: Hash) returns (r: Hash)
      requires Lawful(k)
      ensures r == Round(k, h, i, w)
    {
      var b, c, d := h.b, h.c, h.d;
      assert ChoiceLaw(k, b, c, d) && MajorityLaw(k, b, c, d);
      var f, K: word := 0, 0;
      if i < 20 {
        f := k.or(k.and(b, c), k.and(k.not(b), d));
        K := 0x5A827999;
      } else if i < 40 {
        f := k.xor(k.xor(b, c), d);
        K := 0x6ED9EBA1;
      } else if i < 60 {
        f := k.or(k.or(k.and(b, c), k.and(b, d)), k.and(c, d));
        K := 0x8F1BBCDC;
      } else {
        f := k.xor(k.xor(b, c), d);
        K := 0xCA62C1D6;
      }
      var temp := k.add(k.add(k.add(k.add(LeftRotate(h.a, 5), f), h.e), K), w);
      return Hash(temp, h.a, LeftRotate(b, 30), c, d);
    }

    /** The digest of everything processed so far. */
    method GetDigest() returns (h: Hash)
      requires Valid()
      modifies this, digest, block
      ensures h == DigestByCode(compress, old(message))
    {
      ghost var m := message;
      var bitCount := byteCount * 8 % SIZE_LIMIT;
      PadToLength();
      var length := [0, 0, 0, 0, bitCount / 0x100_0000 % 0x100, bitCount / 0x1_0000 % 0x100, bitCount / 0x100 % 0x100,
          bitCount % 0x100];
      ProcessBytes(length);
      LowHalf(|m|, bitCount);
      assert length == [0, 0, 0, 0] + FourBytes(8 * |m|);
      assert message == PaddedByCode(m);
      PaddedLength(m);
      return Hash(digest[0], digest[1], digest[2], digest[3], digest[4]);
    }

    /** The marker byte and the zeros up to the place of the length. */
    method PadToLength()
      requires Valid()
      modifies this, digest, block
      ensures Valid() && message == old(message) + [0x80] + Zeros(ZeroCount(|old(message)|))
    {
      ghost var m := message;
      ProcessByte(0x80);
      ZerosNeeded(|m|);
      ZerosToLength();
    }

    method ZerosToLength()
      requires Valid()
      modifies this, digest, block
      ensures var start := old(blockByteIndex);
        Valid() && message == old(message) + Zeros(if start > 56 then 120 - start else 56 - start)
    {
      ghost var m, start := message, blockByteIndex;
      if blockByteIndex > 56 {
        FinishBlock();
      }
      ZerosUpTo56();
      ZerosSum(64 - start, 56);
    }

    method FinishBlock()
      requires Valid() && blockByteIndex > 0
      modifies this, digest, block
      ensures Valid() && blockByteIndex == 0 && message == old(message) + Zeros(64 - old(blockByteIndex))
    {
      ghost var start, k := blockByteIndex, 0;
      while blockByteIndex != 0
        invariant Valid() && message == old(message) + Zeros(k)
        invariant if blockByteIndex == 0 then start + k == 64 else start + k == blockByteIndex
        decreases 64 - start - k
      {
        ProcessByte(0);
        k := k + 1;
      }
    }

    method ZerosUpTo56()
      requires Valid() && blockByteIndex <= 56
      modifies this, digest, block
      ensures Valid() && blockByteIndex == 56 && message == old(message) + Zeros(56 - old(blockByteIndex))
    {
      ghost var start := blockByteIndex;
      while blockByteIndex < 56
        invariant Valid() && start <= blockByteIndex <= 56 && message == old(message) + Zeros(blockByteIndex - start)
      {
        ProcessByte(0);
      }
    }
  }

  lemma ZerosSum(a: nat, b: nat)
    ensures Zeros(a) + Zeros(b) == Zeros(a + b)
  {
  }

  lemma ZerosNeeded(n: nat)
    ensures var start := (n + 1) % 64; ZeroCount(n) == if start > 56 then 120 - start else 56 - start
  {
  }

  /** The low four bytes of the length survive the wrap-around of `size_t`. */
  lemma LowHalf(n: nat, bits: nat)
    requires bits == n % SIZE_LIMIT * 8 % SIZE_LIMIT
    ensures FourBytes(bits) == FourBytes(8 * n)
  {
    var q := n / SIZE_LIMIT;
    var r := n % SIZE_LIMIT * 8 / SIZE_LIMIT;
    assert 8 * n == bits + SIZE_LIMIT * (8 * q + r);
    FourBytesOfSum(bits, 8 * q + r);
  }

  lemma FourBytesOfSum(n: nat, k: nat)
    ensures FourBytes(n + SIZE_LIMIT * k) == FourBytes(n)
  {
    assert (n + SIZE_LIMIT * k) / 0x100_0000 == n / 0x100_0000 + 0x100_0000_0000 * k;
    assert (n + SIZE_LIMIT * k) / 0x1_0000 == n / 0x1_0000 + 0x1_0000_0000_0000 * k;
    assert (n + SIZE_LIMIT * k) / 0x100 == n / 0x100 + 0x100_0000_0000_0000 * k;
    WholeUnits(n / 0x100_0000, 0x1_0000_0000 * k);
    WholeUnits(n / 0x1_0000, 0x100_0000_0000 * k);
    WholeUnits(n / 0x100, 0x1_0000_0000_0000 * k);
    WholeUnits(n, 0x100_0000_0000_0000 * k);
  }

  lemma WholeUnits(q: nat, k: nat)
    ensures (q + 0x100 * k) % 0x100 == q % 0x100
  {
  }

  function Concat(parts: seq<bytes>): bytes {
    if parts == [] then [] else Concat(parts[..|parts| - 1]) + parts[|parts| - 1]
  }

  /** The digest of a message given in any parts: the standard's, below 2^29 bytes. */
  method HashInParts(parts: seq<bytes>) returns (h: Hash)
    ensures h == DigestByCode(CompressOf(C_OPERATIONS), Concat(parts))
    ensures |Concat(parts)| < 0x2000_0000 ==> h == Digest(CompressOf(C_OPERATIONS), Concat(parts))
  {
    OperationsAreLawful();
    var s := new SHA1(C_OPERATIONS);
    for i := 0 to |parts|
      invariant s.Valid() && s.message == Concat(parts[..i]) && fresh(s) && fresh(s.digest) && fresh(s.block)
    {
      assert parts[..i + 1][..i] == parts[..i];
      s.ProcessBytes(parts[i]);
    }
    assert parts[..|parts|] == parts;
    h := s.GetDigest();
    if |Concat(parts)| < 0x2000_0000 {
      PadsAsTheStandard(CompressOf(C_OPERATIONS), Concat(parts));
    }
  }
}
