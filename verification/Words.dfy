/**
 * 32-bit words: the bit operations of C on unsigned integers, and the identities between the
 * ways the code and the standard combine them. Shifts are products and quotients by powers of two;
 * the bitwise operations work bit by bit on natural numbers.
 */
module Words {

  import opened Bits
  import opened Octets

  type word = n: int | 0 <= n < 0x1_0000_0000

  const ALL_ONES: word := 0xFFFF_FFFF

  function And(x: word, y: word): word { Pow2Values(); BitsFit(x, y, 32); AndBits(x, y) }
  function Or(x: word, y: word): word { Pow2Values(); BitsFit(x, y, 32); OrBits(x, y) }
  function Xor(x: word, y: word): word { Pow2Values(); BitsFit(x, y, 32); XorBits(x, y) }
  function Not(x: word): word { ALL_ONES - x }
  function Add(x: word, y: word): word { (x + y) % 0x1_0000_0000 }
  function Shl(x: word, n: nat): word { x * Pow2(n) % 0x1_0000_0000 }
  function Shr(x: word, n: nat): word { Quotient(x, Pow2(n)) }

  function Quotient(x: nat, d: nat): (q: nat)
    requires d > 0
    ensures q <= x
  {
    Division(x, d);
    x / d
  }

  lemma Division(x: nat, d: nat)
    requires d > 0
    ensures x == d * (x / d) + x % d && x / d <= x
  {
    AtLeastOnce(x / d, d);
  }

  lemma AtLeastOnce(d: nat, k: int)
    ensures k >= 1 ==> d * k >= d
    ensures k <= -1 ==> d * k + d <= 0
  {
  }

  // ----- Bit by bit -----

  lemma {:induction false} ChoiceBits(n: nat, x: nat, y: nat, z: nat)
    requires x < Pow2(n) && y < Pow2(n) && z < Pow2(n)
    ensures var nx := Pow2(n) - 1 - x;
      OrBits(AndBits(x, y), AndBits(nx, z)) == XorBits(AndBits(x, y), AndBits(nx, z))
    decreases n
  {
    if n > 0 {
      var nx := Pow2(n) - 1 - x;
      var p, q := AndBits(x, y), AndBits(nx, z);
      ChoiceBits(n - 1, x / 2, y / 2, z / 2);
      assert nx / 2 == Pow2(n - 1) - 1 - x / 2 && nx % 2 == 1 - x % 2;
      BitsOf(x, y);
      BitsOf(nx, z);
      BitsOf(p, q);
      SameBits(OrBits(p, q), XorBits(p, q));
    }
  }

  lemma {:induction false} MajorityBits(n: nat, x: nat, y: nat, z: nat)
    requires x < Pow2(n) && y < Pow2(n) && z < Pow2(n)
    ensures OrBits(OrBits(AndBits(x, y), AndBits(x, z)), AndBits(y, z))
         == XorBits(XorBits(AndBits(x, y), AndBits(x, z)), AndBits(y, z))
    decreases n
  {
    if n > 0 {
      var p, q, r := AndBits(x, y), AndBits(x, z), AndBits(y, z);
      MajorityBits(n - 1, x / 2, y / 2, z / 2);
      BitsOf(x, y);
      BitsOf(x, z);
      BitsOf(y, z);
      BitsOf(p, q);
      BitsOf(OrBits(p, q), r);
      BitsOf(XorBits(p, q), r);
      SameBits(OrBits(OrBits(p, q), r), XorBits(XorBits(p, q), r));
    }
  }

  /** Numbers without a common bit: both operations add. */
  lemma DisjointBits(n: nat, high: nat, low: nat)
    requires low < Pow2(n)
    ensures OrBits(Pow2(n) * high, low) == Pow2(n) * high + low == XorBits(Pow2(n) * high, low)
  {
    ShiftedIs(high, n);
    DisjointShifted(n, high, low);
  }

  function Shifted(x: nat, n: nat): nat { if n == 0 then x else 2 * Shifted(x, n - 1) }

  lemma {:induction false} ShiftedIs(x: nat, n: nat)
    ensures Shifted(x, n) == Pow2(n) * x
  {
    if n > 0 {
      ShiftedIs(x, n - 1);
      Doubled(Pow2(n), Pow2(n - 1), x);
    }
  }

  lemma {:induction false} DisjointShifted(n: nat, high: nat, low: nat)
    requires low < Pow2(n)
    ensures OrBits(Shifted(high, n), low) == Shifted(high, n) + low == XorBits(Shifted(high, n), low)
    decreases n
  {
    if n > 0 {
      DisjointShifted(n - 1, high, low / 2);
      DisjointStep(Shifted(high, n), Shifted(high, n - 1), low);
    } else {
      NoLowBits(high);
    }
  }

  lemma {:induction false} NoLowBits(x: nat)
    ensures OrBits(x, 0) == x == XorBits(x, 0)
  {
    if x > 0 {
      NoLowBits(x / 2);
      BitsOf(x, 0);
      SameBits(OrBits(x, 0), x);
      SameBits(XorBits(x, 0), x);
    }
  }

  lemma Doubled(p: nat, half: nat, k: nat)
    requires p == 2 * half
    ensures p * k == 2 * (half * k)
  {
  }

  lemma DisjointStep(h: nat, half: nat, low: nat)
    requires h == 2 * half && OrBits(half, low / 2) == half + low / 2 == XorBits(half, low / 2)
    ensures OrBits(h, low) == h + low == XorBits(h, low)
  {
    assert h / 2 == half && h % 2 == 0;
    BitsOf(h, low);
    SameBits(OrBits(h, low), h + low);
    SameBits(XorBits(h, low), h + low);
  }

  // ----- On words -----

  /** `(x & y) | (~x & z)`: the two parts have no bit in common. */
  lemma ChoicesAgree(x: word, y: word, z: word)
    ensures Or(And(x, y), And(Not(x), z)) == Xor(And(x, y), And(Not(x), z))
  {
    Pow2Values();
    ChoiceBits(32, x, y, z);
  }

  /** Bits that two of three agree on. */
  lemma MajoritiesAgree(x: word, y: word, z: word)
    ensures Or(Or(And(x, y), And(x, z)), And(y, z)) == Xor(Xor(And(x, y), And(x, z)), And(y, z))
  {
    Pow2Values();
    MajorityBits(32, x, y, z);
  }

  lemma {:induction false} Pow2Sum(n: nat, m: nat)
    ensures Pow2(n) * Pow2(m) == Pow2(n + m)
  {
    if n > 0 {
      Pow2Sum(n - 1, m);
    }
  }

  lemma RemainderIs(x: nat, d: nat, q: nat, r: nat)
    requires x == d * q + r && r < d
    ensures x % d == r
  {
    var p := x / d;
    assert d * (p - q) == r - x % d;
    AtLeastOnce(d, p - q);
  }

  /** A left shift drops the upper bits. */
  lemma ShlIs(x: word, n: nat)
    requires n <= 32
    ensures Shl(x, n) == Pow2(n) * (x % Pow2(32 - n))
  {
    Pow2Values();
    Pow2Sum(n, 32 - n);
    ShiftedRemainder(x, Pow2(n), Pow2(32 - n));
  }

  lemma ShiftedRemainder(x: nat, p: nat, q: nat)
    requires p > 0 && q > 0
    ensures p * q > 0 && x * p % (p * q) == p * (x % q)
  {
    var k, r := x / q, x % q;
    Division(x, q);
    assert x * p == (q * k + r) * p == q * k * p + r * p;
    assert q * k * p == (p * q) * k;
    assert p * r + p <= p * q by {
      AtLeastOnce(p, q - r);
      assert p * (q - r) == p * q - p * r;
    }
    RemainderIs(x * p, p * q, k, p * r);
  }

  lemma QuotientBelow(x: nat, p: nat, q: nat)
    requires q > 0 && x < p * q
    ensures x / q < p
  {
    Division(x, q);
    AtLeastOnce(q, x / q - p + 1);
    assert q * (x / q - p + 1) == q * (x / q) - q * p + q;
  }

  /** A rotation may join its two halves with either operation. */
  lemma RotationsAgree(x: word, n: nat)
    requires 0 < n < 32
    ensures Xor(Shl(x, n), Shr(x, 32 - n)) == Or(Shl(x, n), Shr(x, 32 - n))
  {
    ShlIs(x, n);
    assert x < Pow2(n) * Pow2(32 - n) by {
      Pow2Values();
      Pow2Sum(n, 32 - n);
    }
    QuotientBelow(x, Pow2(n), Pow2(32 - n));
    DisjointBits(n, x % Pow2(32 - n), Shr(x, 32 - n));
  }

  lemma Join(n: nat, high: nat, low: nat, h: word, l: word)
    requires h == Pow2(n) * high && l == low < Pow2(n)
    ensures Or(h, l) == h + l
  {
    DisjointBits(n, high, low);
  }

  lemma ByteShifts(b: byte)
    ensures Shl(b, 24) == b * 0x100_0000 && Shl(b, 16) == b * 0x1_0000 && Shl(b, 8) == b * 0x100
  {
    Pow2Values();
    ShlExact(b, 24, 0x100_0000);
    ShlExact(b, 16, 0x1_0000);
    ShlExact(b, 8, 0x100);
  }

  lemma ShlExact(x: word, n: nat, p: nat)
    requires p == Pow2(n) && x * p < 0x1_0000_0000
    ensures Shl(x, n) == x * p
  {
  }

  /** Four bytes joined by shifts. */
  lemma BytesJoin(b0: byte, b1: byte, b2: byte, b3: byte)
    ensures Or(Or(Or(Shl(b0, 24), Shl(b1, 16)), Shl(b2, 8)), b3) == b0 * 0x100_0000 + b1 * 0x1_0000 + b2 * 0x100 + b3
  {
    ByteShifts(b0);
    ByteShifts(b1);
    ByteShifts(b2);
    Pow2Values();
    var h1, h2, h3 := b0 * 0x100_0000, b0 * 0x100_0000 + b1 * 0x1_0000, b0 * 0x100_0000 + b1 * 0x1_0000 + b2 * 0x100;
    Join(24, b0, b1 * 0x1_0000, h1, b1 * 0x1_0000);
    Join(16, b0 * 0x100 + b1, b2 * 0x100, h2, b2 * 0x100);
    Join(8, b0 * 0x1_0000 + b1 * 0x100 + b2, b3, h3, b3);
  }

  // ----- The operations as a record -----

  /** The operations a hash function uses, and all its proof needs to know of them. */
  datatype Operations = Operations(
    and: (word, word) -> word,
    or: (word, word) -> word,
    xor: (word, word) -> word,
    not: word -> word,
    add: (word, word) -> word,
    shl: (word, nat) -> word,
    shr: (word, nat) -> word)

  const C_OPERATIONS: Operations := Operations(And, Or, Xor, Not, Add, Shl, Shr)

  ghost predicate ChoiceLaw(k: Operations, x: word, y: word, z: word) {
    k.or(k.and(x, y), k.and(k.not(x), z)) == k.xor(k.and(x, y), k.and(k.not(x), z))
  }

  ghost predicate MajorityLaw(k: Operations, x: word, y: word, z: word) {
    k.or(k.or(k.and(x, y), k.and(x, z)), k.and(y, z)) == k.xor(k.xor(k.and(x, y), k.and(x, z)), k.and(y, z))
  }

  ghost predicate RotationLaw(k: Operations, x: word, n: nat) {
    0 < n < 32 ==> k.xor(k.shl(x, n), k.shr(x, 32 - n)) == k.or(k.shl(x, n), k.shr(x, 32 - n))
  }

  ghost predicate BytesLaw(k: Operations, b0: byte, b1: byte, b2: byte, b3: byte) {
    k.or(k.or(k.or(k.shl(b0, 24), k.shl(b1, 16)), k.shl(b2, 8)), b3) == FromBytes(b0, b1, b2, b3)
  }

  function FromBytes(b0: int, b1: int, b2: int, b3: int): word
    requires 0 <= b0 < 256 && 0 <= b1 < 256 && 0 <= b2 < 256 && 0 <= b3 < 256
  {
    b0 * 0x100_0000 + b1 * 0x1_0000 + b2 * 0x100 + b3
  }

  ghost predicate Lawful(k: Operations) {
    && (forall x, y, z {:trigger ChoiceLaw(k, x, y, z)} :: ChoiceLaw(k, x, y, z))
    && (forall x, y, z {:trigger MajorityLaw(k, x, y, z)} :: MajorityLaw(k, x, y, z))
    && (forall x, n: nat {:trigger RotationLaw(k, x, n)} :: RotationLaw(k, x, n))
    && (forall b0, b1, b2, b3 {:trigger BytesLaw(k, b0, b1, b2, b3)} :: BytesLaw(k, b0, b1, b2, b3))
  }

  lemma OperationsAreLawful()
    ensures Lawful(C_OPERATIONS)
  {
    var k := C_OPERATIONS;
    forall x, y, z ensures ChoiceLaw(k, x, y, z) && MajorityLaw(k, x, y, z) {
      ChoicesAgree(x, y, z);
      MajoritiesAgree(x, y, z);
    }
    forall x, n: nat ensures RotationLaw(k, x, n) {
      if 0 < n < 32 {
        RotationsAgree(x, n);
      }
    }
    forall b0, b1, b2, b3 ensures BytesLaw(k, b0, b1, b2, b3) {
      BytesJoin(b0, b1, b2, b3);
    }
  }
}
