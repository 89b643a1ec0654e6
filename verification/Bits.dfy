/** The bitwise operations of C on natural numbers, bit by bit. */
module Bits {

  function Pow2(n: nat): (p: nat)
    ensures p >= 1
  {
    if n == 0 then 1 else 2 * Pow2(n - 1)
  }

  function AndBits(x: nat, y: nat): nat {
    if x == 0 || y == 0 then 0 else 2 * AndBits(x / 2, y / 2) + if x % 2 == 1 && y % 2 == 1 then 1 else 0
  }

  function OrBits(x: nat, y: nat): nat
    decreases x + y
  {
    if x == 0 && y == 0 then 0 else 2 * OrBits(x / 2, y / 2) + if x % 2 == 1 || y % 2 == 1 then 1 else 0
  }

  function XorBits(x: nat, y: nat): nat
    decreases x + y
  {
    if x == 0 && y == 0 then 0 else 2 * XorBits(x / 2, y / 2) + if x % 2 != y % 2 then 1 else 0
  }

  lemma {:induction false} BitsFit(x: nat, y: nat, n: nat)
    requires x < Pow2(n) && y < Pow2(n)
    ensures AndBits(x, y) < Pow2(n) && OrBits(x, y) < Pow2(n) && XorBits(x, y) < Pow2(n)
    decreases n
  {
    if n > 0 {
      BitsFit(x / 2, y / 2, n - 1);
    }
  }

  lemma Pow2Values()
    ensures Pow2(1) == 2 && Pow2(8) == 0x100 && Pow2(16) == 0x1_0000 && Pow2(24) == 0x100_0000
        && Pow2(32) == 0x1_0000_0000
  {
    assert Pow2(4) == 16;
    assert Pow2(12) == 16 * Pow2(8);
    assert Pow2(20) == 16 * Pow2(16);
    assert Pow2(28) == 16 * Pow2(24);
  }

  lemma BitsOf(x: nat, y: nat)
    ensures AndBits(x, y) / 2 == AndBits(x / 2, y / 2) && (AndBits(x, y) % 2 == 1 <==> x % 2 == 1 && y % 2 == 1)
    ensures OrBits(x, y) / 2 == OrBits(x / 2, y / 2) && (OrBits(x, y) % 2 == 1 <==> x % 2 == 1 || y % 2 == 1)
    ensures XorBits(x, y) / 2 == XorBits(x / 2, y / 2) && (XorBits(x, y) % 2 == 1 <==> x % 2 != y % 2)
  {
  }

  lemma SameBits(a: nat, b: nat)
    requires a / 2 == b / 2 && (a % 2 == 1 <==> b % 2 == 1)
    ensures a == b
  {
  }

  /** Exclusive or with the same operand twice changes nothing. */
  lemma {:induction false} XorBitsTwice(x: nat, y: nat)
    ensures XorBits(XorBits(x, y), y) == x
    decreases x + y
  {
    if x != 0 || y != 0 {
      var z := XorBits(x, y);
      BitsOf(x, y);
      BitsOf(z, y);
      XorBitsTwice(x / 2, y / 2);
      SameBits(XorBits(z, y), x);
    }
  }
}
