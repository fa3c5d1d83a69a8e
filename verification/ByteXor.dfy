/** A byte survives being turned into an 8-bit vector and back: it is the number its binary digits spell. */
module Bits {
  import Division

  lemma Halves(n: nat, d: nat)
    requires d > 0
    ensures n / d == 2 * (n / (2 * d)) + n / d % 2
  {
    var q, r := n / (2 * d), n % (2 * d);
    assert n == d * (2 * q) + r;
    if r < d {
      Division.Quotient(n, d, 2 * q, r);
    } else {
      Division.Quotient(n, d, 2 * q + 1, r - d);
    }
  }

  lemma Binary(n: nat)
    requires n < 256
    ensures n == 128 * (n / 128 % 2) + 64 * (n / 64 % 2) + 32 * (n / 32 % 2) + 16 * (n / 16 % 2)
        + 8 * (n / 8 % 2) + 4 * (n / 4 % 2) + 2 * (n / 2 % 2) + n % 2
  {
    Halves(n, 1);
    Halves(n, 2);
    Halves(n, 4);
    Halves(n, 8);
    Halves(n, 16);
    Halves(n, 32);
    Halves(n, 64);
  }

  lemma BitsOf(n: nat)
    requires n < 256
    ensures (n as bv8) as int == n
  {
    Binary(n);
  }
}

/** Exclusive or of single bytes (the `^` of src/vpn/dht.rs), and its algebra. */
module ByteXor {
  import Bits
  import opened Identity

  function XorBits(x: bv8, y: bv8): byte { (x ^ y) as int }

  function XorByte(a: byte, b: byte): byte { XorBits(a as bv8, b as bv8) }

  lemma OfBits(x: bv8)
    ensures (x as int) as bv8 == x
  {
  }

  lemma SameNumber(x: bv8, y: bv8)
    requires x as int == y as int
    ensures x == y
  {
    OfBits(x);
    OfBits(y);
  }

  lemma XorCancels(x: bv8, y: bv8, z: bv8)
    ensures x ^ y == x ^ z ==> y == z
  {
  }

  lemma XorBitsInjective(x: bv8, y: bv8, z: bv8)
    requires XorBits(x, y) == XorBits(x, z)
    ensures y == z
  {
    SameNumber(x ^ y, x ^ z);
    XorCancels(x, y, z);
  }

  lemma XorBitsZero(x: bv8)
    ensures XorBits(x, x) == 0
  {
    assert x ^ x == 0;
  }

  lemma XorBitsSymmetric(x: bv8, y: bv8)
    ensures XorBits(x, y) == XorBits(y, x)
  {
    assert x ^ y == y ^ x;
  }

  /** A byte is told from another by its bits. */
  lemma BitsTell(a: byte, b: byte)
    requires a as bv8 == b as bv8
    ensures a == b
  {
    Bits.BitsOf(a);
    Bits.BitsOf(b);
  }

  lemma ByteXorSymmetric(a: byte, b: byte)
    ensures XorByte(a, b) == XorByte(b, a)
  {
    hide XorBits;
    XorBitsSymmetric(a as bv8, b as bv8);
  }

  lemma ByteXorInjective(a: byte, b: byte, c: byte)
    requires XorByte(a, b) == XorByte(a, c)
    ensures b == c
  {
    hide XorBits;
    XorBitsInjective(a as bv8, b as bv8, c as bv8);
    BitsTell(b, c);
  }

  lemma ByteXorZero(a: byte, b: byte)
    ensures XorByte(a, b) == 0 <==> a == b
  {
    hide XorBits;
    XorBitsZero(a as bv8);
    if XorByte(a, b) == 0 {
      ByteXorInjective(a, a, b);
    }
  }

  lemma XorTwice(x: bv8, y: bv8)
    ensures x ^ (x ^ y) == y
  {
  }

  lemma XorBitsTwice(x: bv8, y: bv8)
    ensures XorBits(x, XorBits(x, y) as bv8) == y as int
  {
    OfBits(x ^ y);
    XorTwice(x, y);
  }

  /** Exclusive or with the same byte twice gives the other byte back. */
  lemma ByteXorTwice(a: byte, b: byte)
    ensures XorByte(a, XorByte(a, b)) == b
  {
    hide XorBits;
    XorBitsTwice(a as bv8, b as bv8);
    Bits.BitsOf(b);
  }
}
