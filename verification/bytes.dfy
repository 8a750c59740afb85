/**
 * Byte values and JavaScript's bitwise `^` on them, defined bit by bit so that
 * the involution and range facts are proved rather than taken from a bit-vector
 * decision procedure.
 */
module Bytes {

  /** A `Uint8Array` element. */
  type Byte = b: int | 0 <= b < 256

  function Pow2(n: nat): (p: nat)
    ensures p >= 1
  {
    if n == 0 then 1 else 2 * Pow2(n - 1)
  }

  /** Bitwise exclusive or of two non-negative integers, lowest bit first. */
  function Xor(a: nat, b: nat): nat
    decreases a + b
  {
    if a == 0 && b == 0 then 0
    else 2 * Xor(a / 2, b / 2) + (if a % 2 == b % 2 then 0 else 1)
  }

  /** `ToUint8`: what storing a number into a `Uint8Array` slot keeps of it. */
  function ToUint8(x: int): (r: Byte)
    ensures 0 <= x < 256 ==> r == x
  {
    x % 256
  }

  lemma {:induction false} XorZero(a: nat)
    ensures Xor(a, 0) == a
  {
    if a != 0 {
      XorZero(a / 2);
    }
  }

  /** Exclusive or with the same key twice is the identity. */
  lemma {:induction false} XorXor(a: nat, k: nat)
    ensures Xor(Xor(a, k), k) == a
    decreases a + k
  {
    if a == 0 && k == 0 {
    } else {
      var x := Xor(a, k);
      XorXor(a / 2, k / 2);
      assert x / 2 == Xor(a / 2, k / 2) && x % 2 == (if a % 2 == k % 2 then 0 else 1);
    }
  }

  /** Exclusive or of two n-bit numbers is an n-bit number. */
  lemma {:induction false} XorBelow(a: nat, b: nat, n: nat)
    requires a < Pow2(n) && b < Pow2(n)
    ensures Xor(a, b) < Pow2(n)
    decreases n
  {
    if a == 0 && b == 0 {
    } else {
      assert n > 0;
      XorBelow(a / 2, b / 2, n - 1);
    }
  }

  /** The exclusive or of two bytes is a byte. */
  lemma XorOfBytes(a: Byte, b: Byte)
    ensures Xor(a, b) < 256
  {
    assert Pow2(8) == 256;
    XorBelow(a, b, 8);
  }
}
