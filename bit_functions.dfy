/**
 * The `choose!` and `majority!` macros, on the 32-bit words of SHA-1 and
 * SHA-256 and on the 64-bit words of SHA-512. They are Ch and Maj of
 * sections 4.1.1 to 4.1.3 of FIPS 180-4, written with exclusive or; each
 * contract gives the bitwise reading: Ch takes each bit from `y` where `x`
 * has a one and from `z` where it has a zero, and Maj sets the bits where at
 * least two of its arguments have a one.
 */
module BitFunctions {

  function Choose32(x: bv32, y: bv32, z: bv32): (r: bv32)
    ensures r & x == y & x && r & !x == z & !x
  {
    (x & y) ^ (!x & z)
  }

  function Majority32(x: bv32, y: bv32, z: bv32): (r: bv32)
    ensures r == (x & y) | (x & z) | (y & z)
  {
    (x & y) ^ (x & z) ^ (y & z)
  }

  function Choose64(x: bv64, y: bv64, z: bv64): (r: bv64)
    ensures r & x == y & x && r & !x == z & !x
  {
    (x & y) ^ (!x & z)
  }

  function Majority64(x: bv64, y: bv64, z: bv64): (r: bv64)
    ensures r == (x & y) | (x & z) | (y & z)
  {
    (x & y) ^ (x & z) ^ (y & z)
  }

  /** Maj does not depend on the order of its arguments: two transpositions generate every permutation. */
  lemma MajoritySymmetric32(x: bv32, y: bv32, z: bv32)
    ensures Majority32(x, y, z) == Majority32(y, x, z) && Majority32(x, y, z) == Majority32(x, z, y)
  {
  }

  lemma MajoritySymmetric64(x: bv64, y: bv64, z: bv64)
    ensures Majority64(x, y, z) == Majority64(y, x, z) && Majority64(x, y, z) == Majority64(x, z, y)
  {
  }

  /** Choosing between equal words gives that word; a majority of two equal words is that word. */
  lemma ChooseMajoritySame32(x: bv32, y: bv32, z: bv32)
    ensures Choose32(x, y, y) == y && Majority32(x, x, z) == x
  {
  }

  lemma ChooseMajoritySame64(x: bv64, y: bv64, z: bv64)
    ensures Choose64(x, y, y) == y && Majority64(x, x, z) == x
  {
  }

  /*
   * The word operations the cores call: `wrapping_add`, addition modulo the
   * word size, and `rotate_left` and `rotate_right`, written as `ROTL^n` and
   * `ROTR^n` of section 3.2 of FIPS 180-4 (every amount the cores use lies
   * strictly between 0 and the word size). Keeping each behind its own name
   * lets the proofs about the cores match equal calls without unfolding the
   * arithmetic.
   */

  function WrappingAdd32(x: bv32, y: bv32): bv32
  {
    x + y
  }

  function WrappingAdd64(x: bv64, y: bv64): bv64
  {
    x + y
  }

  function RotateLeft32(x: bv32, n: nat): bv32
    requires 0 < n < 32
  {
    (x << n) | (x >> (32 - n))
  }

  function RotateRight32(x: bv32, n: nat): bv32
    requires 0 < n < 32
  {
    (x >> n) | (x << (32 - n))
  }

  function RotateRight64(x: bv64, n: nat): bv64
    requires 0 < n < 64
  {
    (x >> n) | (x << (64 - n))
  }
}
