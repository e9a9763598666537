/**
 * Powers of two and the address arithmetic that the buddy allocator
 * performs with masks and bit tricks on `usize` values.
 *
 * Addresses are unbounded naturals. Alignment and single bits are defined
 * by repeated halving, so that every division here is by the constant 2;
 * every bit trick of the allocator is given as an arithmetic function
 * together with the facts the allocator's proofs need about it.
 */
module Bits {

  function Pow2(k: nat): (r: nat)
    ensures r >= 1
  {
    if k == 0 then 1 else 2 * Pow2(k - 1)
  }

  function Min(a: nat, b: nat): nat { if a <= b then a else b }

  function Max(a: nat, b: nat): nat { if a >= b then a else b }

  lemma {:induction false} Pow2Monotone(j: nat, k: nat)
    requires j <= k
    ensures Pow2(j) <= Pow2(k)
    ensures j < k ==> 2 * Pow2(j) <= Pow2(k)
  {
    if j < k {
      Pow2Monotone(j, k - 1);
    }
  }

  lemma Pow2Injective(a: nat, b: nat)
    requires Pow2(a) <= Pow2(b)
    ensures a <= b
  {
    if a > b {
      Pow2Monotone(b, a);
    }
  }

  /** `a` is a multiple of `2^k`: its `k` lowest bits are zero. */
  predicate Aligned(a: nat, k: nat)
  {
    k == 0 || (a % 2 == 0 && Aligned(a / 2, k - 1))
  }

  /** Bit `k` of `a`. */
  function Bit(a: nat, k: nat): (r: nat)
    ensures r < 2
  {
    if k == 0 then a % 2 else Bit(a / 2, k - 1)
  }

  lemma {:induction false} AlignedWeaken(a: nat, j: nat, k: nat)
    requires j <= k && Aligned(a, k)
    ensures Aligned(a, j)
  {
    if j > 0 {
      AlignedWeaken(a / 2, j - 1, k - 1);
    }
  }

  lemma {:induction false} AlignedAdd(a: nat, c: nat, k: nat)
    requires Aligned(a, k) && Aligned(c, k)
    ensures Aligned(a + c, k)
  {
    if k > 0 {
      AlignedAdd(a / 2, c / 2, k - 1);
      assert (a + c) / 2 == a / 2 + c / 2;
    }
  }

  lemma {:induction false} Pow2Aligned(j: nat, k: nat)
    requires j <= k
    ensures Aligned(Pow2(k), j)
  {
    if j > 0 {
      Pow2Aligned(j - 1, k - 1);
    }
  }

  /** A multiple of `2^k` is a multiple of `2^(k+1)` exactly when bit `k` is clear. */
  lemma {:induction false} AlignedBit(a: nat, k: nat)
    requires Aligned(a, k)
    ensures Aligned(a, k + 1) <==> Bit(a, k) == 0
  {
    if k > 0 {
      AlignedBit(a / 2, k - 1);
    }
  }

  /** Adding `2^k` to a multiple of `2^(k+1)` sets bit `k`. */
  lemma {:induction false} AddPow2(a: nat, k: nat)
    requires Aligned(a, k + 1)
    ensures Aligned(a + Pow2(k), k) && Bit(a + Pow2(k), k) == 1 && Bit(a, k) == 0
  {
    if k > 0 {
      AddPow2(a / 2, k - 1);
      assert (a + Pow2(k)) / 2 == a / 2 + Pow2(k - 1);
    }
  }

  /** Clearing bit `k` of a multiple of `2^k` gives a multiple of `2^(k+1)`. */
  lemma {:induction false} SubPow2(a: nat, k: nat)
    requires Aligned(a, k) && Bit(a, k) == 1
    ensures a >= Pow2(k) && Aligned(a - Pow2(k), k + 1)
  {
    if k > 0 {
      SubPow2(a / 2, k - 1);
      assert (a - Pow2(k)) / 2 == a / 2 - Pow2(k - 1);
    }
  }

  /** A set bit `k` means the number is at least `2^k`. */
  lemma {:induction false} BitSetAtLeast(a: nat, k: nat)
    requires Bit(a, k) == 1
    ensures a >= Pow2(k)
  {
    if k > 0 {
      BitSetAtLeast(a / 2, k - 1);
    }
  }

  /** `trailing_zeros` of a positive integer: the exponent of its lowest set bit. */
  function TrailingZeros(x: nat): nat
    requires x > 0
  {
    if x % 2 == 1 then 0 else 1 + TrailingZeros(x / 2)
  }

  lemma {:induction false} TrailingZerosAligned(x: nat)
    requires x > 0
    ensures Aligned(x, TrailingZeros(x)) && !Aligned(x, TrailingZeros(x) + 1)
  {
    if x % 2 == 0 {
      TrailingZerosAligned(x / 2);
    }
  }

  lemma {:induction false} TrailingZerosPow2(k: nat)
    ensures TrailingZeros(Pow2(k)) == k
  {
    if k > 0 {
      TrailingZerosPow2(k - 1);
    }
  }

  /** `x` is a power of two (a `Layout` alignment always is). */
  predicate IsPow2(x: nat)
  {
    x > 0 && Pow2(TrailingZeros(x)) == x
  }

  lemma Pow2IsPow2(k: nat)
    ensures IsPow2(Pow2(k)) && TrailingZeros(Pow2(k)) == k
  {
    TrailingZerosPow2(k);
  }

  /** Of two different powers of two, the larger is at least twice the smaller. */
  lemma Pow2Gap(p: nat, r: nat)
    requires IsPow2(p) && IsPow2(r) && p < r
    ensures 2 * p <= r
  {
    if TrailingZeros(p) < TrailingZeros(r) {
      Pow2Monotone(TrailingZeros(p), TrailingZeros(r));
    } else {
      Pow2Monotone(TrailingZeros(r), TrailingZeros(p));
    }
  }

  /**
   * `x & (!x + 1)` on a machine word: the lowest set bit of `x`, or 0 when
   * `x` is 0. It is the largest power of two dividing `x`.
   */
  function LowestSetBit(x: nat): (r: nat)
    ensures x == 0 ==> r == 0
    ensures x > 0 ==> IsPow2(r) && Aligned(x, TrailingZeros(r)) && !Aligned(x, TrailingZeros(r) + 1)
  {
    if x == 0 then 0
    else
      TrailingZerosAligned(x);
      Pow2IsPow2(TrailingZeros(x));
      Pow2(TrailingZeros(x))
  }

  /** The least `k` with `2^k >= n`, searching upward from `k`. */
  function CeilLog2From(n: nat, k: nat): (r: nat)
    requires k == 0 || Pow2(k - 1) < n
    ensures n <= Pow2(r) && (r == 0 || Pow2(r - 1) < n)
    decreases n - Pow2(k)
  {
    if n <= Pow2(k) then k else CeilLog2From(n, k + 1)
  }

  /**
   * `n.next_power_of_two()`: the least power of two that is at least `n`
   * (1 for 0 and 1).
   */
  function NextPowerOfTwo(n: nat): (r: nat)
    ensures IsPow2(r) && n <= r && (r == 1 || r / 2 < n)
  {
    var k := CeilLog2From(n, 0);
    Pow2IsPow2(k);
    Pow2(k)
  }

  /**
   * `(x + 1).next_power_of_two() >> 1` is the largest power of two not
   * exceeding `x`.
   */
  lemma FloorPow2(x: nat)
    requires x >= 1
    ensures var r := NextPowerOfTwo(x + 1) / 2;
            IsPow2(r) && r <= x < 2 * r
  {
    var k := CeilLog2From(x + 1, 0);
    assert k >= 1;
    assert NextPowerOfTwo(x + 1) / 2 == Pow2(k - 1);
    Pow2IsPow2(k - 1);
  }

  /** `a ^ (1 << k)`: flip bit `k` of `a`. */
  function FlipBit(a: nat, k: nat): nat
  {
    if Bit(a, k) == 0 then a + Pow2(k)
    else
      BitSetAtLeast(a, k);
      a - Pow2(k)
  }

  /** The two halves of a block aligned to `2^(k+1)` are each other's buddies. */
  lemma SplitBuddy(a: nat, k: nat)
    requires Aligned(a, k + 1)
    ensures Aligned(a, k) && Aligned(a + Pow2(k), k)
    ensures FlipBit(a, k) == a + Pow2(k) && FlipBit(a + Pow2(k), k) == a
  {
    AlignedWeaken(a, k, k + 1);
    AddPow2(a, k);
  }

  /**
   * A block aligned to `2^k` and its buddy at bit `k` are the two halves of
   * the block aligned to `2^(k+1)` that starts at the smaller of the two.
   */
  lemma MergeBuddy(a: nat, k: nat)
    requires Aligned(a, k)
    ensures var b := FlipBit(a, k);
            && Aligned(b, k)
            && Aligned(Min(a, b), k + 1)
            && ((a == Min(a, b) && b == a + Pow2(k)) || (b == Min(a, b) && a == b + Pow2(k)))
  {
    AlignedBit(a, k);
    if Bit(a, k) == 0 {
      SplitBuddy(a, k);
    } else {
      SubPow2(a, k);
      AlignedWeaken(a - Pow2(k), k, k + 1);
    }
  }
}
