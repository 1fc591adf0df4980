/**
 Unsigned 32-bit values and the bit operations the CAN filter rules use.

 Rust's `u32` is modelled as an integer in 0 .. 2^32. Bitwise AND is defined
 arithmetically (`And`), and `Bit(x, i)` reads bit `i` (bit 0 is the least
 significant). The lemmas connect the two, so that mask rules written with
 `&` can be read bit by bit.
 */
module Bits {

  const U32_LIMIT: int := 0x1_0000_0000

  type u32 = x: int | 0 <= x < U32_LIMIT

  /** 2 to the power `k`. */
  function Pow2(k: nat): (r: nat)
    ensures r >= 1
  {
    if k == 0 then 1 else 2 * Pow2(k - 1)
  }

  /** Bit `i` of `x`, counting from 0 at the least significant end. */
  predicate Bit(x: nat, i: nat)
  {
    if i == 0 then x % 2 == 1 else Bit(x / 2, i - 1)
  }

  /** Bitwise AND of two non-negative integers (Rust's `&` on `u32`). The
      result never exceeds either operand, so `&` of two `u32` is a `u32`. */
  function And(a: nat, b: nat): (r: nat)
    ensures r <= a && r <= b
    decreases a
  {
    if a == 0 || b == 0 then 0
    else 2 * And(a / 2, b / 2) + (if a % 2 == 1 && b % 2 == 1 then 1 else 0)
  }

  /** `And` is bitwise: bit `i` of `a & b` is set exactly when bit `i` is set
      in both operands. */
  lemma {:induction false} AndBit(a: nat, b: nat, i: nat)
    ensures Bit(And(a, b), i) <==> Bit(a, i) && Bit(b, i)
    decreases i
  {
    if a == 0 || b == 0 {
      ZeroHasNoBits(i);
    } else if i > 0 {
      AndBit(a / 2, b / 2, i - 1);
    }
  }

  lemma {:induction false} ZeroHasNoBits(i: nat)
    ensures !Bit(0, i)
  {
    if i > 0 {
      ZeroHasNoBits(i - 1);
    }
  }

  /** A value is determined by its bits. */
  lemma {:induction false} BitsDetermineValue(a: nat, b: nat)
    requires forall i: nat :: Bit(a, i) == Bit(b, i)
    ensures a == b
    decreases a + b
  {
    assert Bit(a, 0) == Bit(b, 0);
    if a != 0 || b != 0 {
      forall i: nat
        ensures Bit(a / 2, i) == Bit(b / 2, i)
      {
        assert Bit(a, i + 1) == Bit(b, i + 1);
      }
      BitsDetermineValue(a / 2, b / 2);
    }
  }

  /** A non-zero value has a set bit. */
  lemma {:induction false} NonZeroHasBit(x: nat) returns (i: nat)
    requires x != 0
    ensures Bit(x, i)
    decreases x
  {
    if x % 2 == 1 {
      i := 0;
    } else {
      var j := NonZeroHasBit(x / 2);
      i := j + 1;
    }
  }

  /** `x` fits in `k` bits exactly when every bit at position `k` or above is clear. */
  lemma {:induction false} FitsInBits(x: nat, k: nat)
    ensures x < Pow2(k) ==> forall i: nat :: k <= i ==> !Bit(x, i)
    ensures (forall i: nat :: k <= i ==> !Bit(x, i)) ==> x < Pow2(k)
    decreases k
  {
    if k == 0 {
      if x != 0 {
        var i := NonZeroHasBit(x);
        assert k <= i && Bit(x, i);
      } else {
        forall i: nat ensures !Bit(0, i) {
          ZeroHasNoBits(i);
        }
      }
    } else {
      FitsInBits(x / 2, k - 1);
      if x < Pow2(k) {
        forall i: nat | k <= i
          ensures !Bit(x, i)
        {
          assert !Bit(x / 2, i - 1);
        }
      } else {
        assert !(x / 2 < Pow2(k - 1));
        var j: nat :| k - 1 <= j && Bit(x / 2, j);
        assert k <= j + 1 && Bit(x, j + 1);
      }
    }
  }

  /** Pow2(32) is the size of the `u32` range. */
  lemma Pow2ThirtyTwo()
    ensures Pow2(32) == U32_LIMIT
  {
    assert Pow2(8) == 0x100;
    assert Pow2(16) == 0x1_0000;
    assert Pow2(24) == 0x100_0000;
  }

  /** A `u32` has no bit set at position 32 or above. */
  lemma U32HighBitsClear(x: u32, i: nat)
    requires 32 <= i
    ensures !Bit(x, i)
  {
    Pow2ThirtyTwo();
    FitsInBits(x, 32);
  }

  /** The mask rule of `Filter::with_mask` in register form, `(F & M) == (R & M)`. */
  predicate MaskedEqual(filterId: u32, mask: u32, received: u32)
  {
    And(filterId, mask) == And(received, mask)
  }

  /** Bit position `i` cannot reject: the mask ignores it or both ids agree on it. */
  predicate BitAgrees(filterId: u32, mask: u32, received: u32, i: nat)
  {
    Bit(mask, i) ==> (Bit(filterId, i) <==> Bit(received, i))
  }

  /** The register form and the bit-by-bit reading of the mask rule agree:
      a received id passes exactly when it agrees with the filter id on every
      one of the 32 bit positions that is set in the mask. */
  lemma MaskedEqualIsBitwise(filterId: u32, mask: u32, received: u32)
    ensures MaskedEqual(filterId, mask, received) ==>
            forall i: nat :: i < 32 ==> BitAgrees(filterId, mask, received, i)
    ensures (forall i: nat :: i < 32 ==> BitAgrees(filterId, mask, received, i)) ==>
            MaskedEqual(filterId, mask, received)
  {
    var a, b := And(filterId, mask), And(received, mask);
    forall i: nat
      ensures Bit(a, i) <==> Bit(filterId, i) && Bit(mask, i)
      ensures Bit(b, i) <==> Bit(received, i) && Bit(mask, i)
    {
      AndBit(filterId, mask, i);
      AndBit(received, mask, i);
    }
    if forall i: nat :: i < 32 ==> BitAgrees(filterId, mask, received, i) {
      forall i: nat
        ensures Bit(a, i) == Bit(b, i)
      {
        if 32 <= i {
          U32HighBitsClear(mask, i);
        } else {
          assert BitAgrees(filterId, mask, received, i);
        }
      }
      BitsDetermineValue(a, b);
    }
  }

  /** An all-ones mask compares every bit: only the filter id itself passes. */
  lemma FullMaskIsExact(filterId: u32, received: u32)
    ensures MaskedEqual(filterId, 0xFFFF_FFFF, received) <==> filterId == received
  {
    MaskedEqualIsBitwise(filterId, 0xFFFF_FFFF, received);
    Pow2ThirtyTwo();
    FitsInBits(0xFFFF_FFFF, 32);
    if MaskedEqual(filterId, 0xFFFF_FFFF, received) {
      forall i: nat
        ensures Bit(filterId, i) == Bit(received, i)
      {
        if 32 <= i {
          U32HighBitsClear(filterId, i);
          U32HighBitsClear(received, i);
        } else {
          AllOnesBit(i);
          assert BitAgrees(filterId, 0xFFFF_FFFF, received, i);
        }
      }
      BitsDetermineValue(filterId, received);
    }
  }

  /** Every one of the lowest 32 bits of 0xFFFF_FFFF is set. */
  lemma AllOnesBit(i: nat)
    requires i < 32
    ensures Bit(0xFFFF_FFFF, i)
  {
    LowOnesBit(32, i);
    Pow2ThirtyTwo();
  }

  /** Every bit below `k` of 2^k - 1 is set. */
  lemma {:induction false} LowOnesBit(k: nat, i: nat)
    requires i < k
    ensures Bit(Pow2(k) - 1, i)
    decreases k
  {
    if i > 0 {
      assert (Pow2(k) - 1) / 2 == Pow2(k - 1) - 1;
      LowOnesBit(k - 1, i - 1);
    }
  }

  /** A zero mask compares nothing: every received id passes. */
  lemma ZeroMaskAcceptsAll(filterId: u32, received: u32)
    ensures MaskedEqual(filterId, 0, received)
  {
  }
}
