/**
 CAN identifiers (`Id` in src/can.rs): an 11-bit standard identifier or a
 29-bit extended identifier. Both variants carry a `u32`, so an out-of-range
 value is representable; `Valid` is the check that rejects it.
 */
module CanId {
  import opened Bits

  /** Largest standard (11-bit) identifier. */
  const STANDARD_MAX: int := 0x7FF

  /** Largest extended (29-bit) identifier. */
  const EXTENDED_MAX: int := 0x1FFF_FFFF

  datatype Id = Standard(value: u32) | Extended(value: u32) {

    /** `Id::valid`: the value lies in the variant's range. */
    predicate Valid()
    {
      match this
      case Standard(v) => v <= STANDARD_MAX
      case Extended(v) => v <= EXTENDED_MAX
    }

    /** Bit width of the variant's identifier space. */
    function Width(): (w: nat)
      ensures w == 11 || w == 29
    {
      if Standard? then 11 else 29
    }
  }

  /** An identifier is valid exactly when its value fits in its variant's bit
      width: every bit at position `Width()` or above is clear. */
  lemma ValidIffFitsWidth(id: Id)
    ensures id.Valid() ==> forall i: nat :: id.Width() <= i ==> !Bit(id.value, i)
    ensures (forall i: nat :: id.Width() <= i ==> !Bit(id.value, i)) ==> id.Valid()
  {
    FitsInBits(id.value, id.Width());
    assert Pow2(11) == STANDARD_MAX + 1;
    assert Pow2(29) == EXTENDED_MAX + 1 by {
      assert Pow2(20) == 0x10_0000;
    }
  }

  /** The variant tag is part of an identifier's identity: a standard and an
      extended identifier are never equal, whatever their values. */
  lemma TagIsIdentity(a: Id, b: Id)
    ensures a.Standard? && b.Extended? ==> a != b
    ensures a == b <==> a.Standard? == b.Standard? && a.value == b.value
  {
  }
}
