/** The packed integers of ptr.hpp: a value in the high bits of a machine word and flags in its low bits. */
module PackedWords {
  import opened Powers

  /** AlignmentPackedInt::packed_shifted on words of `width` bits; a left shift drops what does not fit. */
  function PackedShifted(width: nat, bits: nat, value: nat, flags: nat): nat {
    ModPow2(value * Pow2(bits), width) + flags
  }

  function ValueShifted(bits: nat, raw: nat): nat {
    DivPow2(raw, bits)
  }

  /** The low bits, which AlignmentPackedPtr calls its data. */
  function Flags(bits: nat, raw: nat): nat {
    ModPow2(raw, bits)
  }

  /** AlignmentPackedPtr::ptr */
  function Pointer(bits: nat, raw: nat): int {
    DivPow2(raw, bits) * Pow2(bits)
  }

  /** A left shift by `bits` within `width` bits keeps the low `width - bits` bits of the value. */
  lemma LowBitsFree(value: nat, bits: nat, width: nat)
    requires bits <= width
    ensures ModPow2(value * Pow2(bits), width) == ModPow2(value, width - bits) * Pow2(bits)
  {
    ShiftBoth(value, width - bits, bits);
  }

  /** Packing loses nothing exactly when the value fits above the flag bits. */
  lemma PackRoundTrip(width: nat, bits: nat, value: nat, flags: nat)
    requires bits <= width && flags < Pow2(bits)
    ensures Flags(bits, PackedShifted(width, bits, value, flags)) == flags
    ensures ValueShifted(bits, PackedShifted(width, bits, value, flags)) == value <==> value < Pow2(width - bits)
  {
    LowBitsFree(value, bits, width);
    DivPow2Unique(PackedShifted(width, bits, value, flags), bits, ModPow2(value, width - bits));
    if value < Pow2(width - bits) {
      DivPow2Unique(value, width - bits, 0);
    }
  }

  /** A pointer aligned past the flag bits comes back unchanged, with its flags. */
  lemma PointerRoundTrip(bits: nat, pointer: nat, flags: nat)
    requires ModPow2(pointer, bits) == 0 && flags < Pow2(bits)
    ensures Pointer(bits, pointer + flags) == pointer && Flags(bits, pointer + flags) == flags
  {
    DivPow2Unique(pointer + flags, bits, DivPow2(pointer, bits));
  }
}
