/**
 The machine-word arithmetic of base/low_level_alloc.cc that the allocator model abstracts:
 the masking form of RoundUp and the xor-ed magic numbers, on 64-bit words.
 */
module MachineWords {

  /** (addr + align - 1) & ~(align - 1) */
  function RoundUpMask(addr: bv64, align: bv64): bv64 {
    (addr + (align - 1)) & !(align - 1)
  }

  /** When nothing overflows, rounding up to 32 bytes (roundup) yields the least multiple that
      is not below addr. */
  lemma RoundUpMask32(addr: bv64)
    requires addr <= 0xffff_ffff_ffff_ffe0
    ensures RoundUpMask(addr, 32) & 31 == 0
    ensures addr <= RoundUpMask(addr, 32) && RoundUpMask(addr, 32) - addr < 32
  {
  }

  /** The same for 64K, which is 16 pages of 4096 bytes. */
  lemma RoundUpMask64K(addr: bv64)
    requires addr <= 0xffff_ffff_ffff_0000
    ensures RoundUpMask(addr, 0x1_0000) & 0xffff == 0
    ensures addr <= RoundUpMask(addr, 0x1_0000) && RoundUpMask(addr, 0x1_0000) - addr < 0x1_0000
  {
  }

  /** kMagicAllocated and kMagicUnallocated xor the header's address. */
  function MagicAllocated(header: bv64): bv64 {
    0x4c833e95 ^ header
  }

  function MagicUnallocated(header: bv64): bv64 {
    !0x4c833e95 ^ header
  }

  /** The constants, in numbers: one is the complement of the other. */
  lemma MagicInNumbers(header: bv64)
    ensures MagicAllocated(header) ^ header == 0x0000_0000_4c83_3e95
    ensures MagicUnallocated(header) ^ header == 0xffff_ffff_b37c_c16a
  {
  }

  /** Headers are at multiples of 32, so magic numbers of the two kinds never coincide and are
      never zero. */
  lemma MagicKindsDiffer(p: bv64, q: bv64)
    requires p & 31 == 0 && q & 31 == 0
    ensures MagicAllocated(p) != MagicUnallocated(q)
    ensures MagicAllocated(p) != 0 && MagicUnallocated(p) != 0
  {
  }

  /** A magic number determines the header it was written for. */
  lemma MagicIsInjective(p: bv64, q: bv64)
    ensures MagicAllocated(p) == MagicAllocated(q) ==> p == q
    ensures MagicUnallocated(p) == MagicUnallocated(q) ==> p == q
  {
  }
}
