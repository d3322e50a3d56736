/**
 * Fixed geometry of the emulated address space and of the two level-one
 * caches: the region constants of `Memory`, the order in which `read32`
 * tests the regions, and the index/tag/slot arithmetic of a direct-mapped
 * cache with 128 lines of 8 words.
 *
 * Addresses are 32-bit unsigned integers. The source's masks on addresses
 * are written as the arithmetic they compute on an unsigned value:
 * `a & ~0x3` is `a - a % 4`, `a & 0x3` is `a % 4`, `a & 0x2` is
 * `(a / 2) % 2 * 2` and `a & ~0x1F` is `a - a % 32`.
 */
module Geometry {

  /** A 32-bit unsigned integer (`uint32_t`). */
  type uint32 = x: int | 0 <= x < 0x1_0000_0000

  // Region sizes and base addresses.
  const RAM_SIZE: uint32 := 0x0200_0000
  const BIOS_SIZE: uint32 := 0x0040_0000
  const SPRAM_SIZE: uint32 := 0x0000_4000
  const BIOS_START_ADDRESS: uint32 := 0xBFC0_0000
  const SPRAM_START_ADDRESS: uint32 := 0x7000_0000

  // Capacities of the backing vectors: RAM and BIOS hold 32-bit words
  // (`SIZE / sizeof(uint32_t)`), the scratchpad holds bytes.
  const RAM_WORDS: nat := RAM_SIZE / 4
  const BIOS_WORDS: nat := BIOS_SIZE / 4
  const SPRAM_BYTES: nat := SPRAM_SIZE

  // Cache shape: 128 lines, each 8 words (32 bytes).
  const LINE_COUNT: nat := 128
  const LINE_WORDS: nat := 8
  const LINE_BYTES: nat := 32

  /** The three backing stores, plus "no region". */
  datatype Region = Ram | Bios | Scratchpad | Unmapped

  /** The range checks as the source writes them, with the sums evaluated in 32 bits. */
  predicate InRam(a: uint32) { a < RAM_SIZE }
  predicate InBios(a: uint32) {
    a >= BIOS_START_ADDRESS && a < (BIOS_START_ADDRESS + BIOS_SIZE) % 0x1_0000_0000
  }
  predicate InSpram(a: uint32) {
    a >= SPRAM_START_ADDRESS && a < (SPRAM_START_ADDRESS + SPRAM_SIZE) % 0x1_0000_0000
  }

  /** The region `read32` dispatches to: RAM first, then BIOS, then the scratchpad. */
  function RegionOf(a: uint32): Region
  {
    if InRam(a) then Ram
    else if InBios(a) then Bios
    else if InSpram(a) then Scratchpad
    else Unmapped
  }

  /**
   * The ends of the BIOS and scratchpad ranges fit in 32 bits, so the
   * 32-bit sums in the guards never wrap and each guard is the plain
   * half-open range [base, base + size).
   */
  lemma RangeChecksDoNotWrap(a: uint32)
    ensures BIOS_START_ADDRESS + BIOS_SIZE == 0xC000_0000 < 0x1_0000_0000
    ensures SPRAM_START_ADDRESS + SPRAM_SIZE == 0x7000_4000 < 0x1_0000_0000
    ensures InBios(a) <==> BIOS_START_ADDRESS <= a < BIOS_START_ADDRESS + BIOS_SIZE
    ensures InSpram(a) <==> SPRAM_START_ADDRESS <= a < SPRAM_START_ADDRESS + SPRAM_SIZE
  {
  }

  /**
   * The three ranges are pairwise disjoint, so the order in which `read32`
   * and `write32` test them never changes which store is used.
   */
  lemma RegionsDisjoint(a: uint32)
    ensures !(InRam(a) && InBios(a))
    ensures !(InRam(a) && InSpram(a))
    ensures !(InBios(a) && InSpram(a))
    ensures RegionOf(a) == Ram <==> InRam(a)
    ensures RegionOf(a) == Bios <==> InBios(a)
    ensures RegionOf(a) == Scratchpad <==> InSpram(a)
    ensures RegionOf(a) == Unmapped <==> !InRam(a) && !InBios(a) && !InSpram(a)
  {
  }

  /** Every in-range index the router computes lies inside its backing vector. */
  lemma IndicesInBounds(a: uint32)
    ensures InRam(a) ==> a / 4 < RAM_WORDS
    ensures InBios(a) ==> (a - BIOS_START_ADDRESS) / 4 < BIOS_WORDS
    ensures InSpram(a) ==> a - SPRAM_START_ADDRESS < SPRAM_BYTES
  {
  }

  /** The word-aligned address holding `a`: `a & ~0x3`. */
  function WordAlign(a: uint32): (w: uint32)
    ensures w <= a && w % 4 == 0 && a - w < 4
  {
    a - a % 4
  }

  // ---------------------------------------------------------------------
  // Direct-mapped cache arithmetic.

  /** The line a cached address maps to: `(address / 32) % 128`. */
  function LineIndex(a: uint32): (i: nat)
    ensures i < LINE_COUNT
  {
    (a / LINE_BYTES) % LINE_COUNT
  }

  /** The tag stored with a line: `address / (128 * 32)`. */
  function LineTag(a: uint32): uint32
  {
    a / (LINE_COUNT * LINE_BYTES)
  }

  /** The word of the line that holds the address: `(address / 4) % 8`. */
  function LineSlot(a: uint32): (k: nat)
    ensures k < LINE_WORDS
  {
    (a / 4) % LINE_WORDS
  }

  /** The first address of the 32-byte block holding the address: `address & ~0x1F`. */
  function LineBase(a: uint32): uint32
  {
    a - a % LINE_BYTES
  }

  /** The address of the i-th word a line fill fetches: `baseAddr + i * 4`. */
  function FillAddress(a: uint32, i: nat): uint32
    requires i < LINE_WORDS
  {
    LineBase(a) + i * 4
  }

  /**
   * Tag, index, slot and byte offset split an address without overlap: 128
   * lines of 32 bytes cover 4096 bytes, which is why the tag is `address / 4096`.
   */
  lemma AddressDecomposition(a: uint32)
    ensures LINE_COUNT * LINE_BYTES == 4096
    ensures a == LineTag(a) * 4096 + LineIndex(a) * 32 + LineSlot(a) * 4 + a % 4
    ensures LineBase(a) == LineTag(a) * 4096 + LineIndex(a) * 32
  {
    SplitAddress(a);
  }

  /** The arithmetic behind `AddressDecomposition`, on plain numbers. */
  lemma SplitAddress(n: nat)
    ensures n / 4096 == (n / 32) / 128
    ensures (n / 4) % 8 == (n % 32) / 4
    ensures n % 4 == (n % 32) % 4
    ensures n == 4096 * (n / 4096) + 32 * ((n / 32) % 128) + 4 * ((n / 4) % 8) + n % 4
    ensures n - n % 32 == 4096 * (n / 4096) + 32 * ((n / 32) % 128)
  {
    TagOfAddress(n);
    SlotOfAddress(n);
  }

  /** Dividing by 4096 is dividing by 32 and then by 128. */
  lemma TagOfAddress(n: nat)
    ensures n / 4096 == (n / 32) / 128
  {
    var q := n / 32;
    var t, x := q / 128, q % 128;
    assert n == 4096 * t + (32 * x + n % 32);
  }

  /** The word slot and byte offset of an address depend only on its offset in its 32-byte block. */
  lemma SlotOfAddress(n: nat)
    ensures (n / 4) % 8 == (n % 32) / 4
    ensures n % 4 == (n % 32) % 4
  {
    var q, r := n / 32, n % 32;
    assert n == 4 * (8 * q + r / 4) + r % 4;
  }

  /**
   * Two addresses share index and tag exactly when they lie in the same
   * 32-byte block; so a hit always serves the block that was filled.
   */
  lemma SameBlockIff(a: uint32, b: uint32)
    ensures (LineIndex(a) == LineIndex(b) && LineTag(a) == LineTag(b)) <==> LineBase(a) == LineBase(b)
  {
    AddressDecomposition(a);
    AddressDecomposition(b);
  }

  /**
   * The slot of an address names the fill address of its aligned word, and
   * every fill address of a block lies in that block, at the slot it is stored in.
   */
  lemma FillAddressSlot(a: uint32, i: nat)
    requires i < LINE_WORDS
    ensures FillAddress(a, LineSlot(a)) == WordAlign(a)
    ensures LineBase(FillAddress(a, i)) == LineBase(a)
    ensures LineSlot(FillAddress(a, i)) == i
    ensures FillAddress(a, i) % 4 == 0
  {
    SplitAddress(a);
    assert a % 32 == 4 * ((a % 32) / 4) + (a % 32) % 4;
    BlockWord(a / 32, i);
    assert FillAddress(a, i) == 32 * (a / 32) + 4 * i;
  }

  /** Word i of the block starting at 32 * q: its offset in the block, its slot and its alignment. */
  lemma BlockWord(q: nat, i: nat)
    requires i < LINE_WORDS
    ensures (32 * q + 4 * i) % 32 == 4 * i
    ensures ((32 * q + 4 * i) / 4) % 8 == i
    ensures (32 * q + 4 * i) % 4 == 0
  {
    assert (32 * q + 4 * i) / 4 == 8 * q + i;
  }

  /**
   * Every region starts and ends on a 32-byte boundary, so all eight words a
   * line fill fetches lie in the region of the address that missed.
   */
  lemma FillStaysInRegion(a: uint32, i: nat)
    requires i < LINE_WORDS
    ensures RegionOf(FillAddress(a, i)) == RegionOf(a)
  {
  }
}
