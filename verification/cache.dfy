/**
 * One line of a direct-mapped level-one cache and what a cached read or a
 * cached write does to it. The data cache and the instruction cache are two
 * arrays of 128 such lines with identical logic; `Memory` applies these
 * functions to line `LineIndex(address)` of the cache in question.
 */
module Cache {
  import opened Geometry
  import opened Router

  /**
   * A cache line: a tag, eight words and a valid flag. The data and the
   * instruction cache declare separate structs with exactly this layout,
   * so one type serves both.
   */
  datatype CacheLine = CacheLine(tag: uint32, data: seq<bv32>, valid: bool)

  /** A cache line holding exactly eight words. */
  type Line = l: CacheLine | |l.data| == LINE_WORDS
    witness CacheLine(0, [0, 0, 0, 0, 0, 0, 0, 0], false)

  /** The line the constructor creates: tag 0, all words 0, not valid. */
  const EmptyLine: Line := CacheLine(0, [0, 0, 0, 0, 0, 0, 0, 0], false)

  /** A read of `a` hits when the line is valid and holds `a`'s tag. */
  predicate Hit(l: Line, a: uint32)
  {
    l.valid && l.tag == LineTag(a)
  }

  /** The eight words a miss on `a` fetches through `read32`, from `address & ~0x1F` on. */
  function Block(s: Store, a: uint32): (ws: seq<bv32>)
    ensures |ws| == LINE_WORDS
  {
    seq(LINE_WORDS, i requires 0 <= i < LINE_WORDS => Load32(s, FillAddress(a, i)))
  }

  /** The line after a read of `a`: unchanged on a hit, refilled with `a`'s block on a miss. */
  function AfterRead(l: Line, s: Store, a: uint32): Line
  {
    if Hit(l, a) then l else CacheLine(LineTag(a), Block(s, a), true)
  }

  /** The word a read of `a` returns: slot `(a / 4) % 8` of the line after the read. */
  function ReadValue(l: Line, s: Store, a: uint32): bv32
  {
    AfterRead(l, s, a).data[LineSlot(a)]
  }

  /** The line after a cached write of `v` to `a`: tag set, one slot written, marked valid. */
  function AfterWrite(l: Line, a: uint32, v: bv32): Line
  {
    l.(tag := LineTag(a), data := l.data[LineSlot(a) := v], valid := true)
  }

  /** A hit returns the stored word and leaves the line as it was. */
  lemma HitKeepsLine(l: Line, s: Store, a: uint32)
    requires Hit(l, a)
    ensures AfterRead(l, s, a) == l
    ensures ReadValue(l, s, a) == l.data[LineSlot(a)]
  {
  }

  /**
   * A miss makes the line valid with `a`'s tag and returns what `read32`
   * returns for the aligned word holding `a`; that is `read32(a)` itself
   * except for an unaligned scratchpad address, which `read32` reads at its
   * own byte offset.
   */
  lemma MissReadsBacking(l: Line, s: Store, a: uint32)
    requires !Hit(l, a)
    ensures AfterRead(l, s, a).valid && AfterRead(l, s, a).tag == LineTag(a)
    ensures ReadValue(l, s, a) == Load32(s, WordAlign(a))
    ensures !InSpram(a) || a % 4 == 0 ==> ReadValue(l, s, a) == Load32(s, a)
  {
    FillAddressSlot(a, 0);
    var w := WordAlign(a);
    assert RegionOf(w) == RegionOf(a);
    if InBios(a) {
      assert (w - BIOS_START_ADDRESS) / 4 == (a - BIOS_START_ADDRESS) / 4;
    }
  }

  /**
   * After a miss on `a`, every address of `a`'s 32-byte block hits, and
   * reading it returns the backing store's word at its aligned address as
   * it was at the fill, whatever the stores hold by then.
   */
  lemma FillServesBlock(l: Line, s: Store, a: uint32, b: uint32, later: Store)
    requires !Hit(l, a)
    requires LineBase(b) == LineBase(a)
    ensures Hit(AfterRead(l, s, a), b)
    ensures ReadValue(AfterRead(l, s, a), later, b) == Load32(s, WordAlign(b))
  {
    SameBlockIff(a, b);
    var k := LineSlot(b);
    FillAddressSlot(b, k);
    assert FillAddress(a, k) == WordAlign(b);
    var filled := AfterRead(l, s, a);
    assert filled == CacheLine(LineTag(a), Block(s, a), true);
    assert filled.data[k] == Load32(s, WordAlign(b));
  }

  /**
   * No associativity: after `a1` and then `a2`, an address with the same
   * index and another tag, the line holds `a2`'s block, and reading `a1`
   * again misses and fetches `a1`'s block afresh.
   */
  lemma ConflictEvicts(l: Line, s: Store, a1: uint32, a2: uint32)
    requires LineTag(a1) != LineTag(a2)
    ensures Hit(AfterRead(AfterRead(l, s, a1), s, a2), a2)
    ensures !Hit(AfterRead(AfterRead(l, s, a1), s, a2), a1)
    ensures AfterRead(AfterRead(AfterRead(l, s, a1), s, a2), s, a1) == CacheLine(LineTag(a1), Block(s, a1), true)
  {
  }

  /** A cached read of the address just written with a cached write returns the written word and changes nothing. */
  lemma WriteThenRead(l: Line, s: Store, a: uint32, v: bv32)
    ensures Hit(AfterWrite(l, a, v), a)
    ensures ReadValue(AfterWrite(l, a, v), s, a) == v
    ensures AfterRead(AfterWrite(l, a, v), s, a) == AfterWrite(l, a, v)
  {
  }

  /**
   * A cached write that retags a line keeps the other seven words of the
   * previous block: a read of another word of the new block then hits and
   * returns the old block's word, not the backing store's.
   */
  lemma RetagKeepsStaleWords(l: Line, s: Store, a: uint32, v: bv32, b: uint32)
    requires !Hit(l, a)
    requires LineBase(b) == LineBase(a) && LineSlot(b) != LineSlot(a)
    ensures Hit(AfterWrite(l, a, v), b)
    ensures ReadValue(AfterWrite(l, a, v), s, b) == l.data[LineSlot(b)]
  {
    SameBlockIff(a, b);
  }
}
