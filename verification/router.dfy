/**
 * The region router as values: the contents of the three backing stores,
 * what `read32`/`read16`/`read8` return for an address and what
 * `write32`/`write16`/`write8` leave behind. The class `Memory` keeps the
 * same contents in arrays and is proved against these functions.
 */
module Router {
  import opened Geometry
  import opened Lanes

  /** RAM and BIOS as 32-bit words, the scratchpad as bytes. */
  datatype Regions = Regions(ram: seq<bv32>, bios: seq<bv32>, spram: seq<bv8>)

  /** Backing stores of the sizes the constructor gives them. */
  type Store = r: Regions | |r.ram| == RAM_WORDS && |r.bios| == BIOS_WORDS && |r.spram| == SPRAM_BYTES
    witness Regions(seq(RAM_WORDS, _ => 0), seq(BIOS_WORDS, _ => 0), seq(SPRAM_BYTES, _ => 0))

  /** All three stores zeroed, as the constructor leaves them. */
  const Zeroed: Store := Regions(seq(RAM_WORDS, _ => 0), seq(BIOS_WORDS, _ => 0), seq(SPRAM_BYTES, _ => 0))

  // ---------------------------------------------------------------------
  // Scratchpad words. The source reads and writes four bytes starting at
  // the scratchpad offset, also when fewer than four bytes remain; here a
  // byte past the end reads as 0 and a write to it is dropped.

  /** A scratchpad byte, or 0 past the end of the scratchpad. */
  function SpramByte(sp: seq<bv8>, i: nat): bv8
  {
    if i < |sp| then sp[i] else 0
  }

  /** The little-endian word at byte offset `off` of the scratchpad. */
  function SpramWord(sp: seq<bv8>, off: nat): bv32
  {
    PackLE(SpramByte(sp, off), SpramByte(sp, off + 1), SpramByte(sp, off + 2), SpramByte(sp, off + 3))
  }

  /** With four bytes room, the word's little-endian bytes are the four stored bytes. */
  lemma SpramWordBytes(sp: seq<bv8>, off: nat)
    requires off + 4 <= |sp|
    ensures UnpackLE(SpramWord(sp, off)) == sp[off..off + 4]
  {
    PackUnpack(sp[off], sp[off + 1], sp[off + 2], sp[off + 3]);
  }

  /** Stores a word little-endian at byte offset `off` of the scratchpad, dropping bytes past its end. */
  function PutSpramWord(sp: seq<bv8>, off: nat, w: bv32): (r: seq<bv8>)
    ensures |r| == |sp|
  {
    var bs := UnpackLE(w);
    seq(|sp|, i requires 0 <= i < |sp| => if off <= i < off + 4 then bs[i - off] else sp[i])
  }

  /** With four bytes room, a word store writes the word's little-endian bytes. */
  lemma PutSpramWordBytes(sp: seq<bv8>, off: nat, w: bv32)
    requires off + 4 <= |sp|
    ensures PutSpramWord(sp, off, w)[off..off + 4] == UnpackLE(w)
  {
    var r := PutSpramWord(sp, off, w);
    assert forall j :: 0 <= j < 4 ==> r[off + j] == UnpackLE(w)[j];
  }

  // ---------------------------------------------------------------------
  // Word, half-word and byte access.

  /** What `read32` returns: the word of the first region that holds the address, else 0. */
  function Load32(s: Store, a: uint32): bv32
  {
    if InRam(a) then s.ram[a / 4]
    else if InBios(a) then s.bios[(a - BIOS_START_ADDRESS) / 4]
    else if InSpram(a) then SpramWord(s.spram, a - SPRAM_START_ADDRESS)
    else 0
  }

  /** The stores after `write32`: RAM or the scratchpad is updated; a BIOS address or one in no region changes nothing. */
  function Store32(s: Store, a: uint32, v: bv32): Store
  {
    if InRam(a) then s.(ram := s.ram[a / 4 := v])
    else if InSpram(a) then s.(spram := PutSpramWord(s.spram, a - SPRAM_START_ADDRESS, v))
    else s
  }

  /** What `read8` returns: the byte lane of the containing aligned word. */
  function Load8(s: Store, a: uint32): bv8
  {
    ExtractByte(Load32(s, WordAlign(a)), ByteShift(a))
  }

  /** What `read16` returns: the half-word lane selected by `address & 0x2`. */
  function Load16(s: Store, a: uint32): bv16
  {
    ExtractHalf(Load32(s, WordAlign(a)), HalfShift(a))
  }

  /** The stores after `write8`: read-modify-write of the containing aligned word. */
  function Store8(s: Store, a: uint32, b: bv8): Store
  {
    Store32(s, WordAlign(a), InsertByte(Load32(s, WordAlign(a)), ByteShift(a), b))
  }

  /** The stores after `write16`: read-modify-write of the lane selected by `address & 0x2`. */
  function Store16(s: Store, a: uint32, h: bv16): Store
  {
    Store32(s, WordAlign(a), InsertHalf(Load32(s, WordAlign(a)), HalfShift(a), h))
  }

  // ---------------------------------------------------------------------
  // Properties.

  /**
   * An address in no region reads as 0 and a write to it changes nothing;
   * a write to a BIOS address changes nothing either.
   */
  lemma OutOfRangeAccess(s: Store, a: uint32, v: bv32)
    ensures RegionOf(a) == Unmapped ==> Load32(s, a) == 0 && Store32(s, a, v) == s
    ensures InBios(a) ==> Store32(s, a, v) == s
  {
  }

  /**
   * A RAM word write is read back, every other address reads as before, and
   * BIOS and scratchpad are untouched. Unaligned addresses share the word
   * `address / 4`.
   */
  lemma RamWriteRead(s: Store, a: uint32, v: bv32, b: uint32)
    requires InRam(a)
    ensures Store32(s, a, v).bios == s.bios && Store32(s, a, v).spram == s.spram
    ensures Load32(Store32(s, a, v), b) == if InRam(b) && b / 4 == a / 4 then v else Load32(s, b)
  {
  }

  /**
   * A scratchpad word write with four bytes room is read back, and RAM and
   * BIOS are untouched.
   */
  lemma SpramWriteRead(s: Store, a: uint32, v: bv32)
    requires InSpram(a) && a - SPRAM_START_ADDRESS + 4 <= SPRAM_BYTES
    ensures Store32(s, a, v).ram == s.ram && Store32(s, a, v).bios == s.bios
    ensures Load32(Store32(s, a, v), a) == v
  {
    var off := a - SPRAM_START_ADDRESS;
    var t := s.(spram := PutSpramWord(s.spram, off, v));
    assert Store32(s, a, v) == t;
    PutSpramWordBytes(s.spram, off, v);
    SpramWordReadBack(t.spram, off, v);
    LoadSpram(t, a);
  }

  /** A scratchpad word write leaves every scratchpad word that does not overlap it as it was. */
  lemma SpramWriteKeeps(s: Store, a: uint32, v: bv32, b: uint32)
    requires InSpram(a) && InSpram(b) && (b + 4 <= a || a + 4 <= b)
    ensures Load32(Store32(s, a, v), b) == Load32(s, b)
  {
    var t := Store32(s, a, v);
    SpramWriteKeepsBytes(s, a, v, b - SPRAM_START_ADDRESS);
    SpramWindowFrame(t, s, b);
  }

  /** The bytes of a non-overlapping scratchpad window keep their values across a scratchpad word write. */
  lemma SpramWriteKeepsBytes(s: Store, a: uint32, v: bv32, o: nat)
    requires InSpram(a) && (o + 4 <= a - SPRAM_START_ADDRESS || a - SPRAM_START_ADDRESS + 4 <= o)
    ensures forall i :: o <= i < o + 4 ==> SpramByte(Store32(s, a, v).spram, i) == SpramByte(s.spram, i)
  {
    Store32Spram(s, a, v);
  }

  /** Two stores whose scratchpad agree on a word's four bytes read the same word there. */
  lemma SpramWindowFrame(t: Store, s: Store, b: uint32)
    requires InSpram(b)
    requires forall i :: b - SPRAM_START_ADDRESS <= i < b - SPRAM_START_ADDRESS + 4 ==> SpramByte(t.spram, i) == SpramByte(s.spram, i)
    ensures Load32(t, b) == Load32(s, b)
  {
    var o := b - SPRAM_START_ADDRESS;
    assert SpramByte(t.spram, o) == SpramByte(s.spram, o);
    assert SpramByte(t.spram, o + 1) == SpramByte(s.spram, o + 1);
    assert SpramByte(t.spram, o + 2) == SpramByte(s.spram, o + 2);
    assert SpramByte(t.spram, o + 3) == SpramByte(s.spram, o + 3);
  }

  /** `write32` of a scratchpad address stores the word at its offset and touches nothing else. */
  lemma Store32Spram(s: Store, a: uint32, v: bv32)
    requires InSpram(a)
    ensures Store32(s, a, v) == s.(spram := PutSpramWord(s.spram, a - SPRAM_START_ADDRESS, v))
  {
  }

  /** A scratchpad address reads the word at its offset. */
  lemma LoadSpram(s: Store, b: uint32)
    requires InSpram(b)
    ensures Load32(s, b) == SpramWord(s.spram, b - SPRAM_START_ADDRESS)
  {
  }

  /** Four bytes holding a word's little-endian bytes read back as that word. */
  lemma SpramWordReadBack(sp: seq<bv8>, off: nat, v: bv32)
    requires off + 4 <= |sp| && sp[off..off + 4] == UnpackLE(v)
    ensures SpramWord(sp, off) == v
  {
    UnpackPack(v);
    assert sp[off] == UnpackLE(v)[0] && sp[off + 1] == UnpackLE(v)[1];
    assert sp[off + 2] == UnpackLE(v)[2] && sp[off + 3] == UnpackLE(v)[3];
  }

  /**
   * Scratchpad bytes are stored little-endian: `read8` of a scratchpad
   * address returns exactly the byte stored at its offset.
   */
  lemma SpramByteOrder(s: Store, a: uint32)
    requires InSpram(a)
    ensures Load8(s, a) == s.spram[a - SPRAM_START_ADDRESS]
  {
    var w := WordAlign(a);
    var off := w - SPRAM_START_ADDRESS;
    assert InSpram(w) && off + 4 <= SPRAM_BYTES && a - SPRAM_START_ADDRESS == off + a % 4;
    LoadSpram(s, w);
    var sp := s.spram;
    PackUnpack(sp[off], sp[off + 1], sp[off + 2], sp[off + 3]);
    assert Load32(s, w) == PackLE(sp[off], sp[off + 1], sp[off + 2], sp[off + 3]);
  }

  /**
   * `read16` selects its lane with `address & 0x2`: an odd address reads
   * the same half-word as the even address below it.
   */
  lemma HalfWordRead(s: Store, a: uint32)
    ensures Load16(s, a) == Load16(s, a - a % 2)
  {
    HalfAddressLanes(a);
  }

  /** The half-word `read16` returns is the two bytes `read8` sees at `a - a % 2` and after it, lower address in the low byte. */
  lemma HalfWordBytes(s: Store, a: uint32)
    ensures a - a % 2 + 1 < 0x1_0000_0000
    ensures Load16(s, a) == (Load8(s, a - a % 2) as bv16) | ((Load8(s, a - a % 2 + 1) as bv16) << 8)
  {
    HalfAddressLanes(a);
    var h := a - a % 2;
    var w := Load32(s, WordAlign(a));
    var sh := HalfShift(a);
    assert ByteShift(h) == sh && ByteShift(h + 1) == sh + 8;
    assert Load8(s, h) == ExtractByte(w, sh);
    assert Load8(s, h + 1) == ExtractByte(w, sh + 8);
    assert Load16(s, a) == ExtractHalf(w, sh);
    HalfFromBytes(w, sh);
  }

  /** Two addresses in the same aligned word read the same lane exactly when they are equal. */
  lemma ByteShiftInjective(a: uint32, c: uint32)
    requires WordAlign(a) == WordAlign(c)
    ensures ByteShift(a) == ByteShift(c) <==> a == c
  {
    if a % 4 != c % 4 {
      assert (a % 4) * 8 != (c % 4) * 8;
    }
  }

  /**
   * `write8` to RAM changes exactly one byte: `read8` of that address
   * returns the byte written, and every other address reads as before.
   */
  lemma RamByteWrite(s: Store, a: uint32, b: bv8, c: uint32)
    requires InRam(a)
    ensures Load8(Store8(s, a, b), c) == if c == a then b else Load8(s, c)
  {
    var w := WordAlign(a);
    var nw := InsertByte(Load32(s, w), ByteShift(a), b);
    RamWriteRead(s, w, nw, WordAlign(c));
    if WordAlign(c) == w {
      ByteShiftInjective(a, c);
      InsertByteLanes(Load32(s, w), ByteShift(a), b, ByteShift(c));
    } else {
      assert WordAlign(c) / 4 != w / 4;
    }
  }

  /**
   * `write16` to RAM changes exactly the aligned half-word holding the
   * address (for an odd address, the one that starts one byte lower): it
   * reads back, its two bytes are the half-word's, low byte first, and every
   * other byte reads as before.
   */
  lemma RamHalfWrite(s: Store, a: uint32, h: bv16, c: uint32)
    requires InRam(a)
    ensures Load16(Store16(s, a, h), a) == h
    ensures Load8(Store16(s, a, h), c) ==
      if c - c % 2 == a - a % 2 then (if c % 2 == 0 then LowByte(h) else HighByte(h))
      else Load8(s, c)
  {
    var w := WordAlign(a);
    var nw := InsertHalf(Load32(s, w), HalfShift(a), h);
    RamWriteRead(s, w, nw, w);
    InsertHalfReadBack(Load32(s, w), HalfShift(a), h);
    RamWriteRead(s, w, nw, WordAlign(c));
    ByteInHalf(a, c);
    if WordAlign(c) == w {
      InsertHalfLanes(Load32(s, w), HalfShift(a), h, ByteShift(c));
    } else {
      assert WordAlign(c) / 4 != w / 4;
    }
  }

  /**
   * `write8` to the scratchpad changes exactly one byte: `read8` of that
   * address returns the byte written, and every other address reads as before.
   */
  lemma SpramByteWrite(s: Store, a: uint32, b: bv8, c: uint32)
    requires InSpram(a)
    ensures Load8(Store8(s, a, b), c) == if c == a then b else Load8(s, c)
  {
    var w := WordAlign(a);
    assert InSpram(w) && w - SPRAM_START_ADDRESS + 4 <= SPRAM_BYTES;
    var nw := InsertByte(Load32(s, w), ByteShift(a), b);
    SpramWriteRead(s, w, nw);
    if WordAlign(c) == w {
      ByteShiftInjective(a, c);
      InsertByteLanes(Load32(s, w), ByteShift(a), b, ByteShift(c));
    } else {
      SpramWordUnchanged(s, w, nw, WordAlign(c));
    }
  }

  /**
   * `write16` to the scratchpad changes exactly the aligned half-word holding
   * the address: it reads back, its two bytes are the half-word's, low byte
   * first, and every other byte reads as before.
   */
  lemma SpramHalfWrite(s: Store, a: uint32, h: bv16, c: uint32)
    requires InSpram(a)
    ensures Load16(Store16(s, a, h), a) == h
    ensures Load8(Store16(s, a, h), c) ==
      if c - c % 2 == a - a % 2 then (if c % 2 == 0 then LowByte(h) else HighByte(h))
      else Load8(s, c)
  {
    var w := WordAlign(a);
    assert InSpram(w) && w - SPRAM_START_ADDRESS + 4 <= SPRAM_BYTES;
    var nw := InsertHalf(Load32(s, w), HalfShift(a), h);
    SpramWriteRead(s, w, nw);
    InsertHalfReadBack(Load32(s, w), HalfShift(a), h);
    ByteInHalf(a, c);
    if WordAlign(c) == w {
      InsertHalfLanes(Load32(s, w), HalfShift(a), h, ByteShift(c));
    } else {
      SpramWordUnchanged(s, w, nw, WordAlign(c));
    }
  }

  /** A scratchpad write of an aligned word leaves every other aligned word as it was, in every region. */
  lemma SpramWordUnchanged(s: Store, w: uint32, v: bv32, d: uint32)
    requires InSpram(w) && w % 4 == 0 && d % 4 == 0 && d != w
    ensures Load32(Store32(s, w, v), d) == Load32(s, d)
  {
    Store32Spram(s, w, v);
    if InSpram(d) {
      assert d + 4 <= w || w + 4 <= d;
      SpramWriteKeeps(s, w, v, d);
    }
  }

  /**
   * The little-endian convention on a concrete case: after writing
   * 0xDEADBEEF to 0x10000, the byte at 0x10000 is 0xEF and the half-word at
   * 0x10002 is 0xDEAD.
   */
  lemma LittleEndianExample(s: Store)
    ensures Load8(Store32(s, 0x10000, 0xDEAD_BEEF), 0x10000) == 0xEF
    ensures Load8(Store32(s, 0x10000, 0xDEAD_BEEF), 0x10003) == 0xDE
    ensures Load16(Store32(s, 0x10000, 0xDEAD_BEEF), 0x10002) == 0xDEAD
  {
    RamWriteRead(s, 0x10000, 0xDEAD_BEEF, 0x10000);
  }

  /**
   * After the BIOS vector is replaced by the little-endian words of a 4 MiB
   * image, `read8` at BIOS_START_ADDRESS + k returns byte k of the image.
   */
  lemma BiosImageBytes(s: Store, image: seq<bv8>, k: nat)
    requires |image| == BIOS_SIZE && k < |image|
    ensures Load8(s.(bios := WordsLE(image)), BIOS_START_ADDRESS + k) == image[k]
  {
    var a := BIOS_START_ADDRESS + k;
    assert InBios(a) && InBios(WordAlign(a));
    assert (WordAlign(a) - BIOS_START_ADDRESS) / 4 == k / 4;
    assert a % 4 == k % 4;
    WordsLEBytes(image, k);
  }

  // ---------------------------------------------------------------------
  // The scratchpad word access as the source writes it.

  /** The scratchpad indices the source's word access dereferences: four bytes from the offset on. */
  function SourceSpramWindow(a: uint32): (idx: seq<nat>)
    requires InSpram(a)
    ensures |idx| == 4
  {
    var off := a - SPRAM_START_ADDRESS;
    [off, off + 1, off + 2, off + 3]
  }

  /**
   * The guard admits 0x70003FFD, whose four-byte window reaches index
   * 0x4000, one past the last scratchpad byte: the source reads and writes
   * outside the 16 KiB vector there.
   */
  lemma SourceSpramOverrun()
    ensures InSpram(0x7000_3FFD)
    ensures SourceSpramWindow(0x7000_3FFD)[3] == SPRAM_BYTES
  {
  }

  /**
   * The modelled scratchpad read stays inside the vector: near the end it
   * sees the stored bytes followed by zeros.
   */
  lemma SpramReadInBounds(s: Store, a: uint32)
    requires InSpram(a)
    ensures var off := a - SPRAM_START_ADDRESS;
      UnpackLE(Load32(s, a)) == seq(4, j requires 0 <= j < 4 => if off + j < SPRAM_BYTES then s.spram[off + j] else 0)
  {
    var off := a - SPRAM_START_ADDRESS;
    var sp := s.spram;
    PackUnpack(SpramByte(sp, off), SpramByte(sp, off + 1), SpramByte(sp, off + 2), SpramByte(sp, off + 3));
    assert UnpackLE(Load32(s, a)) == [SpramByte(sp, off), SpramByte(sp, off + 1), SpramByte(sp, off + 2), SpramByte(sp, off + 3)];
  }

  /**
   * The modelled scratchpad write stays inside the vector: it changes only
   * the stored bytes its window covers, each to its little-endian byte.
   */
  lemma SpramWriteInBounds(s: Store, a: uint32, v: bv32)
    requires InSpram(a)
    ensures var off := a - SPRAM_START_ADDRESS;
      forall i :: 0 <= i < SPRAM_BYTES ==>
        Store32(s, a, v).spram[i] == if off <= i < off + 4 then UnpackLE(v)[i - off] else s.spram[i]
  {
    Store32Spram(s, a, v);
  }
}
