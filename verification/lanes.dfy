/**
 * Byte and half-word lanes of a 32-bit word, and the little-endian packing
 * of four bytes into a word. The shift-and-mask expressions are those of
 * `read8`, `read16`, `write8` and `write16`; packing replaces the host
 * `reinterpret_cast` of byte storage as words, pinned to little-endian, so
 * that byte `k` of a word (k = 0..3) is the lane at shift `8 * k`.
 */
module Lanes {
  import opened Geometry

  /** The shift of byte lane `k % 4` of a word: `(k & 0x3) * 8`. */
  function LaneShift(k: nat): (sh: bv32)
    ensures IsByteShift(sh)
  {
    if k % 4 == 0 then 0 else if k % 4 == 1 then 8 else if k % 4 == 2 then 16 else 24
  }

  /** The shift of the byte lane of an address: `(address & 0x3) * 8`. */
  function ByteShift(a: uint32): (sh: bv32)
    ensures IsByteShift(sh)
  {
    LaneShift(a)
  }

  /** The shift of the half-word lane of an address: `(address & 0x2) * 8`. */
  function HalfShift(a: uint32): (sh: bv32)
    ensures sh == 0 || sh == 16
  {
    if (a / 2) % 2 == 0 then 0 else 16
  }

  predicate IsByteShift(sh: bv32) { sh == 0 || sh == 8 || sh == 16 || sh == 24 }

  /**
   * The even address `h` below `a` lies in the same aligned word, selects
   * the same half-word lane, and its two bytes are the low and the high
   * byte lane of that half-word.
   */
  lemma HalfAddressLanes(a: uint32)
    ensures a - a % 2 + 1 < 0x1_0000_0000
    ensures var h := a - a % 2;
      WordAlign(h) == WordAlign(a) && WordAlign(h + 1) == WordAlign(a) && HalfShift(h) == HalfShift(a) &&
      ByteShift(h) == HalfShift(a) && ByteShift(h + 1) == HalfShift(a) + 8
  {
    HalfAddressOffsets(a);
    if (a / 2) % 2 == 0 {
      assert HalfShift(a) == 0;
    } else {
      assert HalfShift(a) == 16;
    }
  }

  /** `HalfAddressLanes` on plain numbers: the offsets of `a - a % 2` and the next byte in their word. */
  lemma HalfAddressOffsets(a: nat)
    ensures var h := a - a % 2;
      h % 4 == 2 * ((a / 2) % 2) && (h + 1) % 4 == h % 4 + 1 && (h / 2) % 2 == (a / 2) % 2 &&
      h - h % 4 == a - a % 4 && (h + 1) - (h + 1) % 4 == a - a % 4
  {
    var h := a - a % 2;
    Mod4Parts(a);
    var q, b1 := a / 4, (a % 4) / 2;
    assert h == 4 * q + 2 * b1 && 0 <= 2 * b1 + 1 < 4;
    assert h % 4 == 2 * b1 && (h + 1) % 4 == 2 * b1 + 1;
    assert h / 2 == 2 * q + b1;
  }

  /**
   * The half-word lane of a word that `a` selects is the word's two byte
   * lanes at `a - a % 2` and the byte after it, lower address in the low byte.
   */
  lemma HalfOfWord(w: bv32, a: uint32)
    ensures a - a % 2 + 1 < 0x1_0000_0000
    ensures ExtractHalf(w, HalfShift(a)) ==
      (ExtractByte(w, ByteShift(a - a % 2)) as bv16) | ((ExtractByte(w, ByteShift(a - a % 2 + 1)) as bv16) << 8)
  {
    HalfAddressLanes(a);
    HalfFromBytes(w, HalfShift(a));
  }

  /**
   * Where a byte address `c` falls relative to the half-word at `a`: in the
   * same aligned word it is one of the half-word's two lanes exactly when
   * it shares the even address `a - a % 2`; in another aligned word it
   * never does.
   */
  lemma ByteInHalf(a: uint32, c: uint32)
    ensures WordAlign(c) == WordAlign(a) && c - c % 2 == a - a % 2 ==>
      ByteShift(c) == HalfShift(a) + (if c % 2 == 0 then 0 else 8)
    ensures WordAlign(c) == WordAlign(a) && c - c % 2 != a - a % 2 ==>
      ByteShift(c) != HalfShift(a) && ByteShift(c) != HalfShift(a) + 8
    ensures WordAlign(c) != WordAlign(a) ==> c - c % 2 != a - a % 2
  {
    Mod4Parts(a);
    Mod4Parts(c);
    var k, j := c % 4, a % 4;
    assert c - c % 2 == c - k + 2 * (k / 2) && a - a % 2 == a - j + 2 * (j / 2);
  }

  /** The low two bits of a number: bit 0 is `n % 2`, bit 1 is `(n / 2) % 2`. */
  lemma Mod4Parts(n: nat)
    ensures n % 2 == (n % 4) % 2
    ensures (n / 2) % 2 == (n % 4) / 2
  {
    assert n == 4 * (n / 4) + n % 4;
    assert n / 2 == 2 * (n / 4) + (n % 4) / 2;
  }

  /** `(word >> shift) & 0xFF`, as a byte. */
  function ExtractByte(w: bv32, sh: bv32): bv8
    requires sh <= 24
  {
    ((w >> sh) & 0xFF) as bv8
  }

  /** `(word >> shift) & 0xFFFF`, as a half-word. */
  function ExtractHalf(w: bv32, sh: bv32): bv16
    requires sh <= 16
  {
    ((w >> sh) & 0xFFFF) as bv16
  }

  /** `(word & ~(0xFF << shift)) | (value << shift)`. */
  function InsertByte(w: bv32, sh: bv32, b: bv8): bv32
    requires sh <= 24
  {
    (w & !(0xFF << sh)) | ((b as bv32) << sh)
  }

  /** `(word & ~(0xFFFF << shift)) | (value << shift)`. */
  function InsertHalf(w: bv32, sh: bv32, h: bv16): bv32
    requires sh <= 16
  {
    (w & !(0xFFFF << sh)) | ((h as bv32) << sh)
  }

  /** Four bytes, lowest address first, as a little-endian word. */
  function PackLE(b0: bv8, b1: bv8, b2: bv8, b3: bv8): bv32
  {
    (b0 as bv32) | ((b1 as bv32) << 8) | ((b2 as bv32) << 16) | ((b3 as bv32) << 24)
  }

  /** The four bytes of a word, lowest address first. */
  function UnpackLE(w: bv32): (bs: seq<bv8>)
    ensures |bs| == 4
  {
    [ExtractByte(w, 0), ExtractByte(w, 8), ExtractByte(w, 16), ExtractByte(w, 24)]
  }

  /** Packing the unpacked bytes of a word gives the word back. */
  lemma UnpackPack(w: bv32)
    ensures PackLE(UnpackLE(w)[0], UnpackLE(w)[1], UnpackLE(w)[2], UnpackLE(w)[3]) == w
  {
  }

  /** Unpacking a packed word gives the bytes back, and byte k sits in lane 8 * k. */
  lemma PackUnpack(b0: bv8, b1: bv8, b2: bv8, b3: bv8)
    ensures UnpackLE(PackLE(b0, b1, b2, b3)) == [b0, b1, b2, b3]
    ensures ExtractByte(PackLE(b0, b1, b2, b3), 0) == b0
    ensures ExtractByte(PackLE(b0, b1, b2, b3), 8) == b1
    ensures ExtractByte(PackLE(b0, b1, b2, b3), 16) == b2
    ensures ExtractByte(PackLE(b0, b1, b2, b3), 24) == b3
  {
  }

  /**
   * Inserting a byte sets exactly its own lane: reading that lane back gives
   * the byte, and every other byte lane keeps its old value.
   */
  lemma InsertByteLanes(w: bv32, sh: bv32, b: bv8, k: bv32)
    requires IsByteShift(sh) && IsByteShift(k)
    ensures ExtractByte(InsertByte(w, sh, b), k) == if k == sh then b else ExtractByte(w, k)
  {
    if sh == 0 {
      assert ExtractByte(InsertByte(w, 0, b), k) == if k == 0 then b else ExtractByte(w, k);
    } else if sh == 8 {
      assert ExtractByte(InsertByte(w, 8, b), k) == if k == 8 then b else ExtractByte(w, k);
    } else if sh == 16 {
      assert ExtractByte(InsertByte(w, 16, b), k) == if k == 16 then b else ExtractByte(w, k);
    } else {
      assert ExtractByte(InsertByte(w, 24, b), k) == if k == 24 then b else ExtractByte(w, k);
    }
  }

  /** Reading back the half-word lane just written gives the half-word. */
  lemma InsertHalfReadBack(w: bv32, sh: bv32, h: bv16)
    requires sh == 0 || sh == 16
    ensures ExtractHalf(InsertHalf(w, sh, h), sh) == h
  {
    if sh == 0 {
      assert ExtractHalf(InsertHalf(w, 0, h), 0) == h;
    } else {
      assert ExtractHalf(InsertHalf(w, 16, h), 16) == h;
    }
  }

  /**
   * Inserting a half-word sets exactly the two byte lanes it covers, low
   * byte first, and keeps the other two.
   */
  lemma InsertHalfLanes(w: bv32, sh: bv32, h: bv16, k: bv32)
    requires sh == 0 || sh == 16
    requires IsByteShift(k)
    ensures ExtractByte(InsertHalf(w, sh, h), k) ==
      if k == sh then LowByte(h)
      else if k == sh + 8 then HighByte(h)
      else ExtractByte(w, k)
  {
    if sh == 0 {
      if k == 0 { assert ExtractByte(InsertHalf(w, 0, h), 0) == LowByte(h); }
      else if k == 8 { assert ExtractByte(InsertHalf(w, 0, h), 8) == HighByte(h); }
      else if k == 16 { assert ExtractByte(InsertHalf(w, 0, h), 16) == ExtractByte(w, 16); }
      else { assert ExtractByte(InsertHalf(w, 0, h), 24) == ExtractByte(w, 24); }
    } else {
      if k == 0 { assert ExtractByte(InsertHalf(w, 16, h), 0) == ExtractByte(w, 0); }
      else if k == 8 { assert ExtractByte(InsertHalf(w, 16, h), 8) == ExtractByte(w, 8); }
      else if k == 16 { assert ExtractByte(InsertHalf(w, 16, h), 16) == LowByte(h); }
      else { assert ExtractByte(InsertHalf(w, 16, h), 24) == HighByte(h); }
    }
  }

  /** The byte at the lower address of a little-endian half-word. */
  function LowByte(h: bv16): bv8 { (h & 0xFF) as bv8 }

  /** The byte at the higher address of a little-endian half-word. */
  function HighByte(h: bv16): bv8 { (h >> 8) as bv8 }

  /** A half-word lane is its two byte lanes, low byte first. */
  lemma HalfFromBytes(w: bv32, sh: bv32)
    requires sh == 0 || sh == 16
    ensures ExtractHalf(w, sh) == (ExtractByte(w, sh) as bv16) | ((ExtractByte(w, sh + 8) as bv16) << 8)
  {
  }

  /**
   * The little-endian words of a byte sequence whose length is a multiple of
   * four: what reading the bytes into a vector of 32-bit words yields on a
   * little-endian host.
   */
  function WordsLE(bytes: seq<bv8>): (ws: seq<bv32>)
    requires |bytes| % 4 == 0
    ensures |ws| == |bytes| / 4
  {
    seq(|bytes| / 4, i requires 0 <= i < |bytes| / 4 =>
      PackLE(bytes[4 * i], bytes[4 * i + 1], bytes[4 * i + 2], bytes[4 * i + 3]))
  }

  /** Byte k of the input is byte lane k % 4 of word k / 4. */
  lemma WordsLEBytes(bytes: seq<bv8>, k: nat)
    requires |bytes| % 4 == 0 && k < |bytes|
    ensures ExtractByte(WordsLE(bytes)[k / 4], LaneShift(k)) == bytes[k]
  {
    var i := k / 4;
    assert 4 * i + 3 < |bytes|;
    PackUnpack(bytes[4 * i], bytes[4 * i + 1], bytes[4 * i + 2], bytes[4 * i + 3]);
  }
}
