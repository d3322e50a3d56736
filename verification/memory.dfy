/**
 * The `Memory` object: RAM, BIOS and scratchpad vectors, the data and
 * instruction caches, and the debug-logging switch, with the operations
 * that read and update them in place. Each method is specified by the
 * value-level functions of `Router`, `Cache` and `Logging` applied to the
 * object's contents before the call.
 */
module MemorySystem {
  import opened Geometry
  import opened Lanes
  import opened Router
  import opened Cache
  import opened Logging

  datatype Option<T> = None | Some(value: T)

  /** The addresses `printMemory` accepts: RAM and BIOS, but not the scratchpad. */
  predicate Printable(a: uint32)
  {
    InRam(a) || InBios(a)
  }

  class Memory {
    var ram: array<bv32>
    var bios: array<bv32>
    var spram: array<bv8>
    var dataCache: array<Line>
    var instructionCache: array<Line>
    var debugLoggingEnabled: bool
    /** Whether the log file stream is open. */
    var logSinkOpen: bool
    /** The lines written to the log file, oldest first. */
    ghost var log: seq<Access>

    ghost predicate Valid()
      reads this`ram, this`bios, this`spram, this`dataCache, this`instructionCache
      reads this`debugLoggingEnabled, this`logSinkOpen
    {
      ram.Length == RAM_WORDS && bios.Length == BIOS_WORDS && spram.Length == SPRAM_BYTES &&
      dataCache.Length == LINE_COUNT && instructionCache.Length == LINE_COUNT &&
      ram != bios && dataCache != instructionCache &&
      (debugLoggingEnabled ==> logSinkOpen)
    }

    /** The contents of the three backing stores. */
    ghost function Contents(): Store
      reads this`ram, this`bios, this`spram, this`debugLoggingEnabled, this`logSinkOpen
      reads this`dataCache, this`instructionCache, ram, bios, spram
      requires Valid()
    {
      Regions(ram[..], bios[..], spram[..])
    }

    /** Whether `logAccess` writes a line: logging is enabled and the log file is open. */
    predicate LogActive()
      reads this`debugLoggingEnabled, this`logSinkOpen
    {
      debugLoggingEnabled && logSinkOpen
    }

    constructor ()
      ensures Valid()
      ensures fresh(ram) && fresh(bios) && fresh(spram) && fresh(dataCache) && fresh(instructionCache)
      ensures Contents() == Zeroed
      ensures forall i :: 0 <= i < LINE_COUNT ==> dataCache[i] == EmptyLine && instructionCache[i] == EmptyLine
      ensures !debugLoggingEnabled && !logSinkOpen && log == []
    {
      debugLoggingEnabled := false;
      logSinkOpen := false;
      ram := new bv32[RAM_WORDS](_ => 0);
      bios := new bv32[BIOS_WORDS](_ => 0);
      spram := new bv8[SPRAM_BYTES](_ => 0);
      dataCache := new Line[LINE_COUNT](_ => EmptyLine);
      instructionCache := new Line[LINE_COUNT](_ => EmptyLine);
      log := [];
      new;
      assert ram[..] == Zeroed.ram && bios[..] == Zeroed.bios && spram[..] == Zeroed.spram;
    }

    // -------------------------------------------------------------------
    // Logging.

    /**
     * Opens the log file; `sinkOpens` says whether the host can create it.
     * Opening a stream that is already open fails, so a second call turns
     * logging off while the first file stays open.
     */
    method EnableDebugLogging(sinkOpens: bool)
      requires Valid()
      modifies this`debugLoggingEnabled, this`logSinkOpen
      ensures Valid()
      ensures logSinkOpen == (old(logSinkOpen) || sinkOpens)
      ensures debugLoggingEnabled == (!old(logSinkOpen) && sinkOpens)
    {
      debugLoggingEnabled := true;
      var didOpen := !logSinkOpen && sinkOpens;
      if didOpen {
        logSinkOpen := true;
      } else {
        debugLoggingEnabled := false;
      }
    }

    /** Appends one record to the log when logging is enabled and the file is open. */
    method LogAccess(a: uint32, op: Operation, size: uint32)
      modifies this`log
      ensures log == old(log) + Record(LogActive(), op, a, size)
    {
      if debugLoggingEnabled && logSinkOpen {
        log := log + [Access(op, a, size)];
      }
    }

    // -------------------------------------------------------------------
    // Region router.

    /** A scratchpad byte, or 0 past the end of the scratchpad. */
    function SpramAt(i: nat): (b: bv8)
      reads this, spram
      requires Valid()
      ensures b == SpramByte(spram[..], i)
    {
      if i < spram.Length then spram[i] else 0
    }

    /** The word `read32` returns, without the logging it does for an address in no region. */
    function Word(a: uint32): (w: bv32)
      reads this, ram, bios, spram
      requires Valid()
      ensures w == Load32(Contents(), a)
    {
      if InRam(a) then ram[a / 4]
      else if InBios(a) then bios[(a - BIOS_START_ADDRESS) / 4]
      else if InSpram(a) then
        var off := a - SPRAM_START_ADDRESS;
        PackLE(SpramAt(off), SpramAt(off + 1), SpramAt(off + 2), SpramAt(off + 3))
      else 0
    }

    method Read32(a: uint32) returns (v: bv32)
      requires Valid()
      modifies this`log
      ensures Valid()
      ensures v == Load32(Contents(), a)
      ensures log == old(log) + ReadLog(LogActive(), a)
    {
      v := Word(a);
      if RegionOf(a) == Unmapped {
        LogAccess(a, Read, 4);
      }
    }

    method Read8(a: uint32) returns (b: bv8)
      requires Valid()
      modifies this`log
      ensures Valid()
      ensures b == Load8(Contents(), a)
      ensures b == ExtractByte(Load32(Contents(), WordAlign(a)), ByteShift(a))
      ensures log == old(log) + ReadLog(LogActive(), WordAlign(a))
    {
      var word := Read32(WordAlign(a));
      b := ExtractByte(word, ByteShift(a));
    }

    method Read16(a: uint32) returns (h: bv16)
      requires Valid()
      modifies this`log
      ensures Valid()
      ensures h == Load16(Contents(), a)
      ensures h == ExtractHalf(Load32(Contents(), WordAlign(a)), HalfShift(a))
      ensures log == old(log) + ReadLog(LogActive(), WordAlign(a))
    {
      var word := Read32(WordAlign(a));
      h := ExtractHalf(word, HalfShift(a));
    }

    /**
     * Stores a word little-endian at scratchpad offset `off`, dropping the
     * bytes that fall past the end of the scratchpad.
     */
    method StoreSpramWord(off: nat, v: bv32)
      requires Valid()
      modifies spram
      ensures spram[..] == PutSpramWord(old(spram[..]), off, v)
    {
      var bs := UnpackLE(v);
      forall i | 0 <= i < spram.Length && off <= i < off + 4 {
        spram[i] := bs[i - off];
      }
    }

    method Write32(a: uint32, v: bv32)
      requires Valid()
      modifies ram, spram, this`log
      ensures Valid()
      ensures Contents() == Store32(old(Contents()), a, v)
      ensures log == old(log) + WriteLog(LogActive(), a)
    {
      if InRam(a) {
        ram[a / 4] := v;
      } else if InSpram(a) {
        StoreSpramWord(a - SPRAM_START_ADDRESS, v);
      } else {
        LogAccess(a, Write, 4);
      }
    }

    method Write8(a: uint32, value: bv8)
      requires Valid()
      modifies ram, spram, this`log
      ensures Valid()
      ensures Contents() == Store8(old(Contents()), a, value)
      ensures log == old(log) + ReadLog(LogActive(), WordAlign(a)) + WriteLog(LogActive(), WordAlign(a))
    {
      var word := Read32(WordAlign(a));
      var shift := ByteShift(a);
      word := InsertByte(word, shift, value);
      Write32(WordAlign(a), word);
    }

    method Write16(a: uint32, value: bv16)
      requires Valid()
      modifies ram, spram, this`log
      ensures Valid()
      ensures Contents() == Store16(old(Contents()), a, value)
      ensures log == old(log) + ReadLog(LogActive(), WordAlign(a)) + WriteLog(LogActive(), WordAlign(a))
    {
      var word := Read32(WordAlign(a));
      var shift := HalfShift(a);
      word := InsertHalf(word, shift, value);
      Write32(WordAlign(a), word);
    }

    // -------------------------------------------------------------------
    // Caches.

    /**
     * A cached read through `cache`: a hit returns the stored word; a miss
     * retags the line, marks it valid and fills its eight words with
     * `read32`, then returns the word.
     */
    method CacheRead(cache: array<Line>, a: uint32) returns (v: bv32)
      requires Valid() && (cache == dataCache || cache == instructionCache)
      modifies cache, this`log
      ensures Valid()
      ensures cache[LineIndex(a)] == AfterRead(old(cache[LineIndex(a)]), Contents(), a)
      ensures v == ReadValue(old(cache[LineIndex(a)]), Contents(), a)
      ensures forall i :: 0 <= i < LINE_COUNT && i != LineIndex(a) ==> cache[i] == old(cache[i])
      ensures log == old(log) + if Hit(old(cache[LineIndex(a)]), a) then [] else FillLog(LogActive(), a, LINE_WORDS)
    {
      var index := LineIndex(a);
      var tag := LineTag(a);
      if cache[index].valid && cache[index].tag == tag {
        return cache[index].data[LineSlot(a)];
      }
      Fill(cache, a);
      v := cache[index].data[LineSlot(a)];
    }

    /** The miss path of a cached read: retag the line, mark it valid, fetch its eight words with `read32`. */
    method Fill(cache: array<Line>, a: uint32)
      requires Valid() && (cache == dataCache || cache == instructionCache)
      modifies cache, this`log
      ensures Valid()
      ensures cache[LineIndex(a)] == CacheLine(LineTag(a), Block(Contents(), a), true)
      ensures forall i :: 0 <= i < LINE_COUNT && i != LineIndex(a) ==> cache[i] == old(cache[i])
      ensures log == old(log) + FillLog(LogActive(), a, LINE_WORDS)
    {
      var index := LineIndex(a);
      cache[index] := cache[index].(tag := LineTag(a), valid := true);
      var words := FetchBlock(a);
      cache[index] := cache[index].(data := words);
    }

    /** The eight words of `a`'s 32-byte block, fetched in address order with `read32`. */
    method FetchBlock(a: uint32) returns (words: seq<bv32>)
      requires Valid()
      modifies this`log
      ensures Valid()
      ensures words == Block(Contents(), a)
      ensures log == old(log) + FillLog(LogActive(), a, LINE_WORDS)
    {
      words := [];
      var i := 0;
      ghost var block := Block(Contents(), a);
      ghost var logging := LogActive();
      while i < LINE_WORDS
        invariant 0 <= i <= LINE_WORDS
        invariant Valid() && Block(Contents(), a) == block && LogActive() == logging
        invariant words == block[..i]
        invariant log == old(log) + FillLog(logging, a, i)
      {
        var w := Read32(FillAddress(a, i));
        assert w == block[i];
        PrefixStep(block, i);
        assert log == old(log) + FillLog(logging, a, i + 1) by {
          AppendAssoc(old(log), FillLog(logging, a, i), ReadLog(logging, FillAddress(a, i)));
        }
        words := words + [w];
        i := i + 1;
      }
      assert words == block;
    }

    /** A cached write to `cache`: retags the line, writes one word, marks it valid; memory is not written. */
    method CacheWrite(cache: array<Line>, a: uint32, v: bv32)
      requires Valid() && (cache == dataCache || cache == instructionCache)
      modifies cache
      ensures cache[LineIndex(a)] == AfterWrite(old(cache[LineIndex(a)]), a, v)
      ensures forall i :: 0 <= i < LINE_COUNT && i != LineIndex(a) ==> cache[i] == old(cache[i])
    {
      var index := LineIndex(a);
      var tag := LineTag(a);
      cache[index] := cache[index].(tag := tag);
      cache[index] := cache[index].(data := cache[index].data[LineSlot(a) := v]);
      cache[index] := cache[index].(valid := true);
    }

    method CacheReadData(a: uint32) returns (v: bv32)
      requires Valid()
      modifies dataCache, this`log
      ensures Valid()
      ensures dataCache[LineIndex(a)] == AfterRead(old(dataCache[LineIndex(a)]), Contents(), a)
      ensures v == ReadValue(old(dataCache[LineIndex(a)]), Contents(), a)
      ensures forall i :: 0 <= i < LINE_COUNT && i != LineIndex(a) ==> dataCache[i] == old(dataCache[i])
      ensures unchanged(instructionCache)
      ensures log == old(log) + if Hit(old(dataCache[LineIndex(a)]), a) then [] else FillLog(LogActive(), a, LINE_WORDS)
    {
      v := CacheRead(dataCache, a);
    }

    method CacheReadInst(a: uint32) returns (v: bv32)
      requires Valid()
      modifies instructionCache, this`log
      ensures Valid()
      ensures instructionCache[LineIndex(a)] == AfterRead(old(instructionCache[LineIndex(a)]), Contents(), a)
      ensures v == ReadValue(old(instructionCache[LineIndex(a)]), Contents(), a)
      ensures forall i :: 0 <= i < LINE_COUNT && i != LineIndex(a) ==> instructionCache[i] == old(instructionCache[i])
      ensures unchanged(dataCache)
      ensures log == old(log) + if Hit(old(instructionCache[LineIndex(a)]), a) then [] else FillLog(LogActive(), a, LINE_WORDS)
    {
      v := CacheRead(instructionCache, a);
    }

    method CacheWriteData(a: uint32, value: bv32)
      requires Valid()
      modifies dataCache
      ensures dataCache[LineIndex(a)] == AfterWrite(old(dataCache[LineIndex(a)]), a, value)
      ensures forall i :: 0 <= i < LINE_COUNT && i != LineIndex(a) ==> dataCache[i] == old(dataCache[i])
      ensures unchanged(instructionCache) && Contents() == old(Contents()) && log == old(log)
    {
      CacheWrite(dataCache, a, value);
    }

    method CacheWriteInst(a: uint32, value: bv32)
      requires Valid()
      modifies instructionCache
      ensures instructionCache[LineIndex(a)] == AfterWrite(old(instructionCache[LineIndex(a)]), a, value)
      ensures forall i :: 0 <= i < LINE_COUNT && i != LineIndex(a) ==> instructionCache[i] == old(instructionCache[i])
      ensures unchanged(dataCache) && Contents() == old(Contents()) && log == old(log)
    {
      CacheWrite(instructionCache, a, value);
    }

    // -------------------------------------------------------------------
    // Diagnostics, BIOS image, address helpers.

    /**
     * The (address, word) lines `printMemory` prints: consecutive words from
     * `startAddress` on, while the address is below the 32-bit sum
     * `startAddress + size` and lies in RAM or BIOS; it stops at the first
     * address outside both.
     */
    method PrintMemory(startAddress: uint32, size: uint32) returns (rows: seq<(uint32, bv32)>)
      requires Valid()
      ensures forall k :: 0 <= k < |rows| ==>
        rows[k].0 == startAddress + 4 * k && Printable(rows[k].0) &&
        rows[k].0 < (startAddress + size) % 0x1_0000_0000 &&
        rows[k].1 == Load32(Contents(), rows[k].0)
      ensures startAddress + 4 * |rows| < 0x1_0000_0000
      ensures var next := startAddress + 4 * |rows|;
        next >= (startAddress + size) % 0x1_0000_0000 || !Printable(next)
    {
      rows := [];
      if startAddress >= RAM_SIZE &&
         (startAddress < BIOS_START_ADDRESS || startAddress >= (BIOS_START_ADDRESS + BIOS_SIZE) % 0x1_0000_0000) {
        return;
      }
      var endAddress := (startAddress + size) % 0x1_0000_0000;
      var address: uint32 := startAddress;
      while address < endAddress
        invariant address == startAddress + 4 * |rows|
        invariant forall k :: 0 <= k < |rows| ==>
          rows[k].0 == startAddress + 4 * k && Printable(rows[k].0) &&
          rows[k].0 < endAddress && rows[k].1 == Load32(Contents(), rows[k].0)
        decreases endAddress - address
      {
        if address >= RAM_SIZE &&
           (address < BIOS_START_ADDRESS || address >= (BIOS_START_ADDRESS + BIOS_SIZE) % 0x1_0000_0000) {
          break;
        }
        var value := Word(address);
        rows := rows + [(address, value)];
        address := address + 4;
      }
    }

    /**
     * Loads a BIOS image: `file` is the file's contents, or None when it
     * cannot be opened. Only an image of exactly BIOS_SIZE bytes is loaded,
     * and it replaces every BIOS word; otherwise nothing changes.
     */
    method LoadBios(file: Option<seq<bv8>>) returns (loaded: bool)
      requires Valid()
      modifies bios
      ensures Valid()
      ensures loaded <==> file.Some? && |file.value| == BIOS_SIZE
      ensures loaded ==> Contents() == old(Contents()).(bios := WordsLE(file.value))
      ensures !loaded ==> Contents() == old(Contents())
    {
      if file.None? {
        return false;
      }
      var image := file.value;
      if |image| != BIOS_SIZE {
        return false;
      }
      var i := 0;
      while i < BIOS_WORDS
        invariant 0 <= i <= BIOS_WORDS
        invariant forall j :: 0 <= j < i ==> bios[j] == WordsLE(image)[j]
      {
        bios[i] := PackLE(image[4 * i], image[4 * i + 1], image[4 * i + 2], image[4 * i + 3]);
        i := i + 1;
      }
      assert bios[..] == WordsLE(image);
      loaded := true;
    }

    /** Whether an address lies in RAM, BIOS or the scratchpad; the size argument is not consulted. */
    static function IsValidAddress(a: uint32, size: uint32): (ok: bool)
      ensures ok <==> a < 0x0200_0000 || 0xBFC0_0000 <= a < 0xC000_0000 || 0x7000_0000 <= a < 0x7000_4000
      ensures ok <==> RegionOf(a) != Unmapped
    {
      if InRam(a) then true
      else if InBios(a) then true
      else if InSpram(a) then true
      else false
    }

    /**
     * The fixed-offset translation: an address at or above 0x80000000 loses
     * that offset, any other is returned unchanged. This clears the top bit.
     */
    static function TranslateAddress(a: uint32): (p: uint32)
      ensures p < 0x8000_0000
      ensures p == a % 0x8000_0000
    {
      if a >= 0x8000_0000 then a - 0x8000_0000 else a
    }
  }

  /**
   * Translation is idempotent, and it never yields a BIOS address: every
   * BIOS address translates to an address that lies in no region.
   */
  lemma TranslationProperties(a: uint32)
    ensures Memory.TranslateAddress(Memory.TranslateAddress(a)) == Memory.TranslateAddress(a)
    ensures !InBios(Memory.TranslateAddress(a))
    ensures InBios(a) ==> RegionOf(Memory.TranslateAddress(a)) == Unmapped
  {
  }

  /** Sequence concatenation is associative. */
  lemma AppendAssoc<T>(x: seq<T>, y: seq<T>, z: seq<T>)
    ensures (x + y) + z == x + (y + z)
  {
  }

  /** Extending a prefix by the next element gives the next prefix. */
  lemma PrefixStep<T>(s: seq<T>, i: nat)
    requires i < |s|
    ensures s[..i] + [s[i]] == s[..i + 1]
  {
  }
}
