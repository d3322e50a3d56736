# PS2 memory subsystem — a Dafny model of `Memory`

This project models the `Memory` class of the VITemu2 emulator and proves
properties of that model. `Memory` holds the emulated machine's memory:

- 32 MiB of RAM at `[0x00000000, 0x02000000)`, stored as 32-bit words;
- a 4 MiB BIOS at `[0xBFC00000, 0xC0000000)`, stored as 32-bit words and filled from an image file;
- a 16 KiB scratchpad at `[0x70000000, 0x70004000)`, stored as bytes.

It also holds two direct-mapped level-one caches (data and instruction),
each with 128 lines of 8 words. Finally it has a debug log of accesses that
no region serves.

Modules, bottom-up:

- `Geometry` (`geometry.dfy`): the region constants, the range checks and the
  order in which `read32` tests them, and the index/tag/slot arithmetic of the
  caches. Addresses are 32-bit unsigned integers. The source's address masks
  are written as the arithmetic they compute: `a & ~3` is `a - a % 4` and
  `a & ~0x1F` is `a - a % 32`.
- `Lanes` (`lanes.dfy`): the shift-and-mask expressions of `read8`, `read16`,
  `write8` and `write16` on `bv32` words, and the little-endian packing of
  four bytes into a word.
- `Logging` (`logging.dfy`): log records `(operation, address, size)` and the
  records each access adds.
- `Router` (`router.dfy`): the three stores as values (`Store`). It defines
  what `read32/16/8` return (`Load32/16/8`) and what `write32/16/8` leave
  behind (`Store32/16/8`), with the lemmas about them.
- `Cache` (`cache.dfy`): one cache line and what a cached read or a cached
  write does to it.
- `MemorySystem` (`memory.dfy`): the class `Memory`. It has array fields for
  the stores and the caches, the logging flags, and a ghost `log`. Each method
  is proved against the value-level functions applied to `Contents()` and to
  the cache line it touches.

## Model

| member | source | states |
|---|---|---|
| Geometry.RangeChecksDoNotWrap | src/memory/memory.hpp:66-70 | The BIOS range ends at 0xC0000000 and the scratchpad range at 0x70004000. Both fit in 32 bits, so each guard `address < START + SIZE` is the plain half-open range. |
| Geometry.RegionsDisjoint | src/memory/memory.cpp:29-41 | RAM, BIOS and scratchpad ranges are pairwise disjoint. The region `read32` dispatches to is Ram/Bios/Scratchpad exactly when the address lies in that range, and Unmapped exactly when it lies in none. |
| Geometry.IndicesInBounds | src/memory/memory.cpp:29-36 | Every index the router computes for an in-range address is inside its vector: `a/4` in RAM, `(a-BIOS_START)/4` in BIOS, `a-SPRAM_START` in the scratchpad. |
| Geometry.WordAlign | src/memory/memory.cpp:20 | `a & ~3` is the largest multiple of 4 not above `a`, less than 4 below it. |
| Geometry.LineIndex | src/memory/memory.cpp:69 | The line index `(a/32) % 128` always names one of the 128 lines. |
| Geometry.LineSlot | src/memory/memory.cpp:73 | The slot `(a/4) % 8` always names one of a line's 8 words. |
| Geometry.AddressDecomposition | src/memory/memory.hpp:38-51 | 128 lines of 32 bytes cover 4096 bytes. An address is `tag*4096 + index*32 + slot*4 + (a%4)`, and `a & ~0x1F` is `tag*4096 + index*32`. |
| Geometry.SameBlockIff | src/memory/memory.cpp:69-73 | Two addresses have equal index and equal tag iff they lie in the same 32-byte block. |
| Geometry.FillAddressSlot | src/memory/memory.cpp:79-83 | The fill address of slot `(a/4)%8` is `a & ~3`. Each fill address `baseAddr + 4*i` is word-aligned, lies in `a`'s block and has slot `i`. |
| Geometry.FillStaysInRegion | src/memory/memory.cpp:79-81 | All eight words a line fill fetches lie in the region of the address that missed. |
| Lanes.ByteShift | src/memory/memory.cpp:21 | `(address & 3) * 8` is one of 0, 8, 16, 24. |
| Lanes.HalfShift | src/memory/memory.cpp:26 | `(address & 2) * 8` is 0 or 16. |
| Lanes.UnpackPack | src/memory/memory.cpp:62 | Packing the four little-endian bytes of a word gives the word back. |
| Lanes.PackUnpack | src/memory/memory.cpp:36 | Unpacking four packed bytes gives them back, and byte `k` sits in lane `8*k`. |
| Lanes.InsertByteLanes | src/memory/memory.cpp:43-48 | `write8`'s mask-and-or sets exactly its own byte lane. That lane reads back as the byte, and every other lane keeps its value. |
| Lanes.InsertHalfReadBack | src/memory/memory.cpp:50-55 | `write16`'s mask-and-or followed by `read16`'s extraction at the same shift gives the half-word back. |
| Lanes.InsertHalfLanes | src/memory/memory.cpp:50-55 | `write16` sets exactly the two byte lanes of its half-word, low byte first, and keeps the other two. |
| Lanes.HalfFromBytes | src/memory/memory.cpp:24-27 | A half-word lane is its two byte lanes, low byte at the lower shift. |
| Lanes.HalfAddressLanes | src/memory/memory.cpp:24-27 | `a - a%2` is in the same aligned word as `a`, selects the same half-word lane, and its two bytes are that lane's low and high byte. Because the mask is 0x2, an odd address selects the same lane as the even address below it. |
| Lanes.HalfOfWord | src/memory/memory.cpp:24-27 | The half-word `read16` extracts for `a` equals the bytes `read8` extracts at `a - a%2` and the byte after it. |
| Lanes.ByteInHalf | src/memory/memory.cpp:50-55 | In the same aligned word, a byte address is one of the half-word's two lanes iff it shares `a - a%2`. In another aligned word it never is. |
| Lanes.WordsLEBytes | src/memory/memory.cpp:163 | After reading an image as little-endian words, byte `k` of the image is lane `k%4` of word `k/4`. |
| Logging.Record | src/memory/memory.cpp:180-185 | `logAccess` adds exactly one record `(op, address, size)` when logging is active and none otherwise. |
| Logging.FillLogShape | src/memory/memory.cpp:79-82 | A line fill logs eight read records, in fetch order, with address `baseAddr + 4*i` and size 4, when the missing address is in no region and logging is active. Otherwise it logs nothing. |
| Router.SpramWordBytes | src/memory/memory.cpp:34-36 | With four bytes of room, the word read at a scratchpad offset has exactly the stored bytes as its little-endian bytes. |
| Router.PutSpramWordBytes | src/memory/memory.cpp:60-62 | With four bytes of room, a scratchpad word store writes the word's little-endian bytes at the offset. |
| Router.OutOfRangeAccess | src/memory/memory.cpp:29-66 | An address in no region reads 0 and a write to it changes no store. A write to a BIOS address changes no store either, because `write32` has no BIOS branch. |
| Router.RamWriteRead | src/memory/memory.cpp:57-59 | After `write32(a, v)` to RAM, every RAM address with word index `a/4` reads `v`, unaligned ones included. Every other address reads as before, and BIOS and scratchpad are untouched. |
| Router.Store32Spram | src/memory/memory.cpp:60-62 | `write32` to a scratchpad address stores the word at its offset and leaves RAM and BIOS as they were. |
| Router.LoadSpram | src/memory/memory.cpp:34-36 | `read32` of a scratchpad address returns the little-endian word at its offset. |
| Router.SpramWordReadBack | src/memory/memory.cpp:36 | Four stored bytes equal to a word's little-endian bytes read back as that word. |
| Router.SpramWriteRead | src/memory/memory.cpp:60-62 | A scratchpad `write32` with four bytes of room is read back by `read32` and leaves RAM and BIOS unchanged. |
| Router.SpramWriteKeeps | src/memory/memory.cpp:60-62 | A scratchpad `write32` leaves every scratchpad word that does not overlap it as it was. |
| Router.SpramByteOrder | src/memory/memory.cpp:19-22 | `read8` of a scratchpad address returns exactly the byte stored at its offset, so scratchpad words are little-endian. |
| Router.HalfWordRead | src/memory/memory.cpp:24-27 | `read16` at an odd address equals `read16` at the even address below it. |
| Router.HalfWordBytes | src/memory/memory.cpp:24-27 | `read16(a)` is `read8(a - a%2)` in the low byte and `read8(a - a%2 + 1)` in the high byte. |
| Router.ByteShiftInjective | src/memory/memory.cpp:21 | Two addresses in the same aligned word select the same byte lane iff they are equal. |
| Router.RamByteWrite | src/memory/memory.cpp:43-48 | After `write8(a, b)` to RAM, `read8(a)` returns `b` and every other address reads the same byte as before. |
| Router.RamHalfWrite | src/memory/memory.cpp:50-55 | After `write16(a, h)` to RAM, `read16(a)` returns `h`. The two bytes of the half-word at `a - a%2` read as its low and high byte, and every other byte reads as before. |
| Router.SpramByteWrite | src/memory/memory.cpp:43-48 | After `write8(a, b)` to the scratchpad, `read8(a)` returns `b` and every other address reads the same byte as before. |
| Router.SpramHalfWrite | src/memory/memory.cpp:50-55 | After `write16(a, h)` to the scratchpad, `read16(a)` returns `h`. The two bytes of the half-word at `a - a%2` read as its low and high byte, and every other byte reads as before. |
| Router.SpramWordUnchanged | src/memory/memory.cpp:60-62 | A scratchpad `write32` to an aligned word leaves every other aligned word, in any region, reading as before. |
| Router.LittleEndianExample | src/memory/memory.cpp:19-27 | After writing 0xDEADBEEF to 0x10000: byte 0x10000 is 0xEF, byte 0x10003 is 0xDE, and the half-word at 0x10002 is 0xDEAD. |
| Router.BiosImageBytes | src/memory/memory.cpp:163 | After the BIOS vector is replaced by an image's little-endian words, `read8(BIOS_START + k)` returns byte `k` of the image. |
| Router.SourceSpramWindow | src/memory/memory.cpp:34-36 | The four scratchpad indices the source's word access dereferences, starting at the offset. |
| Router.SourceSpramOverrun | src/memory/memory.cpp:34-36 | The guard admits 0x70003FFD, whose word window reaches index 0x4000, one past the end of the scratchpad. |
| Router.SpramReadInBounds | src/memory/memory.cpp:34-36 | The modelled scratchpad word read stays inside the vector. Its bytes are the stored bytes, and 0 where the window runs past the end. |
| Router.SpramWriteInBounds | src/memory/memory.cpp:60-62 | The modelled scratchpad word write changes only stored bytes inside its window, each to the matching little-endian byte of the word. All other bytes are kept. |
| Cache.HitKeepsLine | src/memory/memory.cpp:72-74 | On a hit (valid line, equal tag) the line is unchanged and the word in slot `(a/4)%8` is returned. |
| Cache.MissReadsBacking | src/memory/memory.cpp:76-83 | On a miss the line becomes valid with tag `a/4096`, and the returned word is `read32(a & ~3)`. That is `read32(a)` unless `a` is an unaligned scratchpad address. |
| Cache.FillServesBlock | src/memory/memory.cpp:76-83 | After a miss on `a`, every address of `a`'s 32-byte block hits and returns the backing word as it was at the fill, whatever the stores hold later. |
| Cache.ConflictEvicts | src/memory/memory.cpp:69-83 | Reading a second address with the same index and a different tag replaces the line, so re-reading the first address misses and refetches its block. |
| Cache.WriteThenRead | src/memory/memory.cpp:104-110 | After a cached write of `v` to `a`, a cached read of `a` hits, returns `v` and changes nothing. |
| Cache.RetagKeepsStaleWords | src/memory/memory.cpp:107-109 | A cached write that retags a line keeps the other seven words of the previous block. A read of another word of the new block then hits and returns the old block's word. |
| MemorySystem.Memory.constructor | src/memory/memory.cpp:3-11 | The stores are sized and zeroed. Every line of both caches is tag 0, data 0, not valid. Logging is off and the log is empty. |
| MemorySystem.Memory.EnableDebugLogging | src/memory/memory.cpp:171-178 | Logging is enabled iff the log file was not open and it opens now. Opening an already open stream fails and turns logging off, while the file stays open. |
| MemorySystem.Memory.LogAccess | src/memory/memory.cpp:180-185 | The log grows by exactly one record when logging is enabled and the file is open, and by nothing otherwise. |
| MemorySystem.Memory.Word | src/memory/memory.cpp:29-41 | The word `read32` returns, computed from the arrays, equals `Load32` of the contents. |
| MemorySystem.Memory.Read32 | src/memory/memory.cpp:29-41 | Returns `Load32` of the contents and changes no store. It logs one read of size 4 exactly when the address is in no region and logging is active. |
| MemorySystem.Memory.Read8 | src/memory/memory.cpp:19-22 | Returns byte lane `(a&3)*8` of `read32(a & ~3)`, which is `Load8`. It logs as `read32(a & ~3)`. |
| MemorySystem.Memory.Read16 | src/memory/memory.cpp:24-27 | Returns half-word lane `(a&2)*8` of `read32(a & ~3)`, which is `Load16`. It logs as `read32(a & ~3)`. |
| MemorySystem.Memory.StoreSpramWord | src/memory/memory.cpp:60-62 | The scratchpad array becomes `PutSpramWord` of its old contents: the word's little-endian bytes at the offset. |
| MemorySystem.Memory.Write32 | src/memory/memory.cpp:57-66 | The contents become `Store32` of the old contents. It logs one write of size 4 exactly when the address is neither RAM nor scratchpad (BIOS included) and logging is active. |
| MemorySystem.Memory.Write8 | src/memory/memory.cpp:43-48 | The contents become `Store8` of the old contents, a read-modify-write of the aligned word. The log gets `read32`'s then `write32`'s records for `a & ~3`. |
| MemorySystem.Memory.Write16 | src/memory/memory.cpp:50-55 | The contents become `Store16` of the old contents. The log gets `read32`'s then `write32`'s records for `a & ~3`. |
| MemorySystem.Memory.CacheRead | src/memory/memory.cpp:68-84 | Line `(a/32)%128` becomes `AfterRead` of its old value (unchanged on a hit, refilled on a miss) and the result is `ReadValue`. No other line changes. The log grows by the fill's records only on a miss. |
| MemorySystem.Memory.Fill | src/memory/memory.cpp:76-82 | The missing line gets tag `a/4096`, becomes valid and holds the eight words of `a`'s block. No other line changes. |
| MemorySystem.Memory.FetchBlock | src/memory/memory.cpp:79-82 | The eight `read32(baseAddr + 4*i)` words in order, with the log grown by their records. |
| MemorySystem.Memory.CacheWrite | src/memory/memory.cpp:104-110 | Line `(a/32)%128` is retagged, slot `(a/4)%8` is written and the line is marked valid. No other line changes. |
| MemorySystem.Memory.CacheReadData | src/memory/memory.cpp:68-84 | `CacheRead` on the data cache. The instruction cache and the stores are unchanged. |
| MemorySystem.Memory.CacheReadInst | src/memory/memory.cpp:86-102 | `CacheRead` on the instruction cache. The data cache and the stores are unchanged. |
| MemorySystem.Memory.CacheWriteData | src/memory/memory.cpp:104-110 | `CacheWrite` on the data cache. The stores, the instruction cache and the log are unchanged. |
| MemorySystem.Memory.CacheWriteInst | src/memory/memory.cpp:112-118 | `CacheWrite` on the instruction cache. The stores, the data cache and the log are unchanged. |
| MemorySystem.Memory.PrintMemory | src/memory/memory.cpp:121-141 | Rows are consecutive words from `startAddress`, each in RAM or BIOS and below the 32-bit sum `startAddress + size`, each with its `read32` value. The dump stops at the end or at the first address in neither region. |
| MemorySystem.Memory.LoadBios | src/memory/memory.cpp:144-169 | The image loads iff the file opens and is exactly BIOS_SIZE bytes. Then every BIOS word is replaced by the image's little-endian words. Otherwise nothing changes. |
| MemorySystem.Memory.IsValidAddress | src/memory/memory.cpp:187-200 | True iff the address is in the RAM, BIOS or scratchpad range, i.e. iff `read32` would not treat it as unmapped. The size is not consulted. |
| MemorySystem.Memory.TranslateAddress | src/memory/memory.cpp:202-210 | The result is below 0x80000000 and equals the address modulo 0x80000000. |
| MemorySystem.TranslationProperties | src/memory/memory.cpp:202-210 | Translation is idempotent and never yields a BIOS address. Every BIOS address translates to an address in no region. |

## Left out

- File input and output: `loadBIOS` takes the file's contents as an optional byte sequence, where absent means the file cannot be opened. `enableDebugLogging` takes whether the file can be created. The log file is a ghost sequence of records. Paths, streams, `seekg`/`tellg` and the text format of log lines are not modelled.
- The `loadBIOS` branch where reading a correctly sized, opened file fails part-way is not modelled. On a real host that leaves `bios` partly overwritten.
- Console output (`std::cout`/`std::cerr`) in `printMemory`, `loadBIOS`, `enableDebugLogging` and `isValidAddress` is left out. `PrintMemory` returns the `(address, word)` rows it would print.
- The destructor only closes the log file, so it is not modelled.
- `pageTable` and `PageTableEntry` are declared but never read, so they are not modelled.
- The host `reinterpret_cast` of scratchpad bytes and of the BIOS image as 32-bit words is replaced by explicit little-endian packing. On a big-endian host the source would behave differently.
- C++ integer promotion in `value << shift` is modelled as 32-bit bit-vector arithmetic.
- MemorySystem.Memory.Fill: the eight fetched words are collected first and stored into the line in one assignment. The source stores each word as soon as it is read. Nothing reads the line in between, so the final state and the log are the same.
- MemorySystem.Memory.IsValidAddress: the size argument is ignored, as in the source. An access that starts in a region and runs past its end is reported valid.
- Router.SpramWord, Router.PutSpramWord: for the last three scratchpad offsets the source's four-byte access runs past the 16 KiB vector, which is undefined behaviour. The model instead reads bytes past index 0x3FFF as 0 and drops writes to them. So it does not capture whatever the host would do with the memory beyond the vector (see Findings).
- The emulator's CPU (`src/cpu/`) and `src/main.cpp` are not part of this model. They never call `Memory`.

## Findings

| source | as written | input that shows it | evidently intended | confidence | as-written member | corrected member |
|---|---|---|---|---|---|---|
| src/memory/memory.cpp:34-36 | A scratchpad word is read, and at line 62 written, through a 32-bit pointer at `&spram[offset]` for every offset the guard admits, up to 0x3FFF. | `read32(0x70003FFD)`: the guard holds, and the four-byte window covers indices 0x3FFD..0x4000. Index 0x4000 is one past the 16 KiB vector (undefined behaviour). | Word accesses stay inside the scratchpad. The model reads bytes past the end as 0 and drops writes past the end. | medium; not executed | Router.SourceSpramOverrun | Router.SpramReadInBounds |
