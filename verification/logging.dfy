/**
 * The access log of `Memory`: one record (operation, address, size) per
 * access the router could not serve, written only while logging is on.
 * The text file the records go to is replaced by a sequence of records.
 */
module Logging {
  import opened Geometry

  datatype Operation = Read | Write

  /** One log line: "Acesso: <operation> Endereço: <address> Tamanho: <size> bytes". */
  datatype Access = Access(operation: Operation, address: uint32, size: uint32)

  /** What `logAccess` adds to the log: one record when logging is on, nothing otherwise. */
  function Record(logging: bool, op: Operation, a: uint32, size: uint32): (r: seq<Access>)
    ensures |r| <= 1
    ensures logging <==> r == [Access(op, a, size)]
    ensures !logging <==> r == []
  {
    if logging then [Access(op, a, size)] else []
  }

  /** The records a `read32` of `a` adds: only an address in no region is logged. */
  function ReadLog(logging: bool, a: uint32): seq<Access>
  {
    if RegionOf(a) == Unmapped then Record(logging, Read, a, 4) else []
  }

  /**
   * The records a `write32` of `a` adds: `write32` serves only RAM and the
   * scratchpad, so a BIOS address is logged like an address in no region.
   */
  function WriteLog(logging: bool, a: uint32): seq<Access>
  {
    if InRam(a) || InSpram(a) then [] else Record(logging, Write, a, 4)
  }

  /** The records the first n reads of a line fill for `a` add, in order. */
  function FillLog(logging: bool, a: uint32, n: nat): seq<Access>
    requires n <= LINE_WORDS
  {
    if n == 0 then [] else FillLog(logging, a, n - 1) + ReadLog(logging, FillAddress(a, n - 1))
  }

  /**
   * A whole line fill logs eight read records, one per word fetched and in
   * fetch order, when the missing address is in no region and logging is
   * on; otherwise it logs nothing.
   */
  lemma {:induction false} FillLogShape(logging: bool, a: uint32, n: nat)
    requires n <= LINE_WORDS
    ensures FillLog(logging, a, n) ==
      if logging && RegionOf(a) == Unmapped
      then seq(n, i requires 0 <= i < n => Access(Read, FillAddress(a, i), 4))
      else []
  {
    if n > 0 {
      FillLogShape(logging, a, n - 1);
      FillStaysInRegion(a, n - 1);
    }
  }
}
