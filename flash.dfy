/// A byte-array stand-in for the Zephyr flash driver the core calls
/// (`flash_erase`, `flash_write`, `flash_read`). Erased NOR flash reads 0xFF.
/// Faults are fixed per page address: an erase that reports failure and
/// leaves the page alone, a program call that reports failure, and a
/// "lossy" program call that reports success but stores nothing.
module FlashDevice {
  import opened Bytes

  class Flash {
    const mem: array<Byte>
    const eraseFaults: set<nat>
    const programFaults: set<nat>
    const lossyPrograms: set<nat>

    /** Flash addresses are 32-bit. */
    ghost predicate Valid() {
      mem.Length <= TWO_32
    }

    constructor (size: nat, eraseFaults: set<nat>, programFaults: set<nat>, lossyPrograms: set<nat>)
      requires size <= TWO_32
      ensures Valid() && fresh(mem) && mem.Length == size && mem[..] == Ones(size)
      ensures this.eraseFaults == eraseFaults && this.programFaults == programFaults
      ensures this.lossyPrograms == lossyPrograms
    {
      mem := new Byte[size](_ => 0xFF);
      this.eraseFaults := eraseFaults;
      this.programFaults := programFaults;
      this.lossyPrograms := lossyPrograms;
    }

    /** Return code of `flash_erase(addr, len)`. */
    function EraseRc(addr: nat, len: nat): int {
      if addr + len > mem.Length then -EINVAL
      else if addr in eraseFaults then -EIO
      else 0
    }

    /** Memory contents after `flash_erase(addr, len)` on contents `m`. */
    function Erased(m: seq<Byte>, addr: nat, len: nat): (r: seq<Byte>)
      requires |m| == mem.Length
      ensures |r| == |m|
    {
      if EraseRc(addr, len) == 0 then Overlay(m, addr, Ones(len)) else m
    }

    /** Return code of `flash_write(addr, data, len)`. */
    function ProgramRc(addr: nat, len: nat): int {
      if addr + len > mem.Length then -EINVAL
      else if addr in programFaults then -EIO
      else 0
    }

    /** Memory contents after `flash_write(addr, data, |data|)` on contents `m`. */
    function Programmed(m: seq<Byte>, addr: nat, data: seq<Byte>): (r: seq<Byte>)
      requires |m| == mem.Length
      ensures |r| == |m|
    {
      if ProgramRc(addr, |data|) == 0 && addr !in lossyPrograms then Overlay(m, addr, data)
      else m
    }

    method Fill(addr: nat, data: seq<Byte>)
      requires addr + |data| <= mem.Length
      modifies mem
      ensures mem[..] == Overlay(old(mem[..]), addr, data)
    {
      var i := 0;
      while i < |data|
        invariant 0 <= i <= |data|
        invariant forall j :: 0 <= j < mem.Length ==>
          mem[j] == if addr <= j < addr + i then data[j - addr] else old(mem[j])
      {
        mem[addr + i] := data[i];
        i := i + 1;
      }
      assert forall j :: 0 <= j < mem.Length ==>
        mem[..][j] == Overlay(old(mem[..]), addr, data)[j];
    }

    method Erase(addr: nat, len: nat) returns (rc: int)
      modifies mem
      ensures rc == EraseRc(addr, len)
      ensures mem[..] == Erased(old(mem[..]), addr, len)
    {
      rc := EraseRc(addr, len);
      if rc == 0 {
        Fill(addr, Ones(len));
      }
    }

    method Write(addr: nat, data: seq<Byte>) returns (rc: int)
      modifies mem
      ensures rc == ProgramRc(addr, |data|)
      ensures mem[..] == Programmed(old(mem[..]), addr, data)
    {
      rc := ProgramRc(addr, |data|);
      if rc == 0 && addr !in lossyPrograms {
        Fill(addr, data);
      }
    }

    method Read(addr: nat, len: nat) returns (data: seq<Byte>)
      requires addr + len <= mem.Length
      ensures data == mem[addr..addr + len]
    {
      data := mem[addr..addr + len];
    }
  }
}
