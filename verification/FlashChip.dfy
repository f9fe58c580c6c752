/**
 A SPI NOR flash chip as the driver sees it: it takes commands at any time, and what it cannot
 do it ignores. `faults` counts the commands that a correct driver never sends: a command to a
 busy chip, a program or erase without the write-enable latch, a page program that runs past its page.
 */
module FlashChip {
  import opened Bytes
  import opened FlashMemory

  /** How far behind addr the address i is reached when counting stays in the page. */
  function PageDist(addr: u32, i: u32): (k: int)
    ensures i / 256 == addr / 256 ==> 0 <= k < 256
  {
    if i >= addr then i - addr else i - addr + 256
  }

  /** Programming inside the page of addr: bytes past its end go round to its start. */
  ghost function ProgramInPage(m: Memory, addr: u32, data: seq<byte>): (r: Memory)
    ensures forall i {:trigger r[i]} | 0 <= i < 0x1_0000_0000 ::
              r[i] == if i / 256 == addr / 256 && PageDist(addr, i) < |data| then m[i] & data[PageDist(addr, i)]
                      else m[i]
  {
    seq(0x1_0000_0000, i requires 0 <= i < 0x1_0000_0000 =>
      if i / 256 == addr / 256 && PageDist(addr, i) < |data| then m[i] & data[PageDist(addr, i)] else m[i])
  }

  /** Data that fits in the page goes to consecutive addresses. */
  lemma FitsInPage(m: Memory, addr: u32, data: seq<byte>)
    requires addr % 256 + |data| <= 256
    ensures ProgramInPage(m, addr, data) == Program(m, addr, data)
  {
    var l, r := ProgramInPage(m, addr, data), Program(m, addr, data);
    forall i | 0 <= i < 0x1_0000_0000
      ensures l[i] == r[i]
    {
      SamePage(addr, i, |data|);
    }
  }

  lemma SamePage(addr: u32, i: u32, n: nat)
    requires addr % 256 + n <= 256
    ensures i / 256 == addr / 256 && PageDist(addr, i) < n <==> Dist(addr, i) < n
    ensures Dist(addr, i) < n ==> PageDist(addr, i) == Dist(addr, i)
  {}

  class Chip {
    const mem: array<byte>
    var writeEnabled: bool
    var settling: nat  // status polls until a write-enable takes effect
    var pending: nat   // status polls until the operation under way is finished
    var faults: nat

    ghost predicate Valid()
      reads this
    {
      mem.Length == 0x1_0000_0000
    }

    ghost predicate Idle()
      reads this
    {
      pending == 0
    }

    ghost function Contents(): Memory
      requires Valid()
      reads this, mem
    {
      mem[..]
    }

    constructor ()
      ensures Valid() && Idle() && faults == 0
      ensures fresh(mem)
    {
      mem := new byte[0x1_0000_0000];
      writeEnabled, settling, pending, faults := false, 0, 0, 0;
    }

    method WriteEnable()
      modifies this
      ensures pending == old(pending)
      ensures old(Idle()) ==> (writeEnabled || settling > 0) && faults == old(faults)
      ensures !old(Idle()) ==> writeEnabled == old(writeEnabled) && faults == old(faults) + 1
    {
      if pending > 0 { faults := faults + 1; return; }
      settling := *;
      writeEnabled := writeEnabled || settling == 0;
    }

    /** The two status bits the driver polls. The latch drops when the operation finishes. */
    method ReadStatus() returns (busy: bool, enabled: bool)
      modifies this
      ensures busy == !old(Idle()) && enabled == old(writeEnabled)
      ensures faults == old(faults)
      ensures old(Idle()) ==> Idle() && (old(writeEnabled) ==> writeEnabled)
      ensures old(Idle()) ==> settling == if old(settling) > 0 then old(settling) - 1 else 0
      ensures old(Idle()) && old(settling) == 1 ==> writeEnabled
      ensures !old(Idle()) ==> pending == old(pending) - 1
      ensures Idle() && !old(Idle()) ==> !writeEnabled
    {
      busy, enabled := pending > 0, writeEnabled;
      if pending > 0 {
        pending := pending - 1;
        if pending == 0 { writeEnabled := false; }
      } else if settling > 0 {
        settling := settling - 1;
        if settling == 0 { writeEnabled := true; }
      }
    }

    /** An accepted operation takes any number of polls. */
    method Begin()
      modifies this
      ensures faults == old(faults)
    {
      pending := *;
      if pending == 0 { writeEnabled := false; }
    }

    method BlockErase(addr: u32)
      requires Valid()
      modifies this, mem
      ensures faults == if old(Idle() && writeEnabled) then old(faults) else old(faults) + 1
      ensures Contents() == if old(Idle() && writeEnabled) then Erase(old(Contents()), addr - addr % 65536, 65536)
                            else old(Contents())
    {
      if pending > 0 || !writeEnabled { faults := faults + 1; return; }
      var base := addr - addr % 65536;
      forall i | base <= i < base + 65536 {
        mem[i] := 0xFF;
      }
      Begin();
    }

    /** Bytes past the end of the page go round to its start. */
    method PageProgram(addr: u32, data: seq<byte>)
      requires Valid() && |data| <= 256
      modifies this, mem
      ensures faults == if old(Idle() && writeEnabled) && addr % 256 + |data| <= 256 then old(faults)
                        else old(faults) + 1
      ensures Contents() == if old(Idle() && writeEnabled) then ProgramInPage(old(Contents()), addr, data)
                            else old(Contents())
    {
      if pending > 0 || !writeEnabled { faults := faults + 1; return; }
      if addr % 256 + |data| > 256 { faults := faults + 1; }
      var base: int := addr - addr % 256;
      forall i | base <= i < base + 256 && PageDist(addr, i) < |data| {
        mem[i] := mem[i] & data[PageDist(addr, i)];
      }
      Begin();
    }

    method ReadData(addr: u32, n: nat) returns (data: seq<byte>)
      requires Valid() && n <= 0x1_0000_0000
      modifies this
      ensures pending == old(pending) && writeEnabled == old(writeEnabled)
      ensures faults == if old(Idle()) then old(faults) else old(faults) + 1
      ensures |data| == n
      ensures old(Idle()) ==> data == Read(Contents(), addr, n)
    {
      if pending > 0 { faults := faults + 1; }
      data := seq(n, k requires 0 <= k < n reads this, mem requires Valid() => mem[Above(addr, k)]);
    }
  }
}
