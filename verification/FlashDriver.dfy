/**
 The driver of usb_msc/flash_util.c. Two chips share one SPI peripheral; the pins are wired to
 at most one of them at a time, and every command goes to that chip.
 */
module FlashDriver {
  import opened Bytes
  import opened FlashMemory
  import opened FlashChip

  // ---------------------------------------------------------------- what the paged write does

  /** Bytes left in the page that addr lies in. */
  function FirstPage(addr: u32): int {
    256 - addr % 256
  }

  /** What one round takes: the rest of the page, or the whole length (not what is left of it) if that is less. */
  function RoundLen(addr: u32, len: nat): (n: nat)
    ensures n <= 256 && (len > 0 ==> n > 0)
  {
    Min(FirstPage(addr), len)
  }

  /** The driver's own page check. At the top page it refuses all but a full remainder. */
  predicate PageAccepts(addr: u32, n: nat) {
    addr % 256 + n <= 256 && (addr < 0xFFFF_FF00 || addr + n == 0x1_0000_0000)
  }

  /** How a paged write ends: bytes programmed, and whether every page was accepted. */
  datatype PagedWrite = PagedWrite(written: nat, ok: bool)

  /** The rounds of the write, from `written` bytes on. */
  function Rounds(addr: u32, written: nat, len: nat): (r: PagedWrite)
    ensures r.written >= written
    ensures written < len && PageAccepts(addr, RoundLen(addr, len)) ==> r.written >= written + RoundLen(addr, len)
    decreases len - written
  {
    if written >= len then PagedWrite(written, true)
    else
      var n := RoundLen(addr, len);
      if !PageAccepts(addr, n) then PagedWrite(written, false)
      else Rounds(Above(addr, n), written + n, len)
  }

  lemma NextRound(addr: u32, written: nat, len: nat)
    requires written < len
    ensures var n := RoundLen(addr, len);
            if PageAccepts(addr, n)
            then Rounds(addr, written, len) == Rounds(Above(addr, n), written + n, len)
                 && written + n <= Rounds(addr, written, len).written
            else Rounds(addr, written, len) == PagedWrite(written, false)
  {}

  /** Bytes programmed when no page is refused: a short buffer that crosses a page is sent whole again. */
  function PagedLen(addr: u32, len: nat): (n: nat)
    ensures n >= len
  {
    if len <= FirstPage(addr) then len
    else if len < 256 then FirstPage(addr) + len
    else len + 255 - (addr + len + 255) % 256
  }

  /** The write ends inside the top page. */
  predicate Refused(addr: u32, len: nat) {
    len > 0 && Wrap(addr + PagedLen(addr, len)) > 0xFFFF_FF00
  }

  lemma PageMultiples(x: nat)
    ensures (x - x % 256) % 256 == 0
    ensures Wrap(x) % 256 == x % 256
  {
    var q := x / 0x1_0000_0000;
    assert x == Wrap(x) + 256 * (q * 0x100_0000);
  }

  /** Exactly when the paged write is exact, and how far it can run over otherwise. */
  lemma PagedLenExact(addr: u32, len: nat)
    ensures len <= PagedLen(addr, len) < len + 256
    ensures PagedLen(addr, len) == len <==> len <= FirstPage(addr) || (addr + len) % 256 == 0
  {}

  /** Bytes programmed when the write is refused in the top page: at most the rest of the page before. */
  function RefusedLen(addr: u32, len: nat): nat {
    if len <= FirstPage(addr) then 0 else FirstPage(addr)
  }

  /** The whole write in closed form: it fails exactly when it ends inside the top page. */
  lemma PagedWriteResult(addr: u32, len: nat)
    requires len <= 0xFFFF_FF00
    ensures Rounds(addr, 0, len) == if Refused(addr, len) then PagedWrite(RefusedLen(addr, len), false)
                                    else PagedWrite(PagedLen(addr, len), true)
  {
    RoundsFrom(addr, len, 0, addr);
  }

  /** A size that divides the page, written to a multiple of itself, is written exactly, or refused in the top page. */
  lemma AlignedWrite(addr: u32, len: nat)
    requires 0 < len <= 256 && 256 % len == 0 && addr % len == 0
    ensures Rounds(addr, 0, len) == if PageAccepts(addr, len) then PagedWrite(len, true) else PagedWrite(0, false)
    ensures PageAccepts(addr, len) <==> addr < 0xFFFF_FF00 || addr + len == 0x1_0000_0000
  {
    DivisorFits(addr, len);
    WriteInPage(addr, len);
  }

  lemma WriteInPage(addr: u32, len: nat)
    requires len > 0 && addr % 256 + len <= 256
    ensures Rounds(addr, 0, len) == if PageAccepts(addr, len) then PagedWrite(len, true) else PagedWrite(0, false)
  {
    PagedWriteResult(addr, len);
  }

  lemma DivisorFits(addr: u32, len: nat)
    requires 0 < len <= 256 && 256 % len == 0 && addr % len == 0
    ensures addr % 256 + len <= 256
  {
    var k, r := 256 / len, addr % 256;
    assert 256 == k * len;
    var q := addr / len;
    assert addr == q * len;
    var p := addr / 256;
    assert r == q * len - p * (k * len) == (q - p * k) * len;
    var s := q - p * k;
    LessByFactor(s, k, len);
    assert (s + 1) * len <= k * len;
  }

  lemma LessByFactor(s: int, k: int, len: nat)
    requires s * len < k * len
    ensures s < k
  {}

  /** The values `bytes_written` can take. */
  ghost predicate LoopShape(start: u32, len: nat, written: nat) {
    || written == 0
    || written == PagedLen(start, len)
    || (len > FirstPage(start) && written == FirstPage(start))
    || (len > FirstPage(start) && len >= 256 && (start + written) % 256 == 0)
  }

  lemma RoundKeepsShape(start: u32, len: nat, written: nat, addr: u32)
    requires LoopShape(start, len, written) && written < len && addr % 256 == (start + written) % 256
    ensures var n := RoundLen(addr, len);
            written + n <= PagedLen(start, len) && LoopShape(start, len, written + n)
  {
    if written == 0 {
    } else if len < 256 {
      assert addr % 256 == 0;
    } else {
      PageMultiples(start + len + 255);
      NextMultiple(start + written, start + PagedLen(start, len));
    }
  }

  lemma NextMultiple(x: nat, y: nat)
    requires x < y && x % 256 == 0 && y % 256 == 0
    ensures x + 256 <= y && (x + 256) % 256 == 0
  {}

  /** A round is refused only where the whole write is, and then everything before it has been written. */
  ghost predicate RefusalIsFinal(start: u32, len: nat, written: nat, addr: u32) {
    var n := RoundLen(addr, len);
    && (!PageAccepts(addr, n) ==> Refused(start, len) && written == RefusedLen(start, len))
    && (PageAccepts(addr, n) && written + n >= len ==> !Refused(start, len) && written + n == PagedLen(start, len))
  }

  lemma FirstRoundRefused(start: u32, len: nat)
    requires len > 0
    ensures RefusalIsFinal(start, len, 0, start)
  {}

  lemma ShortRoundRefused(start: u32, len: nat, addr: u32)
    requires FirstPage(start) < len < 256 && addr == Above(start, FirstPage(start))
    ensures RefusalIsFinal(start, len, FirstPage(start), addr)
  {
    assert addr % 256 == 0;
    ShortEnd(start, len, addr);
    assert RoundLen(addr, len) == len && PagedLen(start, len) == FirstPage(start) + len;
  }

  lemma ShortEnd(start: u32, len: nat, addr: u32)
    requires FirstPage(start) < len < 256 && addr == Above(start, FirstPage(start)) && addr % 256 == 0
    ensures Wrap(start + FirstPage(start) + len) == addr + len
    ensures addr + len > 0xFFFF_FF00 <==> addr == 0xFFFF_FF00
  {}

  lemma LongRoundRefused(start: u32, len: nat, written: nat, addr: u32)
    requires FirstPage(start) < len && 256 <= len && written < len && addr % 256 == (start + written) % 256 == 0
    ensures RefusalIsFinal(start, len, written, addr)
  {
    var here, end := start + written, start + PagedLen(start, len);
    PageMultiples(start + len + 255);
    PageMultiples(end);
    NextMultiple(here, end);
    if here + 256 < end { NextMultiple(here + 256, end); }
  }

  lemma RoundRefused(start: u32, len: nat, written: nat, addr: u32)
    requires LoopShape(start, len, written) && written < len <= 0x1_0000_0000 && addr == Above(start, written)
    ensures RefusalIsFinal(start, len, written, addr)
  {
    if written == 0 {
      FirstRoundRefused(start, len);
    } else if len < 256 {
      ShortRoundRefused(start, len, addr);
    } else {
      LongRoundRefused(start, len, written, addr);
    }
  }

  lemma {:induction false} RoundsFrom(start: u32, len: nat, written: nat, addr: u32)
    requires len <= 0xFFFF_FF00 && LoopShape(start, len, written) && written <= PagedLen(start, len)
    requires addr == Above(start, written)
    requires len <= written ==> !Refused(start, len) && written == PagedLen(start, len)
    ensures Rounds(addr, written, len) == if Refused(start, len) then PagedWrite(RefusedLen(start, len), false)
                                          else PagedWrite(PagedLen(start, len), true)
    decreases len - written
  {
    if written < len {
      var n := RoundLen(addr, len);
      RoundKeepsShape(start, len, written, addr);
      RoundRefused(start, len, written, addr);
      if PageAccepts(addr, n) {
        RoundsFrom(start, len, written + n, Above(addr, n));
      }
    }
  }

  /** The source's `next_page - addr` in 32-bit arithmetic. */
  function ToNextPage(addr: u32): u32 {
    var above: int := addr + 256;
    Wrap(Wrap(above - above % 256) - addr)
  }

  lemma NextPageDistance(addr: u32)
    ensures ToNextPage(addr) == FirstPage(addr)
  {
    var next: int := addr + 256 - addr % 256;
    assert (addr + 256) % 256 == addr % 256;
    assert Wrap(next) == next || (next == 0x1_0000_0000 && Wrap(next) == 0);
  }

  lemma WroteMore(m: Memory, start: u32, buf: seq<byte>, w: nat, n: nat)
    requires w + n <= |buf| < 0x1_0000_0000
    ensures Program(Program(m, start, buf[..w]), Above(start, w), buf[w..w + n]) == Program(m, start, buf[..w + n])
  {
    assert buf[..w] + buf[w..w + n] == buf[..w + n];
    ProgramConcat(m, start, buf[..w], buf[w..w + n]);
  }

  // ---------------------------------------------------------------- the driver

  datatype Route = Released | ToBitstream | ToFirmware

  class Bus {
    const bitstream: Chip
    const firmware: Chip
    var route: Route

    ghost predicate Valid()
      reads this, bitstream, firmware
    {
      && bitstream != firmware && bitstream.mem != firmware.mem
      && bitstream.Valid() && firmware.Valid()
      && bitstream.Idle() && firmware.Idle()
    }

    ghost function Repr(): set<object> {
      {this, bitstream, firmware, bitstream.mem, firmware.mem}
    }

    /** No command has been lost or misused on either chip. */
    ghost function Faults(): nat
      reads bitstream, firmware
    {
      bitstream.faults + firmware.faults
    }

    function Active(): Chip
      requires route != Released
      reads this
    {
      if route == ToBitstream then bitstream else firmware
    }

    constructor (b: Chip, f: Chip)
      requires b != f && b.mem != f.mem && b.Valid() && f.Valid() && b.Idle() && f.Idle()
      ensures Valid() && bitstream == b && firmware == f && route == Released
    {
      bitstream, firmware, route := b, f, Released;
    }

    method ReleaseSpiIo()
      requires Valid()
      modifies this
      ensures Valid() && route == Released
    {
      route := Released;
    }

    method BitstreamInitSpi()
      requires Valid()
      modifies this
      ensures Valid() && route == ToBitstream
    {
      ReleaseSpiIo();
      route := ToBitstream;
    }

    method FirmwareInitSpi()
      requires Valid()
      modifies this
      ensures Valid() && route == ToFirmware
    {
      ReleaseSpiIo();
      route := ToFirmware;
    }

    method IsBusy() returns (busy: bool)
      requires route != Released && Active().Valid()
      modifies Active()
      ensures busy == !old(Active().Idle())
      ensures old(Active().Idle()) ==> Active().Idle()
      ensures !old(Active().Idle()) ==> Active().pending == old(Active().pending) - 1
      ensures Active().faults == old(Active().faults)
    {
      var enabled;
      busy, enabled := Active().ReadStatus();
    }

    /** `while (spi_flash_is_busy());` */
    method AwaitIdle()
      requires route != Released && Active().Valid()
      modifies Active()
      ensures Active().Idle() && Active().faults == old(Active().faults)
    {
      var busy := IsBusy();
      while busy
        invariant !busy ==> Active().Idle()
        invariant Active().faults == old(Active().faults)
        decreases Active().pending, busy
      {
        busy := IsBusy();
      }
    }

    method WriteEnable()
      requires route != Released && Active().Valid() && Active().Idle()
      modifies Active()
      ensures Active().Idle() && Active().writeEnabled && Active().faults == old(Active().faults)
    {
      var chip := Active();
      chip.WriteEnable();
      var busy, enabled := chip.ReadStatus();
      while !enabled
        invariant chip.Idle() && chip.faults == old(chip.faults)
        invariant chip.writeEnabled || chip.settling > 0
        invariant enabled ==> chip.writeEnabled
        decreases chip.settling, !enabled
      {
        busy, enabled := chip.ReadStatus();
      }
    }

    /** Starts the erase of the 64 KiB block that addr lies in; the caller waits. */
    method Erase64kNonblocking(addr: u32)
      requires Valid() && route != Released
      modifies Active(), Active().mem
      ensures Active().Contents() == Erase(old(Active().Contents()), addr - addr % 65536, 65536)
      ensures Active().faults == old(Active().faults)
    {
      WriteEnable();
      Active().BlockErase(addr);
    }

    method ReadFlash(addr: u32, len: nat) returns (data: seq<byte>)
      requires Valid() && route != Released && len <= 0x1_0000_0000
      modifies Active()
      ensures Valid() && Active().faults == old(Active().faults)
      ensures data == Read(Active().Contents(), addr, len)
    {
      data := Active().ReadData(addr, len);
    }

    /**
     Programs len bytes of buf, from index `from` on, into one page; -1 if they do not fit in the page
     by the driver's own check, which comes before the data is looked at.
     */
    method PageProgramBlocking(addr: u32, buf: seq<byte>, from: nat, len: nat) returns (rtn: int)
      requires Valid() && route != Released && len <= 256
      requires PageAccepts(addr, len) ==> from + len <= |buf|
      modifies Active(), Active().mem
      ensures Valid() && Active().faults == old(Active().faults)
      ensures rtn == 0 <==> PageAccepts(addr, len)
      ensures rtn == 0 ==> Active().Contents() == Program(old(Active().Contents()), addr, buf[from..from + len])
      ensures rtn != 0 ==> rtn == -1 && Active().Contents() == old(Active().Contents())
    {
      if Wrap(addr + len) > Wrap(addr - addr % 256 + 256) { return -1; }
      WriteEnable();
      FitsInPage(Active().Contents(), addr, buf[from..from + len]);
      Active().PageProgram(addr, buf[from..from + len]);
      AwaitIdle();
      return 0;
    }

    /** The page loop: its result is the one `Rounds` describes. */
    method WriteBuffer(start: u32, buf: seq<byte>, len: u32) returns (rtn: int)
      requires Valid() && route != Released
      requires Rounds(start, 0, len).written <= |buf| < 0x1_0000_0000
      modifies Active(), Active().mem
      ensures Valid() && Active().faults == old(Active().faults)
      ensures rtn == if Rounds(start, 0, len).ok then 0 else -1
      ensures Active().Contents() == Program(old(Active().Contents()), start, buf[..Rounds(start, 0, len).written])
    {
      ghost var chip := Active();
      ghost var before := chip.Contents();
      var addr, written := start, 0;
      ghost var r := Rounds(start, 0, len);
      ProgramNothing(before, start);
      while written < len
        invariant Valid() && Active() == chip && chip.faults == old(chip.faults)
        invariant Rounds(addr, written, len) == r
        invariant written <= |buf| && addr == Above(start, written)
        invariant chip.Contents() == Program(before, start, buf[..written])
        decreases len - written
      {
        NextPageDistance(addr);
        NextRound(addr, written, len);
        var toWrite := Min(ToNextPage(addr), len);
        rtn := PageProgramBlocking(addr, buf, written, toWrite);
        if rtn != 0 { return rtn; }
        WroteMore(before, start, buf, written, toWrite);
        addr := Above(addr, toWrite);
        written := written + toWrite;
      }
      return 0;
    }
  }
}
