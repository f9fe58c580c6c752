/** The upload handler of usb_msc/msc_disk.c and the boot path of usb_msc/main.c, proved against UploadSpec. */
module Upload {
  import opened Bytes
  import opened FlashMemory
  import opened FlashChip
  import opened FlashDriver
  import opened Uf2
  import opened Uf2Sectors
  import opened Bitstream
  import opened UploadSpec
  import opened SectorKinds
  import opened Castagnoli

  /** `struct flash_prog_state` */
  class ProgState {
    var inProgress: bool
    var blocksLeft: u32
    var crc: u32
    var offset: u32
    var isBitstream: bool
    var blockSize: u32

    ghost function Value(): Session
      reads this
    {
      Session(inProgress, blocksLeft, crc, offset, isBitstream, blockSize)
    }

    constructor ()
      ensures Value() == Session(false, 0, 0, 0, false, 0)
    {
      inProgress, blocksLeft, crc, offset, isBitstream, blockSize := false, 0, 0, 0, false, 0;
    }
  }

  class Device {
    const bus: Bus
    const bitstreamState: ProgState
    const firmwareState: ProgState
    var fpga: Fpga
    var pins: seq<bool>
    var reports: seq<Report>

    ghost predicate Valid()
      reads this, bus, bus.bitstream, bus.firmware
    {
      bus.Valid() && bitstreamState != firmwareState && |pins| == 3
    }

    ghost function Repr(): set<object> {
      {this, bitstreamState, firmwareState, bus, bus.bitstream, bus.firmware, bus.bitstream.mem, bus.firmware.mem}
    }

    ghost function Value(): Dev
      requires Valid()
      reads this, bitstreamState, firmwareState, bus, bus.bitstream, bus.firmware, bus.bitstream.mem, bus.firmware.mem
    {
      Dev(Flash(bus.bitstream.Contents(), bitstreamState.Value()),
          Flash(bus.firmware.Contents(), firmwareState.Value()),
          fpga, pins, reports)
    }

    constructor (b: Chip, f: Chip, levels: seq<bool>)
      requires b != f && b.mem != f.mem && b.Valid() && f.Valid() && b.Idle() && f.Idle() && |levels| == 3
      ensures Valid() && pins == levels && bus.bitstream == b && bus.firmware == f
      ensures fpga == Fpga([], []) && reports == []
      ensures !bitstreamState.inProgress && !firmwareState.inProgress
    {
      bus := new Bus(b, f);
      bitstreamState := new ProgState();
      firmwareState := new ProgState();
      fpga, pins, reports := Fpga([], []), levels, [];
    }

    // -------------------------------------------------------------- boot

    /** The first select pin that is pulled low. */
    method ReadBitstreamSelectPins() returns (i: nat)
      requires Valid()
      ensures i == SelectedSlot(pins)
    {
      for k := 0 to 3
        invariant forall j | 0 <= j < k :: pins[j]
      {
        if !pins[k] { return k; }
      }
      return 0;
    }

    method FlashGetBitstreamOffset() returns (offset: u32)
      requires Valid()
      ensures offset == SelectedOffset(pins)
    {
      var pin := ReadBitstreamSelectPins();
      return SLOTS[pin];
    }

    /** Loads the FPGA from the selected slot, if it holds a bitstream; the CRC is the one the source logs. */
    method StartupProgramBitstream() returns (crc: bv32)
      requires Valid()
      requires ScanInBounds(Window(bus.bitstream.Contents(), SelectedOffset(pins)))
      modifies this`fpga, bus, bus.bitstream
      ensures Valid() && bus.bitstream.faults == old(bus.bitstream.faults)
      ensures bus.bitstream.Contents() == old(bus.bitstream.Contents())
      ensures fpga == Boot(old(fpga), bus.bitstream.Contents(), pins)
      ensures var offset := SelectedOffset(pins);
              var len := BitstreamLength(Window(bus.bitstream.Contents(), offset));
              crc == Crc(0, Read(bus.bitstream.Contents(), offset, len))
    {
      bus.BitstreamInitSpi();
      var offset := FlashGetBitstreamOffset();
      var buf := bus.ReadFlash(offset, 256);
      var len := GetBitstreamLength(buf);
      EmptyCrc(0);
      if len == 0 { return 0; }
      fpga := fpga.Erased();
      crc := StreamToFpga(offset, len);
    }

    /** The chunk loop: 4096 bytes at a time from flash to the FPGA, with a running CRC. */
    method StreamToFpga(offset: u32, len: u32) returns (crc: bv32)
      requires Valid() && bus.route == ToBitstream
      modifies this`fpga, bus.bitstream
      ensures Valid() && bus.bitstream.faults == old(bus.bitstream.faults)
      ensures bus.bitstream.Contents() == old(bus.bitstream.Contents())
      ensures fpga == old(fpga).Sent(Read(bus.bitstream.Contents(), offset, len))
      ensures crc == Crc(0, Read(bus.bitstream.Contents(), offset, len))
    {
      ghost var chip := bus.bitstream;
      ghost var m := chip.Contents();
      var left, addr := len, offset;
      crc := 0;
      EmptyCrc(0);
      ghost var sent: seq<byte> := [];
      assert fpga.Sent(sent) == fpga;
      while left > 0
        invariant Valid() && bus.route == ToBitstream && chip.faults == old(chip.faults)
        invariant chip.Contents() == m
        invariant 0 <= left <= len && addr == Above(offset, len - left)
        invariant sent == Read(m, offset, len - left)
        invariant fpga == old(fpga).Sent(sent)
        invariant crc == Crc(0, sent)
      {
        var n := Min(4096, left);
        ghost var chunk := Read(m, addr, n);
        SentTwice(old(fpga), sent, chunk);
        ChunkSent(m, offset, len - left, n, sent, chunk, crc);
        crc := SendChunk(addr, n, crc);
        sent := sent + chunk;
        left := left - n;
        addr := Above(addr, n);
      }
    }

    /** One chunk from flash to the FPGA. */
    method SendChunk(addr: u32, n: nat, before: bv32) returns (crc: bv32)
      requires Valid() && bus.route == ToBitstream && n <= 4096
      modifies this`fpga, bus.bitstream
      ensures Valid() && bus.bitstream.faults == old(bus.bitstream.faults)
      ensures bus.bitstream.Contents() == old(bus.bitstream.Contents())
      ensures fpga == old(fpga).Sent(Read(bus.bitstream.Contents(), addr, n))
      ensures crc == Crc(before, Read(bus.bitstream.Contents(), addr, n))
    {
      var buf := bus.ReadFlash(addr, n);
      fpga := fpga.Sent(buf);
      crc := Crc32c(before, buf);
    }

    /** CRC of the bitstream found at addr, read in 256-byte pieces; the first piece is always counted whole. */
    method FpgaFlashCalcCrc32(addr: u32) returns (crc: bv32)
      requires Valid() && bus.route == ToBitstream
      requires ScanInBounds(Window(bus.bitstream.Contents(), addr))
      requires BitstreamLength(Window(bus.bitstream.Contents(), addr)) <= 0xFFFF_FF00
      modifies bus.bitstream
      ensures Valid() && bus.bitstream.faults == old(bus.bitstream.faults)
      ensures bus.bitstream.Contents() == old(bus.bitstream.Contents())
      ensures crc == FlashCrc(bus.bitstream.Contents(), addr)
    {
      var buf := bus.ReadFlash(addr, 256);
      var len := GetBitstreamLength(buf);
      if len == 0 { return 0; }
      crc := Crc32c(0, buf);
      if 256 < len { crc := CrcOfRest(addr, len, crc); }
    }

    /** The 256-byte loop, from the second piece on. */
    method CrcOfRest(addr: u32, len: u32, first: bv32) returns (crc: bv32)
      requires Valid() && bus.route == ToBitstream && 256 < len <= 0xFFFF_FF00
      requires first == Crc(0, Window(bus.bitstream.Contents(), addr))
      modifies bus.bitstream
      ensures Valid() && bus.bitstream.faults == old(bus.bitstream.faults)
      ensures bus.bitstream.Contents() == old(bus.bitstream.Contents())
      ensures crc == Crc(0, Read(bus.bitstream.Contents(), addr, len))
    {
      ghost var chip := bus.bitstream;
      ghost var m := chip.Contents();
      crc := first;
      var i := 256;
      ghost var read := Window(m, addr);
      while i < len
        invariant Valid() && bus.route == ToBitstream && chip.faults == old(chip.faults)
        invariant chip.Contents() == m
        invariant 256 <= i <= len
        invariant read == Read(m, addr, i) && crc == Crc(0, read)
      {
        var n := if Wrap(i + 256) > len then len - i else 256;
        var buf := bus.ReadFlash(Above(addr, i), n);
        ChunkSent(m, addr, i, n, read, buf, crc);
        crc := Crc32c(crc, buf);
        read := read + buf;
        i := i + n;
      }
    }

    // -------------------------------------------------------------- upload

    function StateOf(fam: Family): ProgState {
      if fam.Bitstreams? then bitstreamState else firmwareState
    }

    /** Erases every 64 KiB block that the image will touch, waiting for each. */
    method EraseForImage(offset: u32, size: u32)
      requires Valid() && bus.route != Released
      requires offset % 65536 == 0 && size <= 0xFFFF_0000
      modifies bus.Active(), bus.Active().mem
      ensures Valid() && bus.Active().faults == old(bus.Active().faults)
      ensures bus.Active().Contents() == Erase(old(bus.Active().Contents()), offset, RoundUp(size))
      ensures forall i {:trigger bus.Active().Contents()[i]} | 0 <= i < 0x1_0000_0000 ::
                bus.Active().Contents()[i] == if size > 0 && Dist(offset, i) / 65536 <= (size - 1) / 65536 then 0xFF
                                              else old(bus.Active().Contents())[i]
    {
      forall i: u32
        ensures Dist(offset, i) < RoundUp(size) <==> size > 0 && Dist(offset, i) / 65536 <= (size - 1) / 65536
      {
        RoundUpBlocks(size, Dist(offset, i));
      }
      ghost var chip := bus.Active();
      ghost var before := chip.Contents();
      var j := 0;
      EraseNothing(before, offset);
      while j < size
        invariant Valid() && bus.Active() == chip && chip.faults == old(chip.faults)
        invariant 0 <= j <= RoundUp(size) && j % 65536 == 0
        invariant chip.Contents() == Erase(before, offset, j)
        decreases size - j
      {
        AlignedAbove(offset, j);
        bus.Erase64kNonblocking(Above(offset, j));
        bus.AwaitIdle();
        EraseConcat(before, offset, j, 65536);
        j := j + 65536;
      }
    }

    /** Selects the chip; the first block of a session also sets it up, blanks the FPGA and erases the flash. */
    method OpenSession(fam: Family, b: Block)
      requires Valid() && Openable(Value(), fam, b)
      modifies Repr()
      ensures Valid() && bus.Faults() == old(bus.Faults()) && bus.route == RouteOf(fam)
      ensures Value() == OpenStep(old(Value()), fam, b)
    {
      var state := StateOf(fam);
      if fam.Bitstreams? { bus.BitstreamInitSpi(); } else { bus.FirmwareInitSpi(); }
      state.isBitstream := fam.Bitstreams?;
      if !state.inProgress {
        state.inProgress := true;
        state.blocksLeft := b.numBlocks;
        state.crc := 0;
        state.blockSize := b.payloadSize;
        fpga := fpga.Erased();
        state.offset := SlotOffset(b.targetAddr);
        EraseForImage(state.offset, FileSize(b));
      }
    }

    /** Reads a block back from flash and compares. */
    method ReadBack(addr: u32, b: Block) returns (same: bool)
      requires Valid() && bus.route != Released && b.payloadSize <= |b.src|
      modifies bus.Active()
      ensures Valid() && bus.Active().faults == old(bus.Active().faults)
      ensures bus.Active().Contents() == old(bus.Active().Contents())
      ensures same <==> Read(bus.Active().Contents(), addr, b.payloadSize) == b.src[..b.payloadSize]
    {
      var data := bus.ReadFlash(addr, b.payloadSize);
      same := data == b.src[..b.payloadSize];
    }

    /** Writes the block where the session puts it, reads it back and compares. */
    method WriteBlock(fam: Family, b: Block)
      requires Valid() && bus.route == RouteOf(fam) && Writable(Value(), fam, b)
      modifies this`reports, bus.Active(), bus.Active().mem
      ensures Valid() && bus.Faults() == old(bus.Faults())
      ensures Value() == WriteStep(old(Value()), fam, b)
    {
      var state := StateOf(fam);
      var addr := Wrap(state.offset + b.blockNo * state.blockSize);
      var rtn := bus.WriteBuffer(addr, b.src, b.payloadSize);
      var same := ReadBack(addr, b);
      ghost var m := bus.Active().Contents();
      var writeReport := if rtn != 0 then [ProgramError(addr)] else [];
      var readReport := if !same then [VerifyError(addr)] else [];
      assert writeReport + readReport == ReportsOf(m, addr, b);
      reports := reports + (writeReport + readReport);
    }

    /** Counts the block; after the last one the session ends and the FPGA is loaded again. */
    method CountBlock(fam: Family)
      requires Valid() && bus.route == RouteOf(fam) && Countable(Value(), fam)
      modifies StateOf(fam), this`fpga, bus, bus.bitstream
      ensures Valid() && bus.Faults() == old(bus.Faults())
      ensures Value() == CountStep(old(Value()), fam)
    {
      ghost var d := Value();
      CountForm(d, fam);
      var state := StateOf(fam);
      state.blocksLeft := Wrap(state.blocksLeft - 1);
      if state.blocksLeft == 0 {
        state.inProgress := false;
        assert Value() == CountOnly(d, fam);
        ReloadFpga();
      } else {
        assert Value() == CountOnly(d, fam);
      }
    }

    method ReloadFpga()
      requires Valid() && BootDefined(Value())
      modifies this`fpga, bus, bus.bitstream
      ensures Valid() && bus.Faults() == old(bus.Faults())
      ensures Value() == old(Value()).(fpga := Boot(old(fpga), old(Value()).bitstream.mem, pins))
    {
      bus.ReleaseSpiIo();
      var crc := StartupProgramBitstream();
    }

    /** One UF2 block for one of the two chips. */
    method ProgramBlock(fam: Family, b: Block)
      requires Valid() && StepDefined(Value(), fam, b)
      modifies Repr()
      ensures Valid() && bus.Faults() == old(bus.Faults())
      ensures Value() == Step(old(Value()), fam, b)
    {
      ghost var d := Value();
      StepStages(d, fam, b);
      OpenSession(fam, b);
      WriteBlock(fam, b);
      CountBlock(fam);
    }

    /** What one sector asks for; true if it must end the call. */
    method HandleItem(it: Item) returns (stop: bool)
      requires Valid() && ItemDefined(Value(), it)
      modifies Repr()
      ensures Valid() && bus.Faults() == old(bus.Faults())
      ensures Value() == ItemStep(old(Value()), it)
      ensures stop == it.Unknown?
    {
      match it
      case Skipped =>
        return false;
      case Unknown(id) =>
        reports := reports + [UnknownFile(id)];
        return true;
      case Data(fam, b) =>
        ProgramBlock(fam, b);
        return false;
    }

    /** The sectors of a buffer in order, up to the first with an unknown file id. */
    method HandleSectors(buffer: seq<Sector>) returns (stopped: bool)
      requires Valid() && Admissible(Value(), Items(buffer))
      modifies Repr()
      ensures Valid() && bus.Faults() == old(bus.Faults())
      ensures Value() == RunCall(old(Value()), Items(buffer))
      ensures stopped == HasUnknown(Items(buffer))
    {
      var i := 0;
      while i < |buffer|
        invariant Valid() && bus.Faults() == old(bus.Faults())
        invariant 0 <= i <= |buffer|
        invariant Admissible(Value(), Items(buffer[i..]))
        invariant RunCall(Value(), Items(buffer[i..])) == RunCall(old(Value()), Items(buffer))
        invariant HasUnknown(Items(buffer[i..])) == HasUnknown(Items(buffer))
      {
        var rest := buffer[i..];
        ItemsStep(rest);
        assert rest[1..] == buffer[i + 1..];
        var stop := HandleItem(ItemOf(rest[0], Flat(rest[1..])));
        if stop { return true; }
        i := i + 1;
      }
      return false;
    }

    /**
     The write handler, for a buffer of at most 4096 bytes: -1 at the first block with an unknown file id,
     which drops the rest of the buffer.
     */
    method FlashProgramUf2(buffer: seq<Sector>) returns (rtn: int)
      requires Valid() && |buffer| <= 8 && Admissible(Value(), Items(buffer))
      modifies Repr()
      ensures Valid() && bus.Faults() == old(bus.Faults())
      ensures Value() == RunCall(old(Value()), Items(buffer))
      ensures rtn == if exists j :: 0 <= j < |buffer| && ItemOf(buffer[j], []).Unknown? then -1 else 512 * |buffer|
      ensures EndsAtUnknown(old(Value()), Value(), buffer)
    {
      UnknownExactly(buffer);
      CallEndsAtUnknown(Value(), buffer);
      var stopped := HandleSectors(buffer);
      return if stopped then -1 else 512 * |buffer|;
    }
  }

  lemma ItemsStep(ss: seq<Sector>)
    requires ss != []
    ensures Items(ss)[0] == ItemOf(ss[0], Flat(ss[1..])) && Items(ss)[1..] == Items(ss[1..])
  {}

  /** The erase loop of a first block ends. */
  ghost predicate Openable(d: Dev, fam: Family, b: Block) {
    !d.Of(fam).session.inProgress ==> FileSize(b) <= 0xFFFF_0000
  }

  /** Neither write nor comparison reads past the buffer. */
  ghost predicate Writable(d: Dev, fam: Family, b: Block) {
    && b.payloadSize <= |b.src| < 0x1_0000_0000
    && Rounds(TargetOf(d.Of(fam).session, b), 0, b.payloadSize).written <= |b.src|
  }

  /** If the session ends, the boot that follows is not misled. */
  ghost predicate Countable(d: Dev, fam: Family) {
    d.Of(fam).session.inProgress && (Wrap(d.Of(fam).session.blocksLeft - 1) == 0 ==> BootDefined(d))
  }

  /** The record with one more block counted, before any boot. */
  ghost function CountOnly(d: Dev, fam: Family): Dev {
    d.With(fam, d.Of(fam).(session := Counted(d.Of(fam).session)))
  }

  lemma CountForm(d: Dev, fam: Family)
    requires Countable(d, fam)
    ensures var d1 := CountOnly(d, fam);
            && d1.bitstream.mem == d.bitstream.mem && d1.pins == d.pins && d1.fpga == d.fpga
            && (Wrap(d.Of(fam).session.blocksLeft - 1) == 0 ==> BootDefined(d1))
            && CountStep(d, fam) == if Wrap(d.Of(fam).session.blocksLeft - 1) != 0 then d1
                                    else d1.(fpga := Boot(d1.fpga, d1.bitstream.mem, d1.pins))
  {}

  /** What each stage needs follows from the block being one the step is defined on. */
  lemma StepStages(d: Dev, fam: Family, b: Block)
    requires StepDefined(d, fam, b)
    ensures Openable(d, fam, b) && Writable(OpenStep(d, fam, b), fam, b)
    ensures Countable(WriteStep(OpenStep(d, fam, b), fam, b), fam)
  {}

  function RouteOf(fam: Family): Route {
    if fam.Bitstreams? then ToBitstream else ToFirmware
  }

  lemma EraseNothing(m: Memory, addr: u32)
    ensures Erase(m, addr, 0) == m
  {}

  /** The erase loop's index after k rounds: a 32-bit sum. */
  function EraseIndex(k: nat): u32 {
    if k == 0 then 0 else Wrap(EraseIndex(k - 1) + 65536)
  }

  lemma NextBlock(k: nat)
    ensures (k + 1) % 65536 == if k % 65536 == 65535 then 0 else k % 65536 + 1
  {}

  lemma {:induction false} EraseIndexForm(k: nat)
    ensures EraseIndex(k) == 65536 * (k % 65536) <= 0xFFFF_0000
  {
    if k > 0 {
      EraseIndexForm(k - 1);
      NextBlock(k - 1);
    }
  }

  lemma EraseIndexRange(k: nat)
    ensures EraseIndex(k) <= 0xFFFF_0000
    ensures k % 65536 == 65535 ==> EraseIndex(k) == 0xFFFF_0000
  {
    EraseIndexForm(k);
  }

  /** The erase loop runs for ever exactly when the size is above 0xFFFF0000. */
  lemma EraseNeverEnds(size: u32)
    ensures (forall k: nat :: EraseIndex(k) < size) <==> size > 0xFFFF_0000
  {
    forall k: nat
      ensures EraseIndex(k) <= 0xFFFF_0000 && (k % 65536 == 65535 ==> EraseIndex(k) == 0xFFFF_0000)
    {
      EraseIndexRange(k);
    }
    LastBlock();
    var last: nat :| last % 65536 == 65535;
    assert EraseIndex(last) == 0xFFFF_0000;
  }

  /** A block with which it does: 0xFFFFFF payloads of 256 bytes. */
  lemma EndlessErase(fam: Family, n: u32, count: u32, size: u32, data: seq<byte>, behind: seq<byte>)
    requires size == 256 && count == 0xFF_FFFF && |data| == 476
    ensures var it := ItemOf(MakeSector(0, size, n, count, fam, data), behind);
            it.Data? && it.fam == fam && forall k: nat :: EraseIndex(k) < FileSize(it.b)
  {
    MadeItem(0, size, n, count, fam, data, behind);
    EndlessHeader(Block(0, size, n, count, FileId(fam), data + END_BYTES + behind));
  }

  lemma EndlessHeader(b: Block)
    requires b.payloadSize == 256 && b.numBlocks == 0xFF_FFFF
    ensures forall k: nat :: EraseIndex(k) < FileSize(b)
  {
    assert FileSize(b) == 0xFFFF_FF00;
    EraseNeverEnds(FileSize(b));
  }

  lemma LastBlock()
    ensures exists k: nat :: k % 65536 == 65535
  {
    assert 65535 % 65536 == 65535;
  }

  /** One round of the 256-byte CRC loop on its index. */
  function NextCrcIndex(len: u32, i: u32): u32 {
    if i >= len then i else Wrap(i + if Wrap(i + 256) > len then len - i else 256)
  }

  lemma NextCrcIndexForm(len: u32, i: u32)
    ensures len <= 0xFFFF_FF00 && i <= len ==> NextCrcIndex(len, i) == Min(i + 256, len)
    ensures len > 0xFFFF_FF00 && i < 0xFFFF_FF00 && i % 256 == 0 ==> NextCrcIndex(len, i) == i + 256
    ensures len > 0xFFFF_FF00 && i == 0xFFFF_FF00 ==> NextCrcIndex(len, i) == 0
  {}

  /** The index after k rounds. */
  function CrcIndex(len: u32, k: nat): u32 {
    if k == 0 then 256 else NextCrcIndex(len, CrcIndex(len, k - 1))
  }

  lemma {:induction false} CrcIndexEnds(len: u32, k: nat)
    requires 256 <= len <= 0xFFFF_FF00
    ensures CrcIndex(len, k) == Min(256 + 256 * k, len)
  {
    if k > 0 {
      CrcIndexEnds(len, k - 1);
      NextCrcIndexForm(len, CrcIndex(len, k - 1));
    }
  }

  lemma {:induction false} CrcIndexGoesRound(len: u32, k: nat)
    requires len > 0xFFFF_FF00
    ensures CrcIndex(len, k) % 256 == 0 && CrcIndex(len, k) <= 0xFFFF_FF00
  {
    if k > 0 {
      CrcIndexGoesRound(len, k - 1);
      NextCrcIndexForm(len, CrcIndex(len, k - 1));
      NextMultiple(CrcIndex(len, k - 1), 0x1_0000_0000);
    }
  }

  /** The CRC loop runs for ever exactly when the length is above 0xFFFFFF00. */
  lemma CrcNeverEnds(len: u32)
    ensures (forall k: nat :: CrcIndex(len, k) < len) <==> len > 0xFFFF_FF00
  {
    if len > 0xFFFF_FF00 {
      forall k: nat
        ensures CrcIndex(len, k) < len
      {
        CrcIndexGoesRound(len, k);
      }
    } else if len >= 256 {
      CrcIndexEnds(len, len);
    } else {
      assert CrcIndex(len, 0) == 256;
    }
  }

  /** A window with which it does: a header that gives a length of 0xFFFFFF00 bytes behind itself. */
  function LongWindow(): seq<byte> {
    WithHeader([0x01], [0xFF, 0xFF, 0xFF, 0x00], 1, seq(242, k => 0x00))
  }

  lemma EndlessCrc()
    ensures |LongWindow()| == 256 && ScanInBounds(LongWindow()) && BitstreamLength(LongWindow()) == 0xFFFF_FF05
    ensures forall k: nat :: CrcIndex(BitstreamLength(LongWindow()), k) < BitstreamLength(LongWindow())
  {
    LongWindowLength();
    CrcNeverEnds(BitstreamLength(LongWindow()));
  }

  lemma LongWindowLength()
    ensures |LongWindow()| == 256 && ScanInBounds(LongWindow()) && BitstreamLength(LongWindow()) == 0xFFFF_FF05
  {
    LongWindowFree();
    LongHeader([0x01], [0xFF, 0xFF, 0xFF, 0x00], seq(242, k => 0x00));
  }

  lemma LongHeader(p: seq<byte>, len: seq<byte>, rest: seq<byte>)
    requires |p| == 1 && len == [0xFF, 0xFF, 0xFF, 0x00] && |rest| == 242 && SyncFree(WithHeader(p, len, 1, rest), 6)
    ensures var w := WithHeader(p, len, 1, rest);
            |w| == 256 && ScanInBounds(w) && BitstreamLength(w) == 0xFFFF_FF05
  {
    HeaderRead(p, len, 1, rest);
    FoundInBounds(WithHeader(p, len, 1, rest));
    LongLength();
  }

  lemma LongLength()
    ensures Be32([0xFF, 0xFF, 0xFF, 0x00], 0) == 0xFFFF_FF00
  {}

  lemma LongWindowFree()
    ensures SyncFree(LongWindow(), 6)
  {
    var w := LongWindow();
    assert w[..6] == [0x01, 0xFF, 0xFF, 0xFF, 0x00, 0xFF];
    assert forall i | 0 <= i < 6 :: w[i] == w[..6][i];
    forall t | 0 <= t < 6
      ensures !SyncAt(w, t)
    {
      if SyncAt(w, t) {
        SyncBegins(w, t);
        assert false;
      }
    }
  }

  lemma AlignedAbove(offset: u32, j: nat)
    requires offset % 65536 == 0 && j % 65536 == 0 && j <= 0x1_0000_0000
    ensures Above(offset, j) % 65536 == 0
  {}

  /** What `fpga_flash_calc_crc32` computes. */
  ghost function FlashCrc(m: Memory, addr: u32): bv32 {
    var len := BitstreamLength(Window(m, addr));
    if len == 0 then 0 else Crc(0, Read(m, addr, if len < 256 then 256 else len))
  }

  /** Reading, sending and checking one more chunk. */
  lemma ChunkSent(m: Memory, offset: u32, done: nat, n: nat, sent: seq<byte>, chunk: seq<byte>, crc: bv32)
    requires done + n < 0x1_0000_0000
    requires sent == Read(m, offset, done) && chunk == Read(m, Above(offset, done), n) && crc == Crc(0, sent)
    ensures sent + chunk == Read(m, offset, done + n)
    ensures Crc(crc, chunk) == Crc(0, sent + chunk)
    ensures Above(Above(offset, done), n) == Above(offset, done + n)
  {
    ReadConcat(m, offset, done, n);
    CrcConcat(0, sent, chunk);
  }

  lemma SentTwice(f: Fpga, a: seq<byte>, b: seq<byte>)
    ensures f.Sent(a).Sent(b) == f.Sent(a + b)
  {
    assert (f.config + a) + b == f.config + (a + b);
  }

  lemma EmptyCrc(seed: bv32)
    ensures Crc(seed, []) == seed
  {
    InvertTwice(seed);
  }
}
