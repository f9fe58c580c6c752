/** What one block does to the device, one boot to the FPGA, and one header to a session, in numbers and bytes. */
module UploadSteps {
  import opened Bytes
  import opened FlashMemory
  import opened FlashDriver
  import opened Uf2
  import opened Bitstream
  import opened UploadSpec
  import opened UploadRuns

  // ---------------------------------------------------------------- slots

  /** The top nibble of the target address names the slot, whatever the rest; anything but 0, 1, 2 is the first. */
  lemma SlotOfTarget(nibble: nat, low: nat)
    requires nibble < 16 && low < 0x1000_0000
    ensures SlotOffset(nibble * 0x1000_0000 + low) == if nibble == 1 then 10 * 1024 * 1024
                                                      else if nibble == 2 then 20 * 1024 * 1024
                                                      else 0
  {
    var t := nibble * 0x1000_0000 + low;
    assert t / 0x1000_0000 == nibble;
  }

  /** The switch: the first pin that is low selects its slot, none the first. */
  lemma SwitchPositions(b: bool, c: bool)
    ensures SelectedOffset([false, b, c]) == 0
    ensures SelectedOffset([true, false, c]) == 10 * 1024 * 1024
    ensures SelectedOffset([true, true, false]) == 20 * 1024 * 1024
    ensures SelectedOffset([true, true, true]) == 0
  {}

  /** The size in a header is a 32-bit product. */
  lemma HeaderSize(b: Block)
    ensures 0 <= FileSize(b) < 4294967296
    ensures exists k: int :: b.payloadSize * b.numBlocks == FileSize(b) + 4294967296 * k
  {
    var p := b.payloadSize * b.numBlocks;
    assert p == FileSize(b) + 4294967296 * (p / 4294967296);
  }

  // ---------------------------------------------------------------- the boot

  /** A boot from a window with a header: if its total is above 0, the FPGA is erased and given that many bytes. */
  lemma BootWithHeader(fpga: Fpga, m: Memory, pins: seq<bool>, o: nat, s: nat)
    requires Header(Read(m, SelectedOffset(pins), 256), o, s)
    ensures var at := SelectedOffset(pins);
            var total := TotalAt(Read(m, at, 256), o);
            Boot(fpga, m, pins) == if total == 0 then fpga else Fpga(Read(m, at, total), fpga.past + [fpga.config])
  {
    LengthRead(Read(m, SelectedOffset(pins), 256), o, s);
    BootForm(fpga, m, pins);
  }

  /** A boot from a window without a header leaves the FPGA as it was. */
  lemma BootWithoutHeader(fpga: Fpga, m: Memory, pins: seq<bool>)
    requires forall o: nat, s: nat :: !Header(Read(m, SelectedOffset(pins), 256), o, s)
    ensures Boot(fpga, m, pins) == fpga
  {
    NoHeaderNoLength(Read(m, SelectedOffset(pins), 256));
    BootForm(fpga, m, pins);
  }

  lemma BootForm(fpga: Fpga, m: Memory, pins: seq<bool>)
    ensures var at := SelectedOffset(pins);
            var len := BitstreamLength(Read(m, at, 256));
            Boot(fpga, m, pins) == if len == 0 then fpga else Fpga(Read(m, at, len), fpga.past + [fpga.config])
  {
    var at := SelectedOffset(pins);
    NothingSentBefore(fpga, Read(m, at, BitstreamLength(Read(m, at, 256))));
  }

  lemma NothingSentBefore(fpga: Fpga, data: seq<byte>)
    ensures fpga.Erased().Sent(data) == Fpga(data, fpga.past + [fpga.config])
  {
    assert [] + data == data;
  }

  // ---------------------------------------------------------------- one block

  /** Where the session is, or will be when this block opens it, and how large its blocks are. */
  function BaseOf(s: Session, b: Block): u32 {
    if s.inProgress then s.offset else SlotOffset(b.targetAddr)
  }

  function SizeOf(s: Session, b: Block): u32 {
    if s.inProgress then s.blockSize else b.payloadSize
  }

  function AddressOf(s: Session, b: Block): u32 {
    (BaseOf(s, b) + b.blockNo * SizeOf(s, b)) % 0x1_0000_0000
  }

  lemma AddressIsTarget(s: Session, fam: Family, b: Block)
    ensures TargetOf(Opened(s, fam, b), b) == AddressOf(s, b)
  {}

  /**
   The record after a block: set up by the first, counted down by one in 32 bits by every one, at an end when
   nothing is left. The other chip and its record stay.
   */
  lemma RecordAfter(d: Dev, fam: Family, b: Block)
    ensures var s, s' := d.Of(fam).session, Step(d, fam, b).Of(fam).session;
            var left := if s.inProgress then s.blocksLeft else b.numBlocks;
            && s'.blocksLeft == (if left == 0 then 4294967295 else left - 1)
            && s'.inProgress == (left != 1)
            && s'.offset == BaseOf(s, b) && s'.blockSize == SizeOf(s, b)
            && s'.isBitstream == fam.Bitstreams? && s'.crc == (if s.inProgress then s.crc else 0)
    ensures Step(d, fam, b).Of(Other(fam)) == d.Of(Other(fam)) && Step(d, fam, b).pins == d.pins
  {
    StepIsLocal(d, fam, b);
    AcceptSession(d.Of(fam), fam, b);
    RecordForm(d.Of(fam).session, fam, b);
  }

  lemma RecordForm(s: Session, fam: Family, b: Block)
    ensures var s' := Counted(Opened(s, fam, b));
            var left := if s.inProgress then s.blocksLeft else b.numBlocks;
            && s'.blocksLeft == (if left == 0 then 4294967295 else left - 1)
            && s'.inProgress == (left != 1)
            && s'.offset == BaseOf(s, b) && s'.blockSize == SizeOf(s, b)
            && s'.isBitstream == fam.Bitstreams? && s'.crc == (if s.inProgress then s.crc else 0)
  {}

  /** A byte as the block's write finds it: blank, if the block opens a session whose erase blocks it is in. */
  ghost function ByteBefore(f: Flash, b: Block, i: u32): byte {
    var base := SlotOffset(b.targetAddr);
    if !f.session.inProgress && FileSize(b) > 0 && Dist(base, i) / 65536 <= (FileSize(b) - 1) / 65536 then 0xFF
    else f.mem[i]
  }

  lemma PreparedByte(f: Flash, b: Block, i: u32)
    ensures Prepared(f, b)[i] == ByteBefore(f, b, i)
  {
    RoundUpBlocks(FileSize(b), Dist(SlotOffset(b.targetAddr), i));
  }

  /**
   The flash after a block that fits in a page, its own payload size being what it may: the payload is
   ANDed in at base plus number times the session's block size, and every other byte is as the write found it.
   */
  lemma FlashAfter(d: Dev, fam: Family, b: Block, i: u32)
    requires var at := AddressOf(d.Of(fam).session, b);
             0 < b.payloadSize <= |b.src| && at % 256 + b.payloadSize <= 256 && at < 0xFFFF_FF00
    ensures var at, was := AddressOf(d.Of(fam).session, b), ByteBefore(d.Of(fam), b, i);
            Step(d, fam, b).Of(fam).mem[i] == if Dist(at, i) < b.payloadSize then was & b.src[Dist(at, i)] else was
  {
    var f := d.Of(fam);
    StepIsLocal(d, fam, b);
    AddressIsTarget(f.session, fam, b);
    PreparedByte(f, b, i);
    WriteInPage(AddressOf(f.session, b), b.payloadSize);
    AcceptMemory(f, fam, b, AddressOf(f.session, b));
  }

  lemma AcceptMemory(f: Flash, fam: Family, b: Block, at: u32)
    requires at == TargetOf(Opened(f.session, fam, b), b) && b.payloadSize <= |b.src|
    requires Rounds(at, 0, b.payloadSize) == PagedWrite(b.payloadSize, true)
    ensures Accept(f, fam, b).mem == Program(Prepared(f, b), at, b.src[..b.payloadSize])
  {}

  /** The FPGA after a block: blanked by one that opens a session, then booted by one that ends it. */
  lemma FpgaAfter(d: Dev, fam: Family, b: Block)
    ensures var s := d.Of(fam).session;
            var fpga := if s.inProgress then d.fpga else Fpga([], d.fpga.past + [d.fpga.config]);
            var d' := Step(d, fam, b);
            d'.fpga == if (if s.inProgress then s.blocksLeft else b.numBlocks) == 1
                       then Boot(fpga, d'.bitstream.mem, d.pins) else fpga
  {
    var d1 := OpenStep(d, fam, b);
    var d2 := WriteStep(d1, fam, b);
    OpenedFpga(d, fam, b);
    WrittenFpga(d1, fam, b);
    CountedFpga(d2, fam);
  }

  lemma OpenedFpga(d: Dev, fam: Family, b: Block)
    ensures var s, d1 := d.Of(fam).session, OpenStep(d, fam, b);
            && d1.fpga == (if s.inProgress then d.fpga else Fpga([], d.fpga.past + [d.fpga.config]))
            && d1.pins == d.pins
            && d1.Of(fam).session.blocksLeft == if s.inProgress then s.blocksLeft else b.numBlocks
  {}

  lemma WrittenFpga(d: Dev, fam: Family, b: Block)
    ensures var d' := WriteStep(d, fam, b);
            d'.fpga == d.fpga && d'.pins == d.pins && d'.Of(fam).session == d.Of(fam).session
  {}

  lemma CountedFpga(d: Dev, fam: Family)
    ensures var d' := CountStep(d, fam);
            d'.fpga == if d.Of(fam).session.blocksLeft == 1 then Boot(d.fpga, d'.bitstream.mem, d.pins) else d.fpga
  {}

  /**
   What is logged for a block: its address if the write ends inside the top page, and its address if the
   flash reads back differently anywhere in the payload.
   */
  lemma ReportsAfter(d: Dev, fam: Family, b: Block)
    requires b.payloadSize <= |b.src| && b.payloadSize <= 0xFFFF_FF00
    ensures var at := AddressOf(d.Of(fam).session, b);
            var d' := Step(d, fam, b);
            d'.reports == d.reports
                        + (if Refused(at, b.payloadSize) then [ProgramError(at)] else [])
                        + (if exists k: nat :: k < b.payloadSize && d'.Of(fam).mem[Above(at, k)] != b.src[k]
                           then [VerifyError(at)] else [])
  {
    var f, at := d.Of(fam), AddressOf(d.Of(fam).session, b);
    var m := Step(d, fam, b).Of(fam).mem;
    StepIsLocal(d, fam, b);
    AddressIsTarget(f.session, fam, b);
    PagedWriteResult(at, b.payloadSize);
    ReadsBack(m, at, b);
    StepReportsForm(d, fam, b, at, m);
  }

  lemma ReadsBack(m: Memory, at: u32, b: Block)
    requires b.payloadSize <= |b.src|
    ensures Read(m, at, b.payloadSize) == b.src[..b.payloadSize]
       <==> !exists k: nat :: k < b.payloadSize && m[Above(at, k)] != b.src[k]
  {
    var read := Read(m, at, b.payloadSize);
    if forall k: nat | k < b.payloadSize :: m[Above(at, k)] == b.src[k] {
      assert read == b.src[..b.payloadSize];
    } else {
      var k: nat :| k < b.payloadSize && m[Above(at, k)] != b.src[k];
      assert read[k] != b.src[..b.payloadSize][k];
    }
  }

  lemma StepReportsForm(d: Dev, fam: Family, b: Block, at: u32, m: Memory)
    requires at == TargetOf(Opened(d.Of(fam).session, fam, b), b) && m == Accept(d.Of(fam), fam, b).mem
    ensures Step(d, fam, b).reports == d.reports + ReportsOf(m, at, b)
  {}
}
