/**
 What the upload state machine of usb_msc/msc_disk.c does, as functions on values: two flash
 chips, a session record for each, and the FPGA. The class `Upload.Device` is proved against these.
 */
module UploadSpec {
  import opened Bytes
  import opened FlashMemory
  import opened FlashDriver
  import opened Uf2
  import opened Bitstream

  datatype Family = Bitstreams | Firmware

  datatype Session =
    Session(inProgress: bool, blocksLeft: u32, crc: u32, offset: u32, isBitstream: bool, blockSize: u32)

  datatype Flash = Flash(mem: Memory, session: Session)

  /** The bytes clocked into the FPGA since it was last erased, and the loads before that. */
  datatype Fpga = Fpga(config: seq<byte>, past: seq<seq<byte>>) {
    function Erased(): Fpga { Fpga([], past + [config]) }
    function Sent(data: seq<byte>): Fpga { Fpga(config + data, past) }
  }

  /** What the error log macros report while blocks are programmed. */
  datatype Report = ProgramError(addr: u32) | VerifyError(addr: u32) | UnknownFile(id: u32)

  /** pins: level of the three slot-select pins. */
  datatype Dev = Dev(bitstream: Flash, firmware: Flash, fpga: Fpga, pins: seq<bool>, reports: seq<Report>) {
    function Of(fam: Family): Flash {
      if fam.Bitstreams? then bitstream else firmware
    }

    function With(fam: Family, f: Flash): Dev {
      if fam.Bitstreams? then this.(bitstream := f) else this.(firmware := f)
    }
  }

  /** What the handler makes of a sector: nothing, a block with an unknown file id, or a block for one of the chips. */
  datatype Item = Skipped | Unknown(id: u32) | Data(fam: Family, b: Block)

  function ItemOf(s: Sector, behind: seq<byte>): (r: Item)
    ensures r.Data? ==> |r.b.src| == 480 + |behind|
  {
    match KindOf(s)
    case Some(fam) => Data(fam, Parse(s, behind))
    case None => if IsUf2(s) then Unknown(Fields(s).family) else Skipped
  }

  datatype Kind = None | Some(fam: Family)

  /** The chip that a block with a known file id is for. */
  function KindOf(s: Sector): Kind {
    if !IsUf2(s) then None
    else if Fields(s).family == BITSTREAM_ID then Some(Bitstreams)
    else if Fields(s).family == FIRMWARE_ID then Some(Firmware)
    else None
  }

  /** The sectors of a buffer, each with the rest of the buffer behind it. */
  function Items(ss: seq<Sector>): (r: seq<Item>)
    ensures |r| == |ss|
    decreases ss
  {
    if ss == [] then [] else [ItemOf(ss[0], Flat(ss[1..]))] + Items(ss[1..])
  }

  // ---------------------------------------------------------------- one block, one chip

  /** Size rounded up to whole 64 KiB erase blocks. */
  function RoundUp(n: nat): nat {
    n + 65535 - (n + 65535) % 65536
  }

  lemma RoundUpMeaning(n: nat)
    ensures RoundUp(n) % 65536 == 0 && n <= RoundUp(n) < n + 65536
  {}

  /** So it covers the erase blocks that the size reaches into, and no other. */
  lemma RoundUpBlocks(n: nat, d: nat)
    ensures d < RoundUp(n) <==> n > 0 && d / 65536 <= (n - 1) / 65536
  {
    RoundUpMeaning(n);
  }

  /** The session as the write of block b sees it: the first block of a session sets it up. */
  function Opened(s: Session, fam: Family, b: Block): Session {
    if s.inProgress then s.(isBitstream := fam.Bitstreams?)
    else Session(true, b.numBlocks, 0, SlotOffset(b.targetAddr), fam.Bitstreams?, b.payloadSize)
  }

  ghost function Prepared(f: Flash, b: Block): Memory {
    if f.session.inProgress then f.mem
    else Erase(f.mem, SlotOffset(b.targetAddr), RoundUp(FileSize(b)))
  }

  function TargetOf(s: Session, b: Block): u32 {
    Wrap(s.offset + b.blockNo * s.blockSize)
  }

  /** The block can be handled: neither write nor comparison reads past the buffer, and the erase loop ends. */
  predicate Acceptable(s: Session, fam: Family, b: Block) {
    && b.payloadSize <= |b.src| < 0x1_0000_0000
    && Rounds(TargetOf(Opened(s, fam, b), b), 0, b.payloadSize).written <= |b.src|
    && (!s.inProgress ==> FileSize(b) <= 0xFFFF_0000)
  }

  /** Past the end of the buffer there is no source to model: `Acceptable` excludes such a write. */
  ghost function Written(m: Memory, addr: u32, b: Block): Memory {
    var n := Rounds(addr, 0, b.payloadSize).written;
    Program(m, addr, if n <= |b.src| then b.src[..n] else b.src)
  }

  function Counted(s: Session): Session {
    var left := Wrap(s.blocksLeft - 1);
    s.(blocksLeft := left, inProgress := left != 0)
  }

  ghost function Accept(f: Flash, fam: Family, b: Block): Flash {
    var s := Opened(f.session, fam, b);
    Flash(Written(Prepared(f, b), TargetOf(s, b), b), Counted(s))
  }

  // ---------------------------------------------------------------- boot

  function SelectedSlot(pins: seq<bool>): nat {
    if |pins| > 0 && !pins[0] then 0
    else if |pins| > 1 && !pins[1] then 1
    else if |pins| > 2 && !pins[2] then 2
    else 0
  }

  function SelectedOffset(pins: seq<bool>): u32 {
    SLOTS[SelectedSlot(pins)]
  }

  ghost function Window(m: Memory, offset: u32): seq<byte> {
    Read(m, offset, 256)
  }

  /** Loading the FPGA from the selected slot; nothing happens if no bitstream is found there. */
  ghost function Boot(fpga: Fpga, m: Memory, pins: seq<bool>): Fpga {
    var offset := SelectedOffset(pins);
    var len := BitstreamLength(Window(m, offset));
    if len > 0 then fpga.Erased().Sent(Read(m, offset, len)) else fpga
  }

  // ---------------------------------------------------------------- one block, the whole device

  ghost function ReportsOf(m: Memory, addr: u32, b: Block): seq<Report> {
    (if Rounds(addr, 0, b.payloadSize).ok then [] else [ProgramError(addr)]) +
    (if b.payloadSize <= |b.src| && Read(m, addr, b.payloadSize) == b.src[..b.payloadSize] then []
     else [VerifyError(addr)])
  }

  /** The first block of a session blanks the FPGA, sets the session up and erases the flash. */
  ghost function OpenStep(d: Dev, fam: Family, b: Block): Dev {
    var f := d.Of(fam);
    d.With(fam, Flash(Prepared(f, b), Opened(f.session, fam, b)))
     .(fpga := if f.session.inProgress then d.fpga else d.fpga.Erased())
  }

  ghost function WriteStep(d: Dev, fam: Family, b: Block): Dev {
    var f := d.Of(fam);
    var addr := TargetOf(f.session, b);
    var m := Written(f.mem, addr, b);
    d.With(fam, f.(mem := m)).(reports := d.reports + ReportsOf(m, addr, b))
  }

  /** The last block of a session ends it and loads the FPGA again. */
  ghost function CountStep(d: Dev, fam: Family): Dev {
    var f := d.Of(fam);
    var s := Counted(f.session);
    var d' := d.With(fam, f.(session := s));
    if s.inProgress then d' else d'.(fpga := Boot(d.fpga, d.bitstream.mem, d.pins))
  }

  ghost function Step(d: Dev, fam: Family, b: Block): Dev {
    CountStep(WriteStep(OpenStep(d, fam, b), fam, b), fam)
  }

  /** A boot that follows finds its way in the header it reads. */
  ghost predicate BootDefined(d: Dev) {
    ScanInBounds(Window(d.bitstream.mem, SelectedOffset(d.pins)))
  }

  ghost predicate StepDefined(d: Dev, fam: Family, b: Block) {
    && Acceptable(d.Of(fam).session, fam, b)
    && (!Step(d, fam, b).Of(fam).session.inProgress ==> BootDefined(Step(d, fam, b)))
  }

  predicate HasUnknown(items: seq<Item>)
    decreases items
  {
    items != [] && (items[0].Unknown? || HasUnknown(items[1..]))
  }

  ghost function ItemStep(d: Dev, it: Item): Dev {
    match it
    case Skipped => d
    case Unknown(id) => d.(reports := d.reports + [UnknownFile(id)])
    case Data(fam, b) => Step(d, fam, b)
  }

  ghost predicate ItemDefined(d: Dev, it: Item) {
    it.Data? ==> StepDefined(d, it.fam, it.b)
  }

  /** One call of the write handler: sectors in order; an unknown file id ends the call. */
  ghost function RunCall(d: Dev, items: seq<Item>): Dev
    decreases items
  {
    if items == [] then d
    else if items[0].Unknown? then ItemStep(d, items[0])
    else RunCall(ItemStep(d, items[0]), items[1..])
  }

  /** Every block of the call can be handled. */
  ghost predicate Admissible(d: Dev, items: seq<Item>)
    decreases items
  {
    items == [] || items[0].Unknown? || (ItemDefined(d, items[0]) && Admissible(ItemStep(d, items[0]), items[1..]))
  }

  ghost function RunCalls(d: Dev, calls: seq<seq<Item>>): Dev
    decreases calls
  {
    if calls == [] then d else RunCalls(RunCall(d, calls[0]), calls[1..])
  }

  ghost predicate AdmissibleCalls(d: Dev, calls: seq<seq<Item>>)
    decreases calls
  {
    calls == [] || (Admissible(d, calls[0]) && AdmissibleCalls(RunCall(d, calls[0]), calls[1..]))
  }

  /** Every block a chip is given can be handled when its turn comes. */
  ghost predicate AdmissibleChip(f: Flash, fam: Family, bs: seq<Block>)
    decreases bs
  {
    bs == [] || (Acceptable(f.session, fam, bs[0]) && AdmissibleChip(Accept(f, fam, bs[0]), fam, bs[1..]))
  }

  ghost function RunChip(f: Flash, fam: Family, bs: seq<Block>): Flash
    decreases bs
  {
    if bs == [] then f else RunChip(Accept(f, fam, bs[0]), fam, bs[1..])
  }
}
