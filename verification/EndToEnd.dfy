/** From the host's buffers to the FPGA's configuration input. */
module EndToEnd {
  import opened Bytes
  import opened FlashMemory
  import opened Uf2
  import opened Bitstream
  import opened UploadSpec
  import opened UploadRuns
  import opened UploadImage
  import opened TwoUploads
  import opened BootSafety
  import opened Castagnoli
  import opened Upload

  // ---------------------------------------------------------------- the flash

  /**
   Order independence on whole runs that the handler can take: two streams that start alike and carry all
   blocks of the same image, in different orders, cut differently into calls and mixed with different other
   sectors, leave the same chip.
   */
  lemma OrderDoesNotMatter(u: Image, d: Dev, e: Dev, a: seq<seq<Item>>, b: seq<seq<Item>>, fam: Family)
    requires u.Valid() && d.Of(fam) == e.Of(fam) && !d.Of(fam).session.inProgress
    requires AdmissibleCalls(d, a) && AdmissibleCalls(e, b)
    requires AllOf(u, HeardCalls(fam, a)) && AllOf(u, HeardCalls(fam, b))
    ensures RunCalls(d, a).Of(fam) == RunCalls(e, b).Of(fam) == Flash(Complete(u, d.Of(fam).mem), Record(u, fam, 0))
  {
    NonInterferenceCalls(d, a, fam);
    NonInterferenceCalls(e, b, fam);
    CompleteUpload(u, d.Of(fam), fam, HeardCalls(fam, a));
    CompleteUpload(u, e.Of(fam), fam, HeardCalls(fam, b));
  }

  // ---------------------------------------------------------------- the FPGA

  /** The image's header gives a length that the image has. */
  predicate Bootable(u: Image)
    requires u.Valid()
  {
    0 < BitstreamLength(ImageWindow(u)) <= |u.data|
  }

  function Configuration(u: Image): seq<byte>
    requires u.Valid() && Bootable(u)
  {
    u.data[..BitstreamLength(ImageWindow(u))]
  }

  /** The chip whose block was heard last. */
  function LastHeard(items: seq<Item>, before: Family): Family
    decreases items
  {
    if items == [] || items[0].Unknown? then before
    else LastHeard(items[1..], if items[0].Data? then items[0].fam else before)
  }

  function LastHeardCalls(calls: seq<seq<Item>>, before: Family): Family
    decreases calls
  {
    if calls == [] then before else LastHeardCalls(calls[1..], LastHeard(calls[0], before))
  }

  /** The FPGA runs the image, unless a firmware upload that has begun since and not ended has blanked it. */
  predicate Runs(u: Image, d: Dev, last: Family)
    requires u.Valid() && Bootable(u)
  {
    d.fpga.config == Configuration(u) || (last.Firmware? && d.fpga.config == [] && d.firmware.session.inProgress)
  }

  /** The bitstream's own blocks are all there. */
  predicate Arrived(u: Image, p: Progress) {
    p.left == 0 && p.got == UpTo(u.count)
  }

  lemma BootFromComplete(u: Image, d: Dev, fam: Family, b: Block, before: Memory)
    requires u.Valid() && Bootable(u) && u.offset == SelectedOffset(d.pins)
    requires !Step(d, fam, b).Of(fam).session.inProgress && Step(d, fam, b).bitstream.mem == Complete(u, before)
    ensures Step(d, fam, b).fpga.config == Configuration(u)
  {
    ClosingBlockLoads(d, fam, b);
    WindowOfComplete(u, before);
    CompleteRead(u, before);
    ReadPrefix(Complete(u, before), u.offset, BitstreamLength(ImageWindow(u)), |u.data|);
  }

  lemma BitstreamBlock(u: Image, d: Dev, p: Progress, b: Block)
    requires u.Valid() && Bootable(u) && u.offset == SelectedOffset(d.pins)
    requires Uploading(u, Bitstreams, d.bitstream, p) && p.left > 0 && u.Carried(b)
    ensures Uploading(u, Bitstreams, Step(d, Bitstreams, b).bitstream, p.Plus(b.blockNo))
    ensures Arrived(u, p.Plus(b.blockNo)) ==> Runs(u, Step(d, Bitstreams, b), Bitstreams)
  {
    CleanBlock(u, d, Bitstreams, p, b);
    if Arrived(u, p.Plus(b.blockNo)) { BootFromComplete(u, d, Bitstreams, b, p.before); }
  }

  lemma FirmwareBlock(u: Image, d: Dev, p: Progress, b: Block, last: Family)
    requires u.Valid() && Bootable(u) && u.offset == SelectedOffset(d.pins)
    requires Uploading(u, Bitstreams, d.bitstream, p) && (Arrived(u, p) ==> Runs(u, d, last))
    ensures Uploading(u, Bitstreams, Step(d, Firmware, b).bitstream, p)
    ensures Arrived(u, p) ==> Runs(u, Step(d, Firmware, b), Firmware)
  {
    StepIsLocal(d, Firmware, b);
    assert Step(d, Firmware, b).Of(Bitstreams) == d.Of(Bitstreams);
    if Arrived(u, p) {
      if Step(d, Firmware, b).firmware.session.inProgress {
        OtherBlocksDoNotLoad(d, Firmware, b);
      } else {
        BootFromComplete(u, d, Firmware, b, p.before);
      }
    }
  }

  lemma {:induction false} FpgaRun(u: Image, d: Dev, items: seq<Item>, p: Progress, last: Family)
    requires u.Valid() && Bootable(u) && u.offset == SelectedOffset(d.pins)
    requires Uploading(u, Bitstreams, d.bitstream, p) && Expected(u, p, Heard(Bitstreams, items))
    requires Arrived(u, p) ==> Runs(u, d, last)
    ensures var d', p' := RunCall(d, items), p.PlusAll(Heard(Bitstreams, items));
            && Uploading(u, Bitstreams, d'.bitstream, p') && d'.pins == d.pins
            && (Arrived(u, p') ==> Runs(u, d', LastHeard(items, last)))
    decreases items
  {
    NothingPlus(p);
    if items != [] && !items[0].Unknown? {
      var it, rest := items[0], items[1..];
      if it.Skipped? {
        FpgaRun(u, d, rest, p, last);
      } else if it.fam.Bitstreams? {
        BitstreamBlock(u, d, p, it.b);
        StepIsLocal(d, Bitstreams, it.b);
        PlusFirst(p, Heard(Bitstreams, items));
        FpgaRun(u, Step(d, Bitstreams, it.b), rest, p.Plus(it.b.blockNo), Bitstreams);
      } else {
        FirmwareBlock(u, d, p, it.b, last);
        StepIsLocal(d, Firmware, it.b);
        FpgaRun(u, Step(d, Firmware, it.b), rest, p, Firmware);
      }
    }
  }

  lemma {:induction false} FpgaRuns(u: Image, d: Dev, calls: seq<seq<Item>>, p: Progress, last: Family)
    requires u.Valid() && Bootable(u) && u.offset == SelectedOffset(d.pins)
    requires Uploading(u, Bitstreams, d.bitstream, p) && Expected(u, p, HeardCalls(Bitstreams, calls))
    requires Arrived(u, p) ==> Runs(u, d, last)
    ensures var d', p' := RunCalls(d, calls), p.PlusAll(HeardCalls(Bitstreams, calls));
            && Uploading(u, Bitstreams, d'.bitstream, p')
            && (Arrived(u, p') ==> Runs(u, d', LastHeardCalls(calls, last)))
    decreases calls
  {
    NothingPlus(p);
    if calls != [] {
      var first, rest := Heard(Bitstreams, calls[0]), HeardCalls(Bitstreams, calls[1..]);
      ExpectedParts(u, p, first, rest);
      PlusConcat(p, first, rest);
      FpgaRun(u, d, calls[0], p, last);
      FpgaRuns(u, RunCall(d, calls[0]), calls[1..], p.PlusAll(first), LastHeard(calls[0], last));
    }
  }

  /**
   End to end, over any number of buffers that the handler can take: the bitstream blocks heard make up
   image u, in whatever order and mixed with whatever else, firmware uploads and unknown file ids included;
   the switch selects its slot. Then the flash holds the image and the FPGA has been given exactly the bytes
   its header asks for; only if the last block heard belongs to a firmware upload still under way may it be
   blank instead.
   */
  lemma UploadedImageReachesFpga(u: Image, d: Dev, calls: seq<seq<Item>>)
    requires u.Valid() && Bootable(u) && u.offset == SelectedOffset(d.pins)
    requires !d.bitstream.session.inProgress && AllOf(u, HeardCalls(Bitstreams, calls)) && AdmissibleCalls(d, calls)
    ensures var d' := RunCalls(d, calls);
            && d'.bitstream == Flash(Complete(u, d.bitstream.mem), Record(u, Bitstreams, 0))
            && Runs(u, d', LastHeardCalls(calls, Bitstreams))
  {
    var p, heard := Start(u, d.bitstream), HeardCalls(Bitstreams, calls);
    AllArrived(u, heard);
    FpgaRuns(u, d, calls, p, Bitstreams);
    assert p.PlusAll(heard).got == UpTo(u.count);
  }

  // ---------------------------------------------------------------- the device itself

  /** The callback's calls, one for each buffer the host sends. */
  method ProgramBuffers(dev: Device, bufs: seq<seq<Sector>>)
    requires dev.Valid() && Deliverable(bufs) && AdmissibleCalls(dev.Value(), CallsOf(bufs))
    modifies dev.Repr()
    ensures dev.Valid() && dev.bus.Faults() == old(dev.bus.Faults())
    ensures dev.Value() == RunCalls(old(dev.Value()), CallsOf(bufs))
  {
    var i := 0;
    while i < |bufs|
      invariant 0 <= i <= |bufs| && dev.Valid() && dev.bus.Faults() == old(dev.bus.Faults())
      invariant AdmissibleCalls(dev.Value(), CallsOf(bufs[i..]))
      invariant RunCalls(dev.Value(), CallsOf(bufs[i..])) == RunCalls(old(dev.Value()), CallsOf(bufs))
    {
      var rest := bufs[i..];
      CallsOfFirst(rest);
      assert rest[1..] == bufs[i + 1..];
      var rtn := dev.FlashProgramUf2(bufs[i]);
      i := i + 1;
    }
  }

  lemma CallsOfFirst(bufs: seq<seq<Sector>>)
    requires bufs != []
    ensures CallsOf(bufs)[0] == Items(bufs[0]) && CallsOf(bufs)[1..] == CallsOf(bufs[1..])
  {}

  /** What the host may send: all of bitstream u, with blocks of firmware v between, if any, where no boot is misled. */
  ghost predicate Sendable(u: Image, v: Image, d: Dev, calls: seq<seq<Item>>)
    requires u.Valid() && v.Valid()
  {
    && !d.bitstream.session.inProgress && !d.firmware.session.inProgress
    && AllOf(u, HeardCalls(Bitstreams, calls)) && Expected(v, Start(v, d.firmware), HeardCalls(Firmware, calls))
    && (HeardCalls(Firmware, calls) == [] || BootsSafe(u, d.bitstream.mem, d.pins))
  }

  lemma SendableAdmissible(u: Image, v: Image, d: Dev, calls: seq<seq<Item>>)
    requires u.Valid() && v.Valid() && Bootable(u) && u.offset == SelectedOffset(d.pins) && Sendable(u, v, d, calls)
    ensures AdmissibleCalls(d, calls)
  {
    if HeardCalls(Firmware, calls) == [] {
      SingleUploadExactly(u, Bitstreams, d, calls);
    } else {
      CleanRuns(u, v, d, calls, Start(u, d.bitstream), Start(v, d.firmware));
    }
  }

  /** End to end on the device: buffers in, image in flash, FPGA configured, no flash command lost or misused. */
  method UploadAndBoot(dev: Device, bufs: seq<seq<Sector>>, ghost u: Image, ghost v: Image)
    requires dev.Valid() && u.Valid() && v.Valid() && Bootable(u) && u.offset == SelectedOffset(dev.pins)
    requires Deliverable(bufs) && Sendable(u, v, dev.Value(), CallsOf(bufs))
    modifies dev.Repr()
    ensures dev.Valid() && dev.bus.Faults() == old(dev.bus.Faults())
    ensures Read(dev.bus.bitstream.Contents(), u.offset, |u.data|) == u.data
    ensures dev.reports == old(dev.reports) + IdReportsCalls(CallsOf(bufs))
    ensures || dev.fpga.config == u.data[..BitstreamLength(ImageWindow(u))]
            || (LastHeardCalls(CallsOf(bufs), Bitstreams).Firmware? && dev.fpga.config == []
                && dev.firmwareState.inProgress)
  {
    ghost var d, calls := dev.Value(), CallsOf(bufs);
    SendableAdmissible(u, v, d, calls);
    CleanRuns(u, v, d, calls, Start(u, d.bitstream), Start(v, d.firmware));
    UploadedImageReachesFpga(u, d, calls);
    CompleteRead(u, d.bitstream.mem);
    ProgramBuffers(dev, bufs);
  }

  // ---------------------------------------------------------------- the two CRCs of a loaded image

  /**
   The CRC logged while loading and the one computed from flash. They agree from 256 bytes on and when
   nothing is found; below, the second is the first continued over the rest of the 256 bytes.
   */
  lemma ChunkedCrcsAgree(m: Memory, offset: u32)
    ensures var len := BitstreamLength(Window(m, offset));
            var loaded := Crc(0, Read(m, offset, len));
            FlashCrc(m, offset) == if 0 < len < 256 then Crc(loaded, Read(m, Above(offset, len), 256 - len)) else loaded
  {
    var len := BitstreamLength(Window(m, offset));
    EmptyCrc(0);
    if len < 256 {
      ReadConcat(m, offset, len, 256 - len);
      CrcConcat(0, Read(m, offset, len), Read(m, Above(offset, len), 256 - len));
    }
  }
}
