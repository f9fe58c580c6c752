/** Which images and flash contents let every boot of an upload find its way: exactly, and with failing inputs. */
module BootSafety {
  import opened Bytes
  import opened FlashMemory
  import opened Uf2
  import opened Uf2Sectors
  import opened Bitstream
  import opened UploadSpec
  import opened UploadOrder
  import opened UploadRuns
  import opened UploadImage
  import opened TwoUploads

  // ---------------------------------------------------------------- the sectors of an image

  function SectorData(u: Image, n: nat): (data: seq<byte>)
    requires u.Valid() && n < u.count
    ensures |data| == 476
  {
    u.Payload(n) + seq(476 - u.size, k => 0x00)
  }

  /** Payload n of the image as the host sends it. */
  function SectorOf(u: Image, fam: Family, n: nat): Sector
    requires u.Valid() && n < u.count
  {
    MakeSector(TargetForSlot(u.offset), u.size, n, u.count, fam, SectorData(u, n))
  }

  function BlockOf(u: Image, fam: Family, n: nat, behind: seq<byte>): Block
    requires u.Valid() && n < u.count
  {
    Block(TargetForSlot(u.offset), u.size, n, u.count, FileId(fam), SectorData(u, n) + END_BYTES + behind)
  }

  /** The handler makes a block of the image of it, whatever lies behind it in the buffer. */
  lemma SectorIsBlock(u: Image, fam: Family, n: nat, behind: seq<byte>)
    requires u.Valid() && n < u.count && |behind| <= 4096
    ensures ItemOf(SectorOf(u, fam, n), behind) == Data(fam, BlockOf(u, fam, n, behind))
    ensures u.Carried(BlockOf(u, fam, n, behind))
  {
    MadeItem(TargetForSlot(u.offset), u.size, n, u.count, fam, SectorData(u, n), behind);
    BlockIsCarried(u, fam, n, behind);
  }

  lemma BlockIsCarried(u: Image, fam: Family, n: nat, behind: seq<byte>)
    requires u.Valid() && n < u.count && |behind| <= 4096
    ensures u.Carried(BlockOf(u, fam, n, behind))
  {
    assert BlockOf(u, fam, n, behind).src[..u.size] == u.Payload(n);
  }

  /** One such sector in a buffer of its own. */
  lemma SectorAlone(u: Image, fam: Family, n: nat)
    requires u.Valid() && n < u.count
    ensures Items([SectorOf(u, fam, n)]) == [Data(fam, BlockOf(u, fam, n, []))]
    ensures Heard(fam, Items([SectorOf(u, fam, n)])) == [BlockOf(u, fam, n, [])]
    ensures Heard(Other(fam), Items([SectorOf(u, fam, n)])) == []
  {
    OneSector(SectorOf(u, fam, n));
    SectorIsBlock(u, fam, n, []);
    assert [Data(fam, BlockOf(u, fam, n, []))][1..] == [];
  }

  /** k payloads of the bitstream image from lo on. */
  function SectorsFrom(u: Image, lo: nat, k: nat): (ss: seq<Sector>)
    requires u.Valid() && lo + k <= u.count
    ensures |ss| == k && forall i | 0 <= i < k :: ss[i] == SectorOf(u, Bitstreams, lo + i)
    decreases k
  {
    if k == 0 then [] else [SectorOf(u, Bitstreams, lo)] + SectorsFrom(u, lo + 1, k - 1)
  }

  /** Each in a buffer of its own. */
  function BuffersFrom(u: Image, lo: nat, k: nat): (bufs: seq<seq<Sector>>)
    requires u.Valid() && lo + k <= u.count
    ensures Deliverable(bufs)
  {
    Alone(SectorsFrom(u, lo, k))
  }

  function BlocksFrom(u: Image, lo: nat, k: nat): (bs: seq<Block>)
    requires u.Valid() && lo + k <= u.count
    ensures |bs| == k && forall i | 0 <= i < k :: bs[i] == BlockOf(u, Bitstreams, lo + i, [])
    decreases k
  {
    if k == 0 then [] else [BlockOf(u, Bitstreams, lo, [])] + BlocksFrom(u, lo + 1, k - 1)
  }

  lemma BuffersHeard(u: Image, lo: nat, k: nat)
    requires u.Valid() && lo + k <= u.count
    ensures HeardCalls(Bitstreams, CallsOf(BuffersFrom(u, lo, k))) == BlocksFrom(u, lo, k)
    ensures HeardCalls(Firmware, CallsOf(BuffersFrom(u, lo, k))) == []
  {
    var calls, bs := CallsOf(BuffersFrom(u, lo, k)), BlocksFrom(u, lo, k);
    CallsOfAlone(SectorsFrom(u, lo, k));
    forall i | 0 <= i < k
      ensures calls[i] == [Data(Bitstreams, bs[i])]
    {
      SectorFromAlone(u, lo, k, i);
    }
    SinglesHeard(Bitstreams, calls, bs);
    assert Other(Bitstreams) == Firmware;
  }

  lemma SectorFromAlone(u: Image, lo: nat, k: nat, i: nat)
    requires u.Valid() && lo + k <= u.count && i < k
    ensures Items([SectorsFrom(u, lo, k)[i]]) == [Data(Bitstreams, BlocksFrom(u, lo, k)[i])]
  {
    var s, b := SectorsFrom(u, lo, k)[i], BlocksFrom(u, lo, k)[i];
    assert s == SectorOf(u, Bitstreams, lo + i) && b == BlockOf(u, Bitstreams, lo + i, []);
    SectorAloneIs(u, Bitstreams, lo + i, s, b);
  }

  lemma SectorAloneIs(u: Image, fam: Family, n: nat, s: Sector, b: Block)
    requires u.Valid() && n < u.count && s == SectorOf(u, fam, n) && b == BlockOf(u, fam, n, [])
    ensures Items([s]) == [Data(fam, b)]
  {
    SectorAlone(u, fam, n);
  }

  lemma BlocksCarried(u: Image, lo: nat, k: nat, b: Block)
    requires u.Valid() && lo + k <= u.count && b in BlocksFrom(u, lo, k)
    ensures u.Carried(b) && lo <= b.blockNo < lo + k
  {
    var i :| 0 <= i < k && BlocksFrom(u, lo, k)[i] == b;
    BlockIsCarried(u, Bitstreams, lo + i, []);
  }

  lemma BlocksNumbers(u: Image, lo: nat, k: nat, n: nat)
    requires u.Valid() && lo + k <= u.count
    ensures n in Numbers(BlocksFrom(u, lo, k)) <==> lo <= n < lo + k
  {
    var bs := BlocksFrom(u, lo, k);
    if lo <= n < lo + k { assert bs[n - lo].blockNo == n; }
    if n in Numbers(bs) {
      var i :| 0 <= i < |bs| && bs[i].blockNo == n;
    }
  }

  lemma OneBufferFrom(u: Image, lo: nat)
    requires u.Valid() && lo < u.count
    ensures BuffersFrom(u, lo, 1) == [[SectorOf(u, Bitstreams, lo)]]
  {
    OneAlone(SectorOf(u, Bitstreams, lo));
    assert SectorsFrom(u, lo, 1) == [SectorOf(u, Bitstreams, lo)];
  }

  /** The smallest firmware: one byte. */
  function TinyImage(): (v: Image)
    ensures v.Valid() && v.count == 1
  {
    Image(0, 1, 1, [0x00])
  }

  /** A buffer that is a whole firmware upload. */
  function FirmwareBuffer(): seq<Sector> {
    [SectorOf(TinyImage(), Firmware, 0)]
  }

  function Start(u: Image, f: Flash): Progress {
    Progress(f.mem, {}, u.count)
  }

  // ---------------------------------------------------------------- a run that ends in a misled boot

  /** The tiny firmware's one block ends its session and boots the FPGA. */
  lemma FirmwareBoots(d: Dev)
    requires !d.firmware.session.inProgress
    ensures Admissible(d, Items(FirmwareBuffer())) <==> BootDefined(d)
  {
    var v, c := TinyImage(), BlockOf(TinyImage(), Firmware, 0, []);
    SectorAlone(v, Firmware, 0);
    BlockIsCarried(v, Firmware, 0, []);
    CleanBlock(v, d, Firmware, Start(v, d.firmware), c);
    assert !Step(d, Firmware, c).firmware.session.inProgress;
    assert [Data(Firmware, c)][1..] == [];
  }

  /** Every interleaving of an upload of u with any firmware upload, in any buffers, can be handled. */
  ghost predicate AllInterleavings(u: Image, d: Dev)
    requires u.Valid()
  {
    forall v: Image, bufs: seq<seq<Sector>> ::
      && v.Valid() && Deliverable(bufs)
      && BothExpectedCalls(u, v, Start(u, d.bitstream), Start(v, d.firmware), CallsOf(bufs))
      ==> AdmissibleCalls(d, CallsOf(bufs))
  }

  /** What is heard of buffers with a firmware upload behind them. */
  lemma HeardWithFirmware(bufs: seq<seq<Sector>>)
    requires HeardCalls(Firmware, CallsOf(bufs)) == []
    ensures var calls := CallsOf(bufs + [FirmwareBuffer()]);
            && calls == CallsOf(bufs) + [Items(FirmwareBuffer())]
            && HeardCalls(Bitstreams, calls) == HeardCalls(Bitstreams, CallsOf(bufs))
            && HeardCalls(Firmware, calls) == [BlockOf(TinyImage(), Firmware, 0, [])]
  {
    SectorAlone(TinyImage(), Firmware, 0);
    assert Other(Firmware) == Bitstreams;
    HeardWith(Bitstreams, bufs, FirmwareBuffer());
    HeardWith(Firmware, bufs, FirmwareBuffer());
  }

  /** A firmware upload behind them can be handled only if they leave a window to boot from. */
  lemma FirmwareAfter(d: Dev, bufs: seq<seq<Sector>>)
    requires !d.firmware.session.inProgress && HeardCalls(Firmware, CallsOf(bufs)) == []
    requires AdmissibleCalls(d, CallsOf(bufs + [FirmwareBuffer()]))
    ensures BootDefined(RunCalls(d, CallsOf(bufs)))
  {
    var last := [Items(FirmwareBuffer())];
    HeardWithFirmware(bufs);
    CallsConcat(d, CallsOf(bufs), last);
    RunsAreLocal(d, CallsOf(bufs), Firmware);
    assert last[1..] == [];
    FirmwareBoots(RunCalls(d, CallsOf(bufs)));
  }

  lemma ExpectedWithFirmware(u: Image, d: Dev, bufs: seq<seq<Sector>>)
    requires u.Valid() && HeardCalls(Firmware, CallsOf(bufs)) == []
    requires Expected(u, Start(u, d.bitstream), HeardCalls(Bitstreams, CallsOf(bufs)))
    ensures BothExpectedCalls(u, TinyImage(), Start(u, d.bitstream), Start(TinyImage(), d.firmware),
                              CallsOf(bufs + [FirmwareBuffer()]))
  {
    HeardWithFirmware(bufs);
    BlockIsCarried(TinyImage(), Firmware, 0, []);
  }

  /** After k payloads from lo on the flash holds just these. */
  lemma AfterBuffers(u: Image, d: Dev, lo: nat, k: nat)
    requires u.Valid() && !d.bitstream.session.inProgress && 0 < k && lo + k <= u.count
    ensures var calls := CallsOf(BuffersFrom(u, lo, k));
            && HeardCalls(Firmware, calls) == []
            && Expected(u, Start(u, d.bitstream), HeardCalls(Bitstreams, calls))
            && RunCalls(d, calls).bitstream.mem == Partial(u, d.bitstream.mem, Between(lo, lo + k - 1))
            && RunCalls(d, calls).pins == d.pins
  {
    var bs := BlocksFrom(u, lo, k);
    BuffersHeard(u, lo, k);
    forall b | b in bs
      ensures u.Carried(b)
    {
      BlocksCarried(u, lo, k, b);
    }
    RunsAreLocal(d, CallsOf(BuffersFrom(u, lo, k)), Bitstreams);
    MidSession(u, d.bitstream, Bitstreams, bs);
    forall n: nat
      ensures n in Numbers(bs) <==> n in Between(lo, lo + k - 1)
    {
      BlocksNumbers(u, lo, k, n);
    }
    assert Numbers(bs) == Between(lo, lo + k - 1);
  }

  /** Payloads lo to hi of the bitstream, then a firmware upload: the handler cannot take it if they mislead a boot. */
  lemma MisledRun(u: Image, d: Dev, lo: nat, hi: nat)
    requires u.Valid() && !d.bitstream.session.inProgress && !d.firmware.session.inProgress
    requires lo <= hi < u.count && u.offset == SelectedOffset(d.pins)
    requires !ScanInBounds(Window(Partial(u, d.bitstream.mem, Between(lo, hi)), u.offset))
    ensures var bufs := BuffersFrom(u, lo, hi - lo + 1) + [FirmwareBuffer()];
            && Deliverable(bufs) && !AdmissibleCalls(d, CallsOf(bufs))
            && BothExpectedCalls(u, TinyImage(), Start(u, d.bitstream), Start(TinyImage(), d.firmware), CallsOf(bufs))
  {
    var bufs := BuffersFrom(u, lo, hi - lo + 1);
    AfterBuffers(u, d, lo, hi - lo + 1);
    ExpectedWithFirmware(u, d, bufs);
    if AdmissibleCalls(d, CallsOf(bufs + [FirmwareBuffer()])) {
      FirmwareAfter(d, bufs);
      assert false;
    }
  }

  /** The payloads with the sync words alone, and then a boot. */
  lemma SyncUpload(u: Image, d: Dev, s: nat)
    requires u.Valid() && !d.bitstream.session.inProgress && !d.firmware.session.inProgress
    requires u.offset == SelectedOffset(d.pins) && SyncBehindFiller(u, s)
    ensures !AllInterleavings(u, d)
  {
    InsideCount(s + 7, u.size, u.count);
    QuotientMonotone(s, s + 7, u.size);
    SyncMisleads(u, d.bitstream.mem, s);
    MisledUpload(u, d, s / u.size, (s + 7) / u.size);
  }

  lemma MisledUpload(u: Image, d: Dev, lo: nat, hi: nat)
    requires u.Valid() && !d.bitstream.session.inProgress && !d.firmware.session.inProgress
    requires lo <= hi < u.count && u.offset == SelectedOffset(d.pins)
    requires !ScanInBounds(Window(Partial(u, d.bitstream.mem, Between(lo, hi)), u.offset))
    ensures !AllInterleavings(u, d)
  {
    MisledRun(u, d, lo, hi);
  }

  /** A firmware upload at once boots from what the selected slot held before. */
  lemma FirmwareFirst(u: Image, d: Dev)
    requires u.Valid() && !d.bitstream.session.inProgress && !d.firmware.session.inProgress && AllInterleavings(u, d)
    ensures BootDefined(d)
  {
    FirmwareOnly(u, d, []);
  }

  lemma NothingSent(d: Dev, none: seq<seq<Sector>>)
    requires none == []
    ensures RunCalls(d, CallsOf(none)) == d
    ensures HeardCalls(Bitstreams, CallsOf(none)) == [] && HeardCalls(Firmware, CallsOf(none)) == []
  {}

  lemma FirmwareOnly(u: Image, d: Dev, none: seq<seq<Sector>>)
    requires u.Valid() && !d.firmware.session.inProgress && AllInterleavings(u, d) && none == []
    ensures BootDefined(d)
  {
    NothingSent(d, none);
    FirmwareExpected(u, d, none);
    FirmwareAfter(d, none);
  }

  lemma FirmwareExpected(u: Image, d: Dev, bufs: seq<seq<Sector>>)
    requires u.Valid() && AllInterleavings(u, d) && Deliverable(bufs) && HeardCalls(Firmware, CallsOf(bufs)) == []
    requires Expected(u, Start(u, d.bitstream), HeardCalls(Bitstreams, CallsOf(bufs)))
    ensures AdmissibleCalls(d, CallsOf(bufs + [FirmwareBuffer()]))
  {
    ExpectedWithFirmware(u, d, bufs);
  }

  /**
   Exactly the images and flash contents with which every interleaving can be handled: what the selected
   slot holds before must not mislead a boot, and in that slot no half-written image may.
   */
  lemma InterleavingsExactly(u: Image, d: Dev)
    requires u.Valid() && !d.bitstream.session.inProgress && !d.firmware.session.inProgress
    ensures AllInterleavings(u, d) <==> BootsSafe(u, d.bitstream.mem, d.pins)
  {
    if BootsSafe(u, d.bitstream.mem, d.pins) {
      forall v: Image, bufs: seq<seq<Sector>> |
        && v.Valid() && Deliverable(bufs)
        && BothExpectedCalls(u, v, Start(u, d.bitstream), Start(v, d.firmware), CallsOf(bufs))
        ensures AdmissibleCalls(d, CallsOf(bufs))
      {
        CleanRuns(u, v, d, CallsOf(bufs), Start(u, d.bitstream), Start(v, d.firmware));
      }
    }
    if AllInterleavings(u, d) {
      FirmwareFirst(u, d);
      if s: nat :| u.offset == SelectedOffset(d.pins) && SyncBehindFiller(u, s) {
        SyncUpload(u, d, s);
      }
    }
  }

  // ---------------------------------------------------------------- one upload at a time

  /** What the boot at the end of an upload reads. */
  ghost function FinalWindow(u: Image, fam: Family, d: Dev): seq<byte>
    requires u.Valid()
  {
    if fam.Bitstreams? && u.offset == SelectedOffset(d.pins) then ImageWindow(u)
    else Window(d.bitstream.mem, SelectedOffset(d.pins))
  }

  /** The first 256 bytes of the image's slot once the image is there. */
  function ImageWindow(u: Image): (w: seq<byte>)
    requires u.Valid()
    ensures |w| == 256
  {
    seq(256, k requires 0 <= k < 256 => if k < |u.data| then u.data[k] else 0xFF)
  }

  lemma WindowOfComplete(u: Image, before: Memory)
    requires u.Valid()
    ensures Window(Complete(u, before), u.offset) == ImageWindow(u)
  {
    var w := Window(Complete(u, before), u.offset);
    forall k: nat | k < 256
      ensures w[k] == ImageWindow(u)[k]
    {
      WindowByte(u, before, UpTo(u.count), k);
      if k < |u.data| { ByteInUpTo(k, u.size, u.count); }
    }
  }

  lemma FinalBoot(u: Image, fam: Family, d: Dev, calls: seq<seq<Item>>)
    requires u.Valid() && !d.Of(fam).session.inProgress && AllOf(u, HeardCalls(fam, calls))
    requires HeardCalls(Other(fam), calls) == []
    ensures Window(RunCalls(d, calls).bitstream.mem, SelectedOffset(d.pins)) == FinalWindow(u, fam, d)
    ensures RunCalls(d, calls).pins == d.pins
  {
    RunsAreLocal(d, calls, Bitstreams);
    if fam.Bitstreams? {
      CompleteUpload(u, d.bitstream, Bitstreams, HeardCalls(fam, calls));
      if u.offset == SelectedOffset(d.pins) {
        WindowOfComplete(u, d.bitstream.mem);
      } else {
        WindowOfOtherSlot(u, d.bitstream.mem, UpTo(u.count), SelectedSlot(d.pins));
      }
    }
  }

  /** One upload, of either kind and to any slot, can be handled exactly when the boot that ends it can. */
  lemma SingleUploadExactly(u: Image, fam: Family, d: Dev, calls: seq<seq<Item>>)
    requires u.Valid() && !d.Of(fam).session.inProgress && AllOf(u, HeardCalls(fam, calls))
    requires HeardCalls(Other(fam), calls) == []
    ensures AdmissibleCalls(d, calls) <==> ScanInBounds(FinalWindow(u, fam, d))
  {
    var bs := HeardCalls(fam, calls);
    assert bs[0] in bs;
    forall b | b in bs
      ensures FitsBuffer(u.offset, u.size, b)
    {
      BlockAcceptable(u, d.Of(fam).session, fam, b);
      AcceptableFits(d.Of(fam).session, fam, b, u.offset, u.count, u.size);
    }
    AdmissibleUpload(d.Of(fam), fam, u.offset, u.count, u.size, bs);
    OneChipRuns(d, fam, calls, u.count);
    FinalBoot(u, fam, d, calls);
  }

  // ---------------------------------------------------------------- a session that closes without its image

  /** Two payloads of one byte, both 0. */
  function TwoBytes(): (u: Image)
    ensures u.Valid()
  {
    Image(0, 2, 1, [0x00, 0x00])
  }

  /** The first payload sent twice in one buffer: the session closes, and the second payload is not in flash. */
  lemma RepeatLosesImage(d: Dev)
    requires !d.bitstream.session.inProgress && !d.firmware.session.inProgress
    requires ScanInBounds(Window(d.bitstream.mem, SelectedOffset(d.pins)))
    ensures var s := SectorOf(TwoBytes(), Bitstreams, 0);
            var d' := RunCall(d, Items([s, s]));
            && Admissible(d, Items([s, s])) && !d'.bitstream.session.inProgress
            && Read(d'.bitstream.mem, 0, 2) != TwoBytes().data
  {
    var u, s := TwoBytes(), SectorOf(TwoBytes(), Bitstreams, 0);
    var a, b := BlockOf(u, Bitstreams, 0, s), BlockOf(u, Bitstreams, 0, []);
    TwoSectors(s, s);
    SectorIsBlock(u, Bitstreams, 0, s);
    SectorIsBlock(u, Bitstreams, 0, []);
    RepeatRun(d, a, b, Items([s, s]));
  }

  lemma RepeatRun(d: Dev, a: Block, b: Block, items: seq<Item>)
    requires !d.bitstream.session.inProgress && !d.firmware.session.inProgress
    requires ScanInBounds(Window(d.bitstream.mem, SelectedOffset(d.pins)))
    requires items == [Data(Bitstreams, a), Data(Bitstreams, b)]
    requires TwoBytes().Carried(a) && TwoBytes().Carried(b) && a.blockNo == b.blockNo == 0
    ensures Admissible(d, items) && !RunCall(d, items).bitstream.session.inProgress
    ensures Read(RunCall(d, items).bitstream.mem, 0, 2) != TwoBytes().data
  {
    var u := TwoBytes();
    TwoHeard(a, b);
    CleanRun(u, TinyImage(), d, items, Start(u, d.bitstream), Start(TinyImage(), d.firmware));
    RunIsLocal(d, items, Bitstreams);
    CompleteExactlyWhen(u, d.bitstream, Bitstreams, [a, b]);
    SecondMissing([a, b]);
  }

  lemma TwoHeard(a: Block, b: Block)
    ensures Heard(Bitstreams, [Data(Bitstreams, a), Data(Bitstreams, b)]) == [a, b]
    ensures Heard(Firmware, [Data(Bitstreams, a), Data(Bitstreams, b)]) == []
  {
    assert [Data(Bitstreams, a), Data(Bitstreams, b)] == [Data(Bitstreams, a)] + ([Data(Bitstreams, b)] + []);
    forall fam
      ensures Heard(fam, [Data(Bitstreams, a), Data(Bitstreams, b)]) == if fam.Bitstreams? then [a, b] else []
    {
      HeardFirst(fam, Data(Bitstreams, a), [Data(Bitstreams, b)] + []);
      HeardFirst(fam, Data(Bitstreams, b), []);
    }
  }

  lemma SecondMissing(bs: seq<Block>)
    requires forall i | 0 <= i < |bs| :: bs[i].blockNo == 0
    ensures !RestBlank(TwoBytes(), Numbers(bs))
  {
    assert 1 / TwoBytes().size !in Numbers(bs);
    assert TwoBytes().data[1] != 0xFF;
  }

  // ---------------------------------------------------------------- a good image that misleads on the way

  /** A header of 124 bytes and its length field in the first payload, then filler, sync words in the second payload. */
  function LateSync(): (u: Image)
    ensures u.Valid()
  {
    Image(0, 2, 128, WithHeader(seq(124, k => 0x01), [0x00, 0x00, 0x00, 0x40], 72, seq(48, k => 0x00)))
  }

  lemma LateSyncFree()
    ensures SyncFree(LateSync().data, 200)
  {
    var w := LateSync().data;
    forall t | 0 <= t < 200 && SyncAt(w, t)
      ensures forall f | 0 <= f <= t :: w[f] != 0xFF
    {
      SyncByte(w, t, t);
      assert t < 128;
    }
  }

  /**
   Whole, the image boots. In two buffers, the second payload and then a whole firmware upload, it misleads
   the boot that ends the firmware upload: two uploads as they may be, and the handler cannot take them.
   */
  lemma LateSyncMisleads(d: Dev)
    requires !d.bitstream.session.inProgress && !d.firmware.session.inProgress && SelectedOffset(d.pins) == 0
    ensures ScanInBounds(ImageWindow(LateSync())) && BitstreamLength(ImageWindow(LateSync())) == 192
    ensures var u, v := LateSync(), TinyImage();
            var bufs := [[SectorOf(u, Bitstreams, 1)], [SectorOf(v, Firmware, 0)]];
            && Deliverable(bufs) && !AdmissibleCalls(d, CallsOf(bufs))
            && BothExpectedCalls(u, v, Start(u, d.bitstream), Start(v, d.firmware), CallsOf(bufs))
  {
    LateSyncBoots();
    LateSyncBehindFiller();
    SyncMisleads(LateSync(), d.bitstream.mem, 200);
    assert SyncPayloads(128, 200) == Between(1, 1);
    OneMisleads(LateSync(), d, 1);
  }

  lemma OneMisleads(u: Image, d: Dev, n: nat)
    requires u.Valid() && !d.bitstream.session.inProgress && !d.firmware.session.inProgress
    requires n < u.count && u.offset == SelectedOffset(d.pins)
    requires !ScanInBounds(Window(Partial(u, d.bitstream.mem, Between(n, n)), u.offset))
    ensures var v := TinyImage();
            var bufs := [[SectorOf(u, Bitstreams, n)], [SectorOf(v, Firmware, 0)]];
            && Deliverable(bufs) && !AdmissibleCalls(d, CallsOf(bufs))
            && BothExpectedCalls(u, v, Start(u, d.bitstream), Start(v, d.firmware), CallsOf(bufs))
  {
    MisledRun(u, d, n, n);
    OneBufferFrom(u, n);
    assert [[SectorOf(u, Bitstreams, n)]] + [FirmwareBuffer()] == [[SectorOf(u, Bitstreams, n)], FirmwareBuffer()];
  }

  lemma LateSyncBehindFiller()
    ensures SyncBehindFiller(LateSync(), 200)
  {
    WithHeaderLayout(seq(124, k => 0x01), [0x00, 0x00, 0x00, 0x40], 72, seq(48, k => 0x00));
  }

  lemma LateSyncBoots()
    ensures ScanInBounds(ImageWindow(LateSync())) && BitstreamLength(ImageWindow(LateSync())) == 192
  {
    LateSyncFree();
    assert ImageWindow(LateSync()) == LateSync().data;
    HeaderRead(seq(124, k => 0x01), [0x00, 0x00, 0x00, 0x40], 72, seq(48, k => 0x00));
    assert Be32([0x00, 0x00, 0x00, 0x40], 0) == 64;
  }
}
