/** For which uploads the order of the sectors and what lies between them do not matter, exactly. */
module UploadOrderExact {
  import opened Bytes
  import opened FlashMemory
  import opened FlashDriver
  import opened Uf2
  import opened Uf2Sectors
  import opened UploadSpec
  import opened UploadRuns
  import opened UploadSizes
  import opened UploadOrder

  // ---------------------------------------------------------------- blocks as buffers carry them

  /** The header of a block of an upload. */
  predicate HeaderOf(b: Block, offset: u32, count: nat, size: nat) {
    SlotOffset(b.targetAddr) == offset && b.numBlocks == count && b.payloadSize == size && b.blockNo < count
  }

  lemma {:induction false} ItemSources(ss: seq<Sector>, it: Item)
    requires it in Items(ss) && it.Data?
    ensures 480 <= |it.b.src| <= 480 + 512 * (|ss| - 1)
    decreases ss
  {
    if it != ItemOf(ss[0], Flat(ss[1..])) { ItemSources(ss[1..], it); }
  }

  lemma {:induction false} HeardIsItem(fam: Family, items: seq<Item>, b: Block)
    requires b in Heard(fam, items)
    ensures Data(fam, b) in items
    decreases items
  {
    if !(items[0].Data? && items[0].fam == fam && items[0].b == b) { HeardIsItem(fam, items[1..], b); }
  }

  /** Blocks heard have at most what a buffer holds behind their headers. */
  lemma {:induction false} HeardSources(fam: Family, bufs: seq<seq<Sector>>, b: Block)
    requires Deliverable(bufs) && b in HeardCalls(fam, CallsOf(bufs))
    ensures 480 <= |b.src| <= BUFFER_SOURCE
    decreases bufs
  {
    if b in Heard(fam, Items(bufs[0])) {
      HeardIsItem(fam, Items(bufs[0]), b);
      ItemSources(bufs[0], Data(fam, b));
    } else {
      assert CallsOf(bufs)[1..] == CallsOf(bufs[1..]);
      HeardSources(fam, bufs[1..], b);
    }
  }

  // ---------------------------------------------------------------- runs of one upload

  /** A run that the host can bring about: of this chip it carries blocks of one upload, no more than it has. */
  ghost predicate Carries(d: Dev, fam: Family, offset: u32, count: nat, size: nat, bufs: seq<seq<Sector>>) {
    && !d.Of(fam).session.inProgress && Deliverable(bufs) && AdmissibleCalls(d, CallsOf(bufs))
    && |HeardCalls(fam, CallsOf(bufs))| <= count
    && forall b | b in HeardCalls(fam, CallsOf(bufs)) :: HeaderOf(b, offset, count, size)
  }

  /** The same sectors, in some order and some repeated, as many in all. */
  ghost predicate SameSectors(bs: seq<Block>, cs: seq<Block>) {
    |bs| == |cs| && SameBlocks(AllBare(bs), AllBare(cs))
  }

  lemma CarriedArranged(d: Dev, fam: Family, offset: u32, count: nat, size: nat, bufs: seq<seq<Sector>>)
    requires FitsSlot(offset, count, size) && Carries(d, fam, offset, count, size, bufs)
    ensures var bs := HeardCalls(fam, CallsOf(bufs));
            && Arrangement(d.Of(fam), fam, offset, count, size, bs)
            && forall b | b in bs :: InBuffer(offset, size, b.blockNo)
  {
    var bs := HeardCalls(fam, CallsOf(bufs));
    NonInterferenceCalls(d, CallsOf(bufs), fam);
    forall b | b in bs
      ensures OfUpload(b, offset, count, size) && |b.src| <= BUFFER_SOURCE
    {
      HeardSources(fam, bufs, b);
    }
    AdmissibleUpload(d.Of(fam), fam, offset, count, size, bs);
    forall b | b in bs
      ensures Acceptable(d.Of(fam).session, fam, b) && InBuffer(offset, size, b.blockNo)
    {
      FittingBlock(d.Of(fam).session, fam, b, offset, count, size);
    }
  }

  lemma FittingBlock(s: Session, fam: Family, b: Block, offset: u32, count: nat, size: nat)
    requires FitsSlot(offset, count, size) && OfUpload(b, offset, count, size) && !s.inProgress
    requires FitsBuffer(offset, size, b) && |b.src| <= BUFFER_SOURCE
    ensures Acceptable(s, fam, b) && InBuffer(offset, size, b.blockNo)
  {
    AcceptableFits(s, fam, b, offset, count, size);
  }

  lemma CarriedInSector(d: Dev, fam: Family, offset: u32, count: nat, size: nat, bufs: seq<seq<Sector>>)
    requires FitsSlot(offset, count, size) && (SectorSize(size, count) || NeverFits(size, count))
    requires Carries(d, fam, offset, count, size, bufs)
    ensures var bs := HeardCalls(fam, CallsOf(bufs));
            && Arrangement(d.Of(fam), fam, offset, count, size, bs)
            && forall b | b in bs :: InSector(offset, size, b.blockNo)
  {
    CarriedArranged(d, fam, offset, count, size, bufs);
    BufferSizesExactly(offset, size, count);
  }

  /** Order independence on whole runs: sectors of one upload, cut into buffers and mixed with others in two ways. */
  lemma RunsOrderNeverMatters(d: Dev, e: Dev, a: seq<seq<Sector>>, b: seq<seq<Sector>>, fam: Family,
                              offset: u32, count: nat, size: nat)
    requires FitsSlot(offset, count, size) && (SectorSize(size, count) || NeverFits(size, count))
    requires d.Of(fam) == e.Of(fam)
    requires Carries(d, fam, offset, count, size, a) && Carries(e, fam, offset, count, size, b)
    requires SameSectors(HeardCalls(fam, CallsOf(a)), HeardCalls(fam, CallsOf(b)))
    ensures RunCalls(d, CallsOf(a)).Of(fam) == RunCalls(e, CallsOf(b)).Of(fam)
  {
    NonInterferenceCalls(d, CallsOf(a), fam);
    NonInterferenceCalls(e, CallsOf(b), fam);
    CarriedInSector(d, fam, offset, count, size, a);
    CarriedInSector(e, fam, offset, count, size, b);
    OrderNeverMatters(d.Of(fam), fam, offset, count, size, HeardCalls(fam, CallsOf(a)), HeardCalls(fam, CallsOf(b)));
  }

  /** Any two such runs from the same chip leave the same chip. */
  ghost predicate ArrangementNeverMatters(fam: Family, offset: u32, count: nat, size: nat) {
    forall d: Dev, e: Dev, a: seq<seq<Sector>>, b: seq<seq<Sector>> ::
      && d.Of(fam) == e.Of(fam)
      && Carries(d, fam, offset, count, size, a) && Carries(e, fam, offset, count, size, b)
      && SameSectors(HeardCalls(fam, CallsOf(a)), HeardCalls(fam, CallsOf(b)))
      ==> RunCalls(d, CallsOf(a)).Of(fam) == RunCalls(e, CallsOf(b)).Of(fam)
  }

  /**
   Order independence, exactly: what an upload leaves depends on its sectors alone if and only if all its
   writes that a buffer can carry stay in their sectors, which is a matter of payload size and number.
   */
  lemma OrderIndependentExactly(fam: Family, offset: u32, count: nat, size: nat)
    requires FitsSlot(offset, count, size)
    ensures ArrangementNeverMatters(fam, offset, count, size) <==> SectorSize(size, count) || NeverFits(size, count)
  {
    BufferSizesExactly(offset, size, count);
    if SectorSize(size, count) || NeverFits(size, count) {
      forall d: Dev, e: Dev, a: seq<seq<Sector>>, b: seq<seq<Sector>> |
        && d.Of(fam) == e.Of(fam)
        && Carries(d, fam, offset, count, size, a) && Carries(e, fam, offset, count, size, b)
        && SameSectors(HeardCalls(fam, CallsOf(a)), HeardCalls(fam, CallsOf(b)))
        ensures RunCalls(d, CallsOf(a)).Of(fam) == RunCalls(e, CallsOf(b)).Of(fam)
      {
        RunsOrderNeverMatters(d, e, a, b, fam, offset, count, size);
      }
    } else {
      var n: nat :| n < count && InBuffer(offset, size, n) && !InSector(offset, size, n);
      DifferentBehind(fam, offset, count, size, n);
    }
  }

  // ---------------------------------------------------------------- two buffers that differ behind a block

  function Fills(x: byte, k: nat): (ss: seq<Sector>)
    ensures |ss| == k
  {
    seq(k, i => FillSector(x))
  }

  lemma {:induction false} FillsAreSkipped(d: Dev, fam: Family, x: byte, k: nat)
    requires x == 0x00 || x == 0xFF
    ensures RunCall(d, Items(Fills(x, k))) == d && Admissible(d, Items(Fills(x, k)))
    ensures Heard(fam, Items(Fills(x, k))) == []
    decreases k
  {
    if k > 0 {
      assert Fills(x, k)[1..] == Fills(x, k - 1);
      FillSkipped(x, Flat(Fills(x, k - 1)));
      FillsAreSkipped(d, fam, x, k - 1);
      assert Items(Fills(x, k))[1..] == Items(Fills(x, k - 1));
    }
  }

  function BlankData(): seq<byte> { seq(476, k => 0xFF) }

  /** Payload n, blank, and seven sectors full of x behind it. */
  function TestBuffer(fam: Family, offset: u32, count: u32, size: u32, n: u32, x: byte): (buf: seq<Sector>)
    requires FitsSlot(offset, 1, 1)
    ensures |buf| == 8
  {
    [MakeSector(TargetForSlot(offset), size, n, count, fam, BlankData())] + Fills(x, 7)
  }

  function TestBlock(fam: Family, offset: u32, count: u32, size: u32, n: u32, x: byte): (b: Block)
    requires FitsSlot(offset, 1, 1)
    ensures |b.src| == BUFFER_SOURCE
  {
    Block(TargetForSlot(offset), size, n, count, FileId(fam), BlankData() + END_BYTES + Flat(Fills(x, 7)))
  }

  lemma ByteBehindSector(fam: Family, offset: u32, count: u32, size: u32, n: u32, x: byte)
    requires FitsSlot(offset, 1, 1)
    ensures TestBlock(fam, offset, count, size, n, x).src[480] == x
  {
    assert Fills(x, 7)[0] == FillSector(x);
    assert Flat(Fills(x, 7))[0] == x;
  }

  lemma TestRun(d: Dev, fam: Family, offset: u32, count: u32, size: u32, n: u32, x: byte)
    requires FitsSlot(offset, 1, 1) && (x == 0x00 || x == 0xFF)
    ensures var calls := CallsOf([TestBuffer(fam, offset, count, size, n, x)]);
            var b := TestBlock(fam, offset, count, size, n, x);
            && HeardCalls(fam, calls) == [b] && RunCalls(d, calls) == Step(d, fam, b)
            && (StepDefined(d, fam, b) ==> AdmissibleCalls(d, calls))
  {
    var buf, b := TestBuffer(fam, offset, count, size, n, x), TestBlock(fam, offset, count, size, n, x);
    assert buf[1..] == Fills(x, 7);
    MadeItem(TargetForSlot(offset), size, n, count, fam, BlankData(), Flat(Fills(x, 7)));
    var items := Items(buf);
    assert items[0] == Data(fam, b) && items[1..] == Items(Fills(x, 7));
    FillsAreSkipped(Step(d, fam, b), fam, x, 7);
    OneBuffer(d, fam, buf);
  }

  function BlankFlash(): Flash {
    Flash(seq(0x1_0000_0000, i => 0xFF), Session(false, 0, 0, 0, false, 0))
  }

  /** A device with blank flashes, the switch at a slot that an upload to `offset` does not reach. */
  function BlankDevice(offset: u32): (d: Dev)
    ensures FitsSlot(offset, 1, 1) ==> SelectedOffset(d.pins) == if offset == 0 then 0x140_0000 else 0
  {
    Dev(BlankFlash(), BlankFlash(), Fpga([], []), if offset == 0 then [true, true, false] else [false, true, true], [])
  }

  lemma BlankPrepared(b: Block, i: u32)
    ensures Prepared(BlankFlash(), b)[i] == 0xFF
  {}

  /** Any byte of a blank chip after one block. */
  lemma ByteAfterBlock(fam: Family, b: Block, s: Session, place: nat, len: nat, i: u32)
    requires s == Opened(BlankFlash().session, fam, b) && TargetOf(s, b) == place
    requires Rounds(place, 0, b.payloadSize) == PagedWrite(len, true) && len <= |b.src|
    ensures Accept(BlankFlash(), fam, b).mem[i]
         == And(0xFF, if Dist(place, i) < len then b.src[Dist(place, i)] else 0xFF)
  {
    BlankPrepared(b, i);
    PutByte(Prepared(BlankFlash(), b), s, b, i);
  }

  lemma TestBlockWrite(fam: Family, offset: u32, count: nat, size: nat, n: nat, x: byte, i: u32)
    requires FitsSlot(offset, count, size) && n < count && InBuffer(offset, size, n)
    ensures var b := TestBlock(fam, offset, count, size, n, x);
            var place, len := offset + n * size, PagedLen(offset + n * size, size);
            && OfUpload(b, offset, count, size) && Acceptable(BlankFlash().session, fam, b)
            && 0 <= place - offset && place + size <= offset + 0xA0_0000
            && Accept(BlankFlash(), fam, b).mem[i]
            == And(0xFF, if Dist(place, i) < len then b.src[Dist(place, i)] else 0xFF)
  {
    var b := TestBlock(fam, offset, count, size, n, x);
    PayloadInside(count, size, n);
    SizeAtMostSlot(count, size);
    AcceptableOfUpload(BlankFlash().session, fam, b, offset, count, size);
    var s := Opened(BlankFlash().session, fam, b);
    PlaceOfBlock(s, b, offset, count, size);
    ByteAfterBlock(fam, b, s, offset + n * size, PagedLen(offset + n * size, size), i);
  }

  lemma SizeAtMostSlot(count: nat, size: nat)
    requires count > 0
    ensures size <= count * size
  {}

  /** A write to the slot at offset does not reach the window the switch selects. */
  lemma OutOfReach(offset: u32, place: u32, len: nat, i: u32)
    requires FitsSlot(offset, 1, 1) && offset <= place <= offset + 0xA0_0000 && len <= BUFFER_SOURCE
    requires var sel := if offset == 0 then 0x140_0000 else 0; sel <= i < sel + 256
    ensures Dist(place, i) >= len
  {}

  lemma TestStepDefined(fam: Family, offset: u32, count: nat, size: nat, n: nat, x: byte)
    requires FitsSlot(offset, count, size) && n < count && InBuffer(offset, size, n)
    ensures StepDefined(BlankDevice(offset), fam, TestBlock(fam, offset, count, size, n, x))
  {
    var d, b := BlankDevice(offset), TestBlock(fam, offset, count, size, n, x);
    StepIsLocal(d, fam, b);
    var sel := SelectedOffset(d.pins);
    var m := Step(d, fam, b).bitstream.mem;
    TestBlockWrite(fam, offset, count, size, n, x, sel);
    forall i: u32 | sel <= i < sel + 256
      ensures m[i] == 0xFF
    {
      if fam.Bitstreams? { OutsideTest(fam, offset, count, size, n, x, i); }
    }
    BlankWindow(m, sel);
  }

  lemma OutsideTest(fam: Family, offset: u32, count: nat, size: nat, n: nat, x: byte, i: u32)
    requires FitsSlot(offset, count, size) && n < count && InBuffer(offset, size, n)
    requires var sel := if offset == 0 then 0x140_0000 else 0; sel <= i < sel + 256
    ensures Accept(BlankFlash(), fam, TestBlock(fam, offset, count, size, n, x)).mem[i] == 0xFF
  {
    TestBlockWrite(fam, offset, count, size, n, x, i);
    OutOfReach(offset, offset + n * size, PagedLen(offset + n * size, size), i);
    AndBlank(0xFF);
  }

  lemma TestCarries(fam: Family, offset: u32, count: nat, size: nat, n: nat, x: byte)
    requires FitsSlot(offset, count, size) && n < count && InBuffer(offset, size, n) && (x == 0x00 || x == 0xFF)
    ensures Carries(BlankDevice(offset), fam, offset, count, size, [TestBuffer(fam, offset, count, size, n, x)])
  {
    TestHeader(fam, offset, count, size, n, x);
    TestStepDefined(fam, offset, count, size, n, x);
    TestRun(BlankDevice(offset), fam, offset, count, size, n, x);
  }

  lemma TestHeader(fam: Family, offset: u32, count: nat, size: nat, n: nat, x: byte)
    requires FitsSlot(offset, count, size) && n < count
    ensures size < 0x1_0000_0000 && HeaderOf(TestBlock(fam, offset, count, size, n, x), offset, count, size)
  {
    SizeAtMostSlot(count, size);
  }

  lemma TestByte(fam: Family, offset: u32, count: nat, size: nat, n: nat, x: byte, i: u32)
    requires FitsSlot(offset, count, size) && n < count && (x == 0x00 || x == 0xFF)
    requires InBuffer(offset, size, n) && !InSector(offset, size, n) && i == offset + n * size + 480
    ensures var calls := CallsOf([TestBuffer(fam, offset, count, size, n, x)]);
            RunCalls(BlankDevice(offset), calls).Of(fam).mem[i] == And(0xFF, x)
  {
    var d, b := BlankDevice(offset), TestBlock(fam, offset, count, size, n, x);
    TestBlockWrite(fam, offset, count, size, n, x, i);
    assert Dist(offset + n * size, i) == 480;
    ByteBehindSector(fam, offset, count, size, n, x);
    TestRun(d, fam, offset, count, size, n, x);
    StepIsLocal(d, fam, b);
  }

  lemma DifferentBehind(fam: Family, offset: u32, count: nat, size: nat, n: nat)
    requires FitsSlot(offset, count, size) && n < count && InBuffer(offset, size, n) && !InSector(offset, size, n)
    ensures !ArrangementNeverMatters(fam, offset, count, size)
  {
    var d := BlankDevice(offset);
    TestHeader(fam, offset, count, size, n, 0xFF);
    var a, b := [TestBuffer(fam, offset, count, size, n, 0xFF)], [TestBuffer(fam, offset, count, size, n, 0x00)];
    TestCarries(fam, offset, count, size, n, 0xFF);
    TestCarries(fam, offset, count, size, n, 0x00);
    SameHeard(d, fam, offset, count, size, n);
    PayloadInside(count, size, n);
    var i := offset + n * size + 480;
    TestByte(fam, offset, count, size, n, 0xFF, i);
    TestByte(fam, offset, count, size, n, 0x00, i);
    assert And(0xFF, 0xFF) != And(0xFF, 0x00);
    assert RunCalls(d, CallsOf(a)).Of(fam) != RunCalls(d, CallsOf(b)).Of(fam);
  }

  lemma SameHeard(d: Dev, fam: Family, offset: u32, count: u32, size: u32, n: u32)
    requires FitsSlot(offset, 1, 1)
    ensures SameSectors(HeardCalls(fam, CallsOf([TestBuffer(fam, offset, count, size, n, 0xFF)])),
                        HeardCalls(fam, CallsOf([TestBuffer(fam, offset, count, size, n, 0x00)])))
  {
    var b, c := TestBlock(fam, offset, count, size, n, 0xFF), TestBlock(fam, offset, count, size, n, 0x00);
    TestRun(d, fam, offset, count, size, n, 0xFF);
    TestRun(d, fam, offset, count, size, n, 0x00);
    assert b.src[..480] == BlankData() + END_BYTES == c.src[..480];
    SameBare(b, c);
  }

  lemma SameBare(b: Block, c: Block)
    requires |b.src| >= 480 && |c.src| >= 480 && b.(src := []) == c.(src := []) && b.src[..480] == c.src[..480]
    ensures SameBlocks(AllBare([b]), AllBare([c]))
  {
    assert [b][1..] == [] && [c][1..] == [];
    assert Bare(b) == Bare(c);
  }
}
