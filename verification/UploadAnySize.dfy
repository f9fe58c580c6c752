/**
 Uploads at any payload size. Where a write runs over the end of its payload it may clear bits of the
 payload behind it; this says exactly when the image survives that, for whatever lies in the buffers.
 */
module UploadAnySize {
  import opened Bytes
  import opened FlashMemory
  import opened FlashDriver
  import opened Uf2
  import opened Uf2Sectors
  import opened Bitstream
  import opened UploadSpec
  import opened UploadSizes
  import opened UploadRuns
  import opened UploadOrder
  import opened UploadImage

  // ---------------------------------------------------------------- the bytes of an image

  /** How many bytes the write of payload n programs. */
  function RunLength(u: Image, n: nat): nat
    requires u.Fits() && n < u.count
  {
    PayloadInside(u.count, u.size, n);
    PagedLen(u.offset + n * u.size, u.size)
  }

  /** The block is one of the image's, and its write stays in the buffer it came in. */
  predicate Usable(u: Image, b: Block)
    requires u.Fits()
  {
    u.Carried(b) && RunLength(u, b.blockNo) <= |b.src|
  }

  /** Which is what the handler needs of it. */
  lemma AcceptableExactlyWhen(u: Image, s: Session, fam: Family, b: Block)
    requires u.Fits() && u.Carried(b) && !s.inProgress
    ensures Acceptable(s, fam, b) <==> Usable(u, b)
  {
    AcceptableOfUpload(s, fam, b, u.offset, u.count, u.size);
  }

  lemma SourceOfBlock(u: Image, s: Session, b: Block)
    requires u.Fits() && Usable(u, b) && s.offset == u.offset && s.blockSize == u.size
    ensures TargetOf(s, b) == u.offset + b.blockNo * u.size
    ensures SourceOf(s, b) == b.src[..RunLength(u, b.blockNo)]
  {
    PlaceOfBlock(s, b, u.offset, u.count, u.size);
  }

  /** If the write of b runs over byte d of the image, it clears no bit of it. */
  predicate Spares(u: Image, b: Block, d: nat)
    requires u.Fits() && Usable(u, b) && d < |u.data|
  {
    var k := d - b.blockNo * u.size;
    u.size <= k < RunLength(u, b.blockNo) ==> Keeps(b.src[k], u.data[d])
  }

  ghost predicate AllSpare(u: Image, bs: seq<Block>, d: nat)
    requires u.Fits() && (forall b | b in bs :: Usable(u, b)) && d < |u.data|
  {
    forall b | b in bs :: Spares(u, b, d)
  }

  ghost predicate RunsOverHarmlessly(u: Image, bs: seq<Block>)
    requires u.Fits() && forall b | b in bs :: Usable(u, b)
  {
    forall d: nat | d < |u.data| :: AllSpare(u, bs, d)
  }

  lemma ByteForAt(u: Image, s: Session, b: Block, p: nat, n: nat, d: nat)
    requires u.Fits() && p <= 0xA0_0000 && d < 0xA0_0000 && n <= |b.src| && n <= 0x100_0000
    requires TargetOf(s, b) == u.offset + p && SourceOf(s, b) == b.src[..n]
    ensures ByteFor(s, b, u.offset + d) == if p <= d < p + n then b.src[d - p] else 0xFF
  {
    assert Dist(u.offset + p, u.offset + d) == if d >= p then d - p else d - p + 0x1_0000_0000;
  }

  /** The byte that block b brings to place d of the image. */
  lemma ByteOfBlock(u: Image, s: Session, b: Block, d: nat)
    requires u.Fits() && Usable(u, b) && s.offset == u.offset && s.blockSize == u.size && d < |u.data|
    ensures var p := b.blockNo * u.size;
            ByteFor(s, b, u.offset + d) == if p <= d < p + RunLength(u, b.blockNo) then b.src[d - p] else 0xFF
  {
    SourceOfBlock(u, s, b);
    PayloadInside(u.count, u.size, b.blockNo);
    PagedLenExact(u.offset + b.blockNo * u.size, u.size);
    ByteForAt(u, s, b, b.blockNo * u.size, RunLength(u, b.blockNo), d);
  }

  lemma OwnByteAt(u: Image, b: Block, p: nat, d: nat)
    requires u.Fits() && u.Carried(b) && p == b.blockNo * u.size && p <= d < p + u.size <= |u.data|
    ensures b.src[d - p] == u.data[d]
  {
    assert b.src[..u.size][d - p] == u.Payload(b.blockNo)[d - p];
  }

  lemma OwnByte(u: Image, s: Session, b: Block, d: nat)
    requires u.Fits() && Usable(u, b) && s.offset == u.offset && s.blockSize == u.size
    requires d < |u.data| && d / u.size == b.blockNo
    ensures ByteFor(s, b, u.offset + d) == u.data[d]
  {
    ByteOfBlock(u, s, b, d);
    PayloadOf(d, u.size, b.blockNo);
    PayloadInside(u.count, u.size, b.blockNo);
    PagedLenExact(u.offset + b.blockNo * u.size, u.size);
    OwnByteAt(u, b, b.blockNo * u.size, d);
  }

  lemma SparesByte(u: Image, s: Session, b: Block, d: nat)
    requires u.Fits() && Usable(u, b) && s.offset == u.offset && s.blockSize == u.size && d < |u.data|
    ensures Spares(u, b, d) <==> Keeps(ByteFor(s, b, u.offset + d), u.data[d])
  {
    var p := b.blockNo * u.size;
    ByteOfBlock(u, s, b, d);
    AndBlank(u.data[d]);
    if p <= d < p + u.size {
      KeepsItself(u.data[d]);
      PayloadInside(u.count, u.size, b.blockNo);
      PagedLenExact(u.offset + p, u.size);
      OwnByteAt(u, b, p, d);
    }
  }

  /** All blocks of the image, each once, that the handler can take. */
  ghost predicate WholeUpload(u: Image, bs: seq<Block>)
    requires u.Fits()
  {
    (forall b | b in bs :: Usable(u, b)) && AllOf(u, bs)
  }

  lemma OwnBlock(u: Image, bs: seq<Block>, d: nat) returns (b: Block)
    requires u.Fits() && WholeUpload(u, bs) && d < |u.data|
    ensures b in bs && b.blockNo == d / u.size
  {
    AllArrived(u, bs);
    ByteInUpTo(d, u.size, u.count);
    var i :| 0 <= i < |bs| && bs[i].blockNo == d / u.size;
    b := bs[i];
  }

  lemma ImageByteSurvives(u: Image, m: Memory, s: Session, bs: seq<Block>, d: nat)
    requires u.Fits() && WholeUpload(u, bs)
    requires s.offset == u.offset && s.blockSize == u.size && d < |u.data| && m[u.offset + d] == 0xFF
    ensures PutAll(m, s, bs)[u.offset + d] == u.data[d] <==> AllSpare(u, bs, d)
  {
    var own := OwnBlock(u, bs, d);
    OwnByte(u, s, own, d);
    ByteSurvives(m, s, bs, own, u.offset + d);
    forall b | b in bs
      ensures Spares(u, b, d) <==> Keeps(ByteFor(s, b, u.offset + d), u.data[d])
    {
      SparesByte(u, s, b, d);
    }
  }

  // ---------------------------------------------------------------- the upload

  /** One byte of the image, after all its blocks. */
  lemma ByteExactly(u: Image, f: Flash, fam: Family, bs: seq<Block>, d: nat)
    requires u.Fits() && WholeUpload(u, bs) && !f.session.inProgress && d < |u.data|
    ensures RunChip(f, fam, bs).mem[u.offset + d] == u.data[d] <==> AllSpare(u, bs, d)
  {
    assert bs[0] in bs;
    var g := Begun(f, fam, bs[0]);
    BegunBlank(u, f, fam, bs[0]);
    MemoryAfter(u, f, fam, bs);
    ImageByteSurvives(u, g.mem, g.session, bs, d);
  }

  /**
   Every order of the blocks of an image, at any payload size: the image is in flash afterwards exactly
   when no write that runs over its payload clears a bit of the image.
   */
  lemma ImageExactlyWhen(u: Image, f: Flash, fam: Family, bs: seq<Block>)
    requires u.Fits() && WholeUpload(u, bs) && !f.session.inProgress
    ensures Read(RunChip(f, fam, bs).mem, u.offset, |u.data|) == u.data <==> RunsOverHarmlessly(u, bs)
  {
    var read := Read(RunChip(f, fam, bs).mem, u.offset, |u.data|);
    forall d: nat | d < |u.data|
      ensures read[d] == u.data[d] <==> AllSpare(u, bs, d)
    {
      ByteExactly(u, f, fam, bs, d);
    }
    AllBytes(u, bs, read);
  }

  lemma AllBytes(u: Image, bs: seq<Block>, read: seq<byte>)
    requires u.Fits() && (forall b | b in bs :: Usable(u, b)) && |read| == |u.data|
    requires forall d: nat | d < |u.data| :: read[d] == u.data[d] <==> AllSpare(u, bs, d)
    ensures read == u.data <==> RunsOverHarmlessly(u, bs)
  {
    assert read == u.data <==> forall d: nat | d < |u.data| :: read[d] == u.data[d];
  }

  lemma MemoryAfter(u: Image, f: Flash, fam: Family, bs: seq<Block>)
    requires u.Fits() && WholeUpload(u, bs) && !f.session.inProgress
    ensures var g := Begun(f, fam, bs[0]);
            RunChip(f, fam, bs).mem == PutAll(g.mem, g.session, bs)
  {
    assert bs[0] in bs;
    RunFromIdle(f, fam, bs);
    BegunBlank(u, f, fam, bs[0]);
    RunOpen(Begun(f, fam, bs[0]), fam, bs);
  }

  lemma BegunBlank(u: Image, f: Flash, fam: Family, b: Block)
    requires u.Fits() && u.Carried(b) && !f.session.inProgress
    ensures var g := Begun(f, fam, b);
            && g.session == Fresh(fam, u.offset, u.count, u.size)
            && forall i: u32 | u.offset <= i < u.offset + |u.data| :: g.mem[i] == 0xFF
  {
    FileSizeOfUpload(b, u.offset, u.count, u.size);
  }

  /** Where every payload is written exactly nothing runs over. */
  lemma ExactRunsOverNothing(u: Image, bs: seq<Block>)
    requires u.Fits() && (forall n: nat | n < u.count :: WrittenExactly(u.offset, u.size, n))
    requires forall b | b in bs :: u.Carried(b)
    ensures (forall b | b in bs :: Usable(u, b)) && RunsOverHarmlessly(u, bs)
  {
    forall n: nat | n < u.count
      ensures RunLength(u, n) == u.size
    {
      assert WrittenExactly(u.offset, u.size, n);
    }
  }

  // ---------------------------------------------------------------- an image that is lost

  /** Three payloads of 200 bytes, all 0xFF. */
  function Blank200(): (u: Image)
    ensures u.Fits()
  {
    Image(0, 3, 200, seq(600, k => 0xFF))
  }

  /**
   Cut into payloads of 200 bytes and padded with zeros, as UF2 tools pad, that image is lost in every
   order: the second payload crosses a page end, and its write goes on with 56 zeros into the third.
   */
  lemma PaddingLosesImage(f: Flash, fam: Family, bs: seq<Block>)
    requires WholeUpload(Blank200(), bs) && !f.session.inProgress
    requires forall b, k | b in bs && 200 <= k < 476 :: b.src[k] == 0x00
    ensures Read(RunChip(f, fam, bs).mem, 0, 600) != Blank200().data
  {
    var u := Blank200();
    var b := OwnBlock(u, bs, 200);
    SecondClears(b);
    assert !AllSpare(u, bs, 400);
    ImageExactlyWhen(u, f, fam, bs);
  }

  lemma SecondClears(b: Block)
    requires Usable(Blank200(), b) && b.blockNo == 1 && b.src[200] == 0x00
    ensures !Spares(Blank200(), b, 400)
  {
    PaddedLengths(1);
    assert !Keeps(0x00, 0xFF);
  }

  /** Payload n as a tool that pads with zeros sends it. */
  function PaddedData(): (s: seq<byte>)
    ensures |s| == 476
  {
    seq(476, k => if k < 200 then 0xFF else 0x00)
  }

  function PaddedSector(n: u32): Sector {
    MakeSector(0, 200, n, 3, Bitstreams, PaddedData())
  }

  function PaddedBlock(n: u32, behind: seq<byte>): Block {
    Block(0, 200, n, 3, FileId(Bitstreams), PaddedData() + END_BYTES + behind)
  }

  function PaddedBlocks(): seq<Block> {
    [PaddedBlock(0, PaddedTail(0)), PaddedBlock(1, PaddedTail(1)), PaddedBlock(2, PaddedTail(2))]
  }

  lemma PaddedItems()
    ensures Items([PaddedSector(0), PaddedSector(1), PaddedSector(2)]) == AsItems(Bitstreams, PaddedBlocks())
  {
    ThreeSectors(PaddedSector(0), PaddedSector(1), PaddedSector(2));
    MadeItem(0, 200, 0, 3, Bitstreams, PaddedData(), PaddedSector(1) + PaddedSector(2));
    MadeItem(0, 200, 1, 3, Bitstreams, PaddedData(), PaddedSector(2));
    MadeItem(0, 200, 2, 3, Bitstreams, PaddedData(), []);
    var bs := PaddedBlocks();
    ThreeAsItems(Bitstreams, bs[0], bs[1], bs[2]);
  }

  lemma PaddedUsable(n: u32, behind: seq<byte>)
    requires n < 3 && |behind| <= 1024
    ensures Usable(Blank200(), PaddedBlock(n, behind))
    ensures FitsBuffer(0, 200, PaddedBlock(n, behind))
    ensures forall k | 200 <= k < 476 :: PaddedBlock(n, behind).src[k] == 0x00
  {
    PaddedLengths(n);
    PaddedCarried(n, behind);
  }

  lemma PaddedLengths(n: u32)
    requires n < 3
    ensures RunLength(Blank200(), n) == PagedLen(n * 200, 200) == if n == 0 then 200 else if n == 1 then 256 else 312
  {}

  lemma PaddedCarried(n: u32, behind: seq<byte>)
    requires n < 3 && |behind| <= 1024
    ensures Blank200().Carried(PaddedBlock(n, behind))
  {
    assert PaddedBlock(n, behind).src[..200] == Blank200().Payload(n);
  }

  /** The bytes behind block n of the three. */
  function PaddedTail(n: nat): (s: seq<byte>)
    requires n < 3
    ensures |s| <= 1024
  {
    if n == 0 then PaddedSector(1) + PaddedSector(2) else if n == 1 then PaddedSector(2) else []
  }

  lemma PaddedMember(b: Block) returns (n: nat)
    requires b in PaddedBlocks()
    ensures n < 3 && b == PaddedBlock(n, PaddedTail(n))
  {
    var bs := PaddedBlocks();
    var i :| 0 <= i < 3 && b == bs[i];
    return i;
  }

  lemma PaddedUpload()
    ensures WholeUpload(Blank200(), PaddedBlocks())
    ensures forall b | b in PaddedBlocks() :: FitsBuffer(0, 200, b) && forall k | 200 <= k < 476 :: b.src[k] == 0x00
  {
    forall b | b in PaddedBlocks()
      ensures Usable(Blank200(), b) && FitsBuffer(0, 200, b) && forall k | 200 <= k < 476 :: b.src[k] == 0x00
    {
      var n := PaddedMember(b);
      PaddedUsable(n, PaddedTail(n));
    }
    PaddedDistinct(PaddedBlocks());
  }

  lemma PaddedDistinct(bs: seq<Block>)
    requires bs == PaddedBlocks()
    ensures Distinct(bs) && |bs| == 3
  {
    ThreeDistinct(PaddedBlock(0, PaddedTail(0)), PaddedBlock(1, PaddedTail(1)), PaddedBlock(2, PaddedTail(2)));
  }

  lemma ThreeDistinct(a: Block, b: Block, c: Block)
    requires a.blockNo != b.blockNo && b.blockNo != c.blockNo && a.blockNo != c.blockNo
    ensures Distinct([a, b, c])
  {}

  lemma PaddedSpares(n: u32, behind: seq<byte>, d: nat)
    requires n < 3 && |behind| <= 1024 && d < 256
    ensures Usable(Blank200(), PaddedBlock(n, behind)) && Spares(Blank200(), PaddedBlock(n, behind), d)
  {
    PaddedUsable(n, behind);
    assert RunLength(Blank200(), 0) == 200;
  }

  lemma AllSpareFirstPage(bs: seq<Block>, d: nat)
    requires bs == PaddedBlocks() && d < 256
    ensures forall b | b in bs :: Usable(Blank200(), b) && Spares(Blank200(), b, d)
  {
    forall b | b in bs
      ensures Usable(Blank200(), b) && Spares(Blank200(), b, d)
    {
      var n := PaddedMember(b);
      PaddedSpares(n, PaddedTail(n), d);
    }
  }

  lemma PaddedByte(f: Flash, bs: seq<Block>, d: nat)
    requires !f.session.inProgress && WholeUpload(Blank200(), bs) && d < 256
    requires forall b | b in bs :: Spares(Blank200(), b, d)
    ensures RunChip(f, Bitstreams, bs).mem[d] == 0xFF
  {
    ByteExactly(Blank200(), f, Bitstreams, bs, d);
  }

  lemma PaddedFirstPage(f: Flash, bs: seq<Block>, i: u32)
    requires !f.session.inProgress && bs == PaddedBlocks() && i < 256
    ensures RunChip(f, Bitstreams, bs).mem[i] == 0xFF
  {
    PaddedUpload();
    AllSpareFirstPage(bs, i);
    PaddedByte(f, bs, i);
  }

  /** The boot that ends it finds blank flash: the zeros are behind the first page. */
  lemma PaddedWindow(f: Flash, bs: seq<Block>)
    requires !f.session.inProgress && bs == PaddedBlocks()
    ensures ScanInBounds(Window(RunChip(f, Bitstreams, bs).mem, 0))
  {
    forall i: u32 | i < 256
      ensures RunChip(f, Bitstreams, bs).mem[i] == 0xFF
    {
      PaddedFirstPage(f, bs, i);
    }
    BlankWindow(RunChip(f, Bitstreams, bs).mem, 0);
  }

  /** As it comes from the host: three sectors in one buffer, which the handler can take, and the image is lost. */
  lemma PaddedUploadIsLost(d: Dev)
    requires !d.bitstream.session.inProgress && SelectedOffset(d.pins) == 0
    ensures var items := Items([PaddedSector(0), PaddedSector(1), PaddedSector(2)]);
            Admissible(d, items) && Read(RunCall(d, items).bitstream.mem, 0, 600) != Blank200().data
  {
    var items, bs := Items([PaddedSector(0), PaddedSector(1), PaddedSector(2)]), PaddedBlocks();
    PaddedItems();
    HeardAsItems(Bitstreams, bs);
    RunIsLocal(d, items, Bitstreams);
    PaddedUpload();
    PaddingLosesImage(d.bitstream, Bitstreams, bs);
    PaddedWindow(d.bitstream, bs);
    AdmissibleUpload(d.bitstream, Bitstreams, 0, 3, 200, bs);
    OneChipRun(d, Bitstreams, items, 3);
  }
}
