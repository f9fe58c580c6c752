/**
 An upload whose order matters: two blank payloads of 300 bytes. The write of the first takes two pages, so
 that its last 32 bytes are the header of whatever sector comes next in the buffer.
 */
module UploadOrderWitness {
  import opened Bytes
  import opened FlashMemory
  import opened Uf2
  import opened Uf2Sectors
  import opened Bitstream
  import opened UploadSpec
  import opened UploadRuns
  import opened UploadOrder
  import opened UploadOrderExact

  function Empty(): Sector { FillSector(0xFF) }

  /** Payload n of 2, blank. */
  function Payload(n: u32): Sector {
    MakeSector(0, 300, n, 2, Bitstreams, BlankData())
  }

  function BlockFor(n: u32, behind: seq<byte>): Block {
    Block(0, 300, n, 2, FileId(Bitstreams), BlankData() + END_BYTES + behind)
  }

  /** The two payloads in the order x, y, and an empty sector to end the buffer. */
  function InOrder(x: u32, y: u32): seq<Sector> {
    [Payload(x), Payload(y), Empty()]
  }

  lemma OrderItems(x: u32, y: u32)
    ensures Items(InOrder(x, y))
         == [Data(Bitstreams, BlockFor(x, Payload(y) + Empty())), Data(Bitstreams, BlockFor(y, Empty())), Skipped]
  {
    ThreeSectors(Payload(x), Payload(y), Empty());
    MadeItem(0, 300, x, 2, Bitstreams, BlankData(), Payload(y) + Empty());
    MadeItem(0, 300, y, 2, Bitstreams, BlankData(), Empty());
    FillSkipped(0xFF, []);
  }

  // ---------------------------------------------------------------- what the flash holds

  lemma BlockForUpload(n: u32, behind: seq<byte>)
    requires n < 2 && 512 <= |behind| <= 1024
    ensures OfUpload(BlockFor(n, behind), 0, 2, 300)
    ensures TargetOf(Fresh(Bitstreams, 0, 2, 300), BlockFor(n, behind)) == if n == 0 then 0 else 300
    ensures SourceOf(Fresh(Bitstreams, 0, 2, 300), BlockFor(n, behind))
         == BlockFor(n, behind).src[..if n == 0 then 512 else 468]
  {
    PlaceOfBlock(Fresh(Bitstreams, 0, 2, 300), BlockFor(n, behind), 0, 2, 300);
  }

  lemma BlockFits(n: u32, behind: seq<byte>)
    requires n < 2 && 512 <= |behind| <= 1024
    ensures FitsBuffer(0, 300, BlockFor(n, behind))
  {}

  /** What the write of one of the blocks brings to the places that decide. */
  lemma ByteOfPayload(n: u32, behind: seq<byte>, i: u32)
    requires n < 2 && 512 <= |behind| <= 1024
    ensures var s, b := Fresh(Bitstreams, 0, 2, 300), BlockFor(n, behind);
            && (i < 256 ==> ByteFor(s, b, i) == 0xFF)
            && ByteFor(s, b, 480) == if n == 0 then behind[0] else 0xFF
  {
    var s, b := Fresh(Bitstreams, 0, 2, 300), BlockFor(n, behind);
    var place, len := if n == 0 then 0 else 300, if n == 0 then 512 else 468;
    BlockForUpload(n, behind);
    ByteAt(s, b, place, len, i);
    ByteAt(s, b, place, len, 480);
    SourceBytes(n, behind);
  }

  lemma SourceBytes(n: u32, behind: seq<byte>)
    requires |behind| > 0
    ensures var b := BlockFor(n, behind);
            b.src[480] == behind[0] && forall k | 0 <= k < 476 :: b.src[k] == 0xFF
  {}

  lemma PutFirst(m: Memory, s: Session, bs: seq<Block>)
    requires bs != []
    ensures PutAll(m, s, bs) == PutAll(Put(m, s, bs[0]), s, bs[1..])
  {}

  lemma PutPair(m: Memory, s: Session, b: Block, c: Block, i: u32)
    ensures PutAll(m, s, [b, c])[i] == And(And(m[i], ByteFor(s, b, i)), ByteFor(s, c, i))
  {
    PutFirst(m, s, [b, c]);
    PutFirst(Put(m, s, b), s, [c]);
    assert [b, c][1..] == [c] && [c][1..] == [];
    PutByte(m, s, b, i);
    PutByte(Put(m, s, b), s, c, i);
  }

  lemma BegunErased(f: Flash, b: Block, i: u32)
    requires !f.session.inProgress && OfUpload(b, 0, 2, 300) && i < 600
    ensures Begun(f, Bitstreams, b).mem[i] == 0xFF
  {
    FileSizeOfUpload(b, 0, 2, 300);
  }

  /** The chip after the two blocks. */
  lemma PairByte(f: Flash, b: Block, c: Block, i: u32)
    requires !f.session.inProgress && OfUpload(b, 0, 2, 300) && OfUpload(c, 0, 2, 300) && i < 600
    ensures var s := Fresh(Bitstreams, 0, 2, 300);
            RunChip(f, Bitstreams, [b, c]).mem[i] == And(And(0xFF, ByteFor(s, b, i)), ByteFor(s, c, i))
  {
    var s, g := Fresh(Bitstreams, 0, 2, 300), Begun(f, Bitstreams, b);
    RunFromIdle(f, Bitstreams, [b, c]);
    BegunAlike(f, Bitstreams, b, b, 0, 2, 300);
    BegunErased(f, b, i);
    RunOpen(g, Bitstreams, [b, c]);
    PutPair(g.mem, s, b, c, i);
  }

  lemma AndBlankLeft(x: byte)
    ensures And(0xFF, x) == x
  {}

  /** Either order leaves the first page blank; only in one does the header between the payloads reach byte 480. */
  lemma OrderBytes(f: Flash, x: u32, y: u32, i: u32)
    requires !f.session.inProgress && ((x == 0 && y == 1) || (x == 1 && y == 0))
    ensures var bs := [BlockFor(x, Payload(y) + Empty()), BlockFor(y, Empty())];
            && (i < 256 ==> RunChip(f, Bitstreams, bs).mem[i] == 0xFF)
            && RunChip(f, Bitstreams, bs).mem[480] == if x == 0 then Payload(y)[0] else 0xFF
  {
    var b, c := BlockFor(x, Payload(y) + Empty()), BlockFor(y, Empty());
    BlockForUpload(x, Payload(y) + Empty());
    BlockForUpload(y, Empty());
    if i < 256 {
      PairByte(f, b, c, i);
      ByteOfPayload(x, Payload(y) + Empty(), i);
      ByteOfPayload(y, Empty(), i);
    }
    PairByte(f, b, c, 480);
    ByteOfPayload(x, Payload(y) + Empty(), 480);
    ByteOfPayload(y, Empty(), 480);
    assert (Payload(y) + Empty())[0] == Payload(y)[0] && Empty()[0] == 0xFF;
    AndBlankLeft(Payload(y)[0]);
    AndBlank(Payload(y)[0]);
    AndBlank(0xFF);
  }

  // ---------------------------------------------------------------- the runs

  lemma PairWindow(f: Flash, x: u32, y: u32)
    requires !f.session.inProgress && ((x == 0 && y == 1) || (x == 1 && y == 0))
    ensures var bs := [BlockFor(x, Payload(y) + Empty()), BlockFor(y, Empty())];
            ScanInBounds(Window(RunChip(f, Bitstreams, bs).mem, 0))
  {
    var mem := RunChip(f, Bitstreams, [BlockFor(x, Payload(y) + Empty()), BlockFor(y, Empty())]).mem;
    forall i: u32 | i < 256
      ensures mem[i] == 0xFF
    {
      OrderBytes(f, x, y, i);
    }
    BlankWindow(mem, 0);
  }

  lemma OrderAdmissible(d: Dev, x: u32, y: u32)
    requires !d.bitstream.session.inProgress && SelectedOffset(d.pins) == 0
    requires (x == 0 && y == 1) || (x == 1 && y == 0)
    ensures Admissible(d, Items(InOrder(x, y)))
    ensures RunCall(d, Items(InOrder(x, y))).bitstream.mem[480] == if x == 0 then Payload(y)[0] else 0xFF
  {
    var b, c, items := BlockFor(x, Payload(y) + Empty()), BlockFor(y, Empty()), Items(InOrder(x, y));
    OrderItems(x, y);
    HeardInOrder(b, c, items);
    RunIsLocal(d, items, Bitstreams);
    PairWindow(d.bitstream, x, y);
    OrderBytes(d.bitstream, x, y, 0);
    PairAdmissible(d.bitstream, b, c, x, y);
    OneChipRun(d, Bitstreams, items, 2);
  }

  lemma PairAdmissible(f: Flash, b: Block, c: Block, x: u32, y: u32)
    requires !f.session.inProgress && x < 2 && y < 2
    requires b == BlockFor(x, Payload(y) + Empty()) && c == BlockFor(y, Empty())
    ensures AdmissibleChip(f, Bitstreams, [b, c]) && Counting(f.session, [b, c], 2)
  {
    BlockForUpload(x, Payload(y) + Empty());
    BlockForUpload(y, Empty());
    BlockFits(x, Payload(y) + Empty());
    BlockFits(y, Empty());
    AdmissibleUpload(f, Bitstreams, 0, 2, 300, [b, c]);
  }

  lemma HeardInOrder(b: Block, c: Block, items: seq<Item>)
    requires items == [Data(Bitstreams, b), Data(Bitstreams, c), Skipped]
    ensures Heard(Bitstreams, items) == [b, c] && Heard(Firmware, items) == []
  {
    assert items == [Data(Bitstreams, b)] + ([Data(Bitstreams, c)] + ([Skipped] + []));
    forall fam
      ensures Heard(fam, items) == if fam.Bitstreams? then [b, c] else []
    {
      HeardFirst(fam, Data(Bitstreams, b), [Data(Bitstreams, c)] + ([Skipped] + []));
      HeardFirst(fam, Data(Bitstreams, c), [Skipped] + []);
      HeardFirst(fam, Skipped, []);
    }
  }

  /**
   The same two sectors, an empty one behind them, in the two orders: the handler can take both
   buffers, and they leave different chips.
   */
  lemma OrderMatters(d: Dev)
    requires !d.bitstream.session.inProgress && SelectedOffset(d.pins) == 0
    ensures Admissible(d, Items(InOrder(0, 1))) && Admissible(d, Items(InOrder(1, 0)))
    ensures RunCall(d, Items(InOrder(0, 1))).bitstream != RunCall(d, Items(InOrder(1, 0))).bitstream
  {
    OrderAdmissible(d, 0, 1);
    OrderAdmissible(d, 1, 0);
    assert Payload(1)[0] == 0x55;
  }
}
