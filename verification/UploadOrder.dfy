/**
 What order and repetition do to an upload. Programming only clears bits, so the writes of one session
 commute, and writing the same block again adds nothing. What a write programs is its own block's affair
 as long as it stays in its sector; beyond, it depends on what comes next in the buffer.
 */
module UploadOrder {
  import opened Bytes
  import opened FlashMemory
  import opened FlashDriver
  import opened Uf2
  import opened UploadSpec
  import opened UploadSizes
  import opened UploadRuns

  // ---------------------------------------------------------------- programming commutes

  lemma ProgramCommutes(m: Memory, a: u32, x: seq<byte>, b: u32, y: seq<byte>)
    ensures Program(Program(m, a, x), b, y) == Program(Program(m, b, y), a, x)
  {
    var l, r := Program(Program(m, a, x), b, y), Program(Program(m, b, y), a, x);
    forall i | 0 <= i < 0x1_0000_0000
      ensures l[i] == r[i]
    {
      if Dist(a, i) < |x| && Dist(b, i) < |y| { AndCommutes(m[i], x[Dist(a, i)], y[Dist(b, i)]); }
    }
  }

  lemma AndCommutes(m: byte, x: byte, y: byte)
    ensures (m & x) & y == (m & y) & x
  {}

  lemma ProgramTwice(m: Memory, a: u32, x: seq<byte>)
    ensures Program(Program(m, a, x), a, x) == Program(m, a, x)
  {
    var l, r := Program(Program(m, a, x), a, x), Program(m, a, x);
    forall i | 0 <= i < 0x1_0000_0000
      ensures l[i] == r[i]
    {
      if Dist(a, i) < |x| { AndTwice(m[i], x[Dist(a, i)]); }
    }
  }

  lemma AndTwice(m: byte, x: byte)
    ensures (m & x) & x == m & x
  {}

  // ---------------------------------------------------------------- the writes of an open session

  /** One block's write in a session. */
  ghost function Put(m: Memory, s: Session, b: Block): Memory {
    Written(m, TargetOf(s, b), b)
  }

  ghost function PutAll(m: Memory, s: Session, bs: seq<Block>): Memory
    decreases bs
  {
    if bs == [] then m else PutAll(Put(m, s, bs[0]), s, bs[1..])
  }

  lemma PutCommutes(m: Memory, s: Session, b: Block, c: Block)
    ensures Put(Put(m, s, b), s, c) == Put(Put(m, s, c), s, b)
    ensures Put(Put(m, s, b), s, b) == Put(m, s, b)
  {
    var x, y := SourceOf(s, b), SourceOf(s, c);
    ProgramCommutes(m, TargetOf(s, b), x, TargetOf(s, c), y);
    ProgramTwice(m, TargetOf(s, b), x);
  }

  /** The bytes a block's write programs. */
  function SourceOf(s: Session, b: Block): seq<byte> {
    var n := Rounds(TargetOf(s, b), 0, b.payloadSize).written;
    if n <= |b.src| then b.src[..n] else b.src
  }

  /** A write may as well come after all the others. */
  lemma {:induction false} PutLater(m: Memory, s: Session, b: Block, bs: seq<Block>)
    ensures PutAll(Put(m, s, b), s, bs) == Put(PutAll(m, s, bs), s, b)
    decreases bs
  {
    if bs != [] {
      PutCommutes(m, s, b, bs[0]);
      PutLater(Put(m, s, bs[0]), s, b, bs[1..]);
    }
  }

  lemma {:induction false} PutAgain(m: Memory, s: Session, bs: seq<Block>, b: Block)
    requires b in bs
    ensures Put(PutAll(m, s, bs), s, b) == PutAll(m, s, bs)
    decreases bs
  {
    if b == bs[0] {
      PutLater(Put(m, s, b), s, b, bs[1..]);
      PutCommutes(m, s, b, b);
    } else {
      PutAgain(Put(m, s, bs[0]), s, bs[1..], b);
    }
  }

  lemma {:induction false} PutAllAgain(m: Memory, s: Session, bs: seq<Block>, cs: seq<Block>)
    requires forall c | c in cs :: c in bs
    ensures PutAll(PutAll(m, s, bs), s, cs) == PutAll(m, s, bs)
    decreases cs
  {
    if cs != [] {
      PutAgain(m, s, bs, cs[0]);
      PutAllAgain(m, s, bs, cs[1..]);
    }
  }

  lemma {:induction false} PutAllCommutes(m: Memory, s: Session, bs: seq<Block>, cs: seq<Block>)
    ensures PutAll(PutAll(m, s, bs), s, cs) == PutAll(PutAll(m, s, cs), s, bs)
    decreases bs
  {
    if bs != [] {
      PutAllCommutes(Put(m, s, bs[0]), s, bs[1..], cs);
      PutLater(m, s, bs[0], cs);
    }
  }

  /** The same blocks, each once or more often, in any order. */
  ghost predicate SameBlocks(bs: seq<Block>, cs: seq<Block>) {
    forall b :: b in bs <==> b in cs
  }

  lemma PutSameBlocks(m: Memory, s: Session, bs: seq<Block>, cs: seq<Block>)
    requires SameBlocks(bs, cs)
    ensures PutAll(m, s, bs) == PutAll(m, s, cs)
  {
    PutAllAgain(m, s, bs, cs);
    PutAllAgain(m, s, cs, bs);
    PutAllCommutes(m, s, bs, cs);
  }

  // ---------------------------------------------------------------- one byte under many writes

  /** What the write of b does to address i: the byte programmed there, or 0xFF, which changes nothing. */
  function ByteFor(s: Session, b: Block, i: u32): byte {
    var k := Dist(TargetOf(s, b), i);
    if k < |SourceOf(s, b)| then SourceOf(s, b)[k] else 0xFF
  }

  /** The same where the write's place and source are known. */
  lemma ByteAt(s: Session, b: Block, place: u32, len: nat, i: u32)
    requires TargetOf(s, b) == place && len <= |b.src| && SourceOf(s, b) == b.src[..len]
    ensures ByteFor(s, b, i) == if Dist(place, i) < len then b.src[Dist(place, i)] else 0xFF
  {}

  function And(x: byte, y: byte): byte { x & y }

  /** Every bit of w is set in x. */
  predicate Keeps(x: byte, w: byte) { x & w == w }

  lemma PutByte(m: Memory, s: Session, b: Block, i: u32)
    ensures Put(m, s, b)[i] == And(m[i], ByteFor(s, b, i))
  {
    AndBlank(m[i]);
  }

  lemma AndBlank(x: byte)
    ensures And(x, 0xFF) == x && Keeps(0xFF, x)
  {}

  lemma KeepsItself(x: byte)
    ensures Keeps(x, x)
  {}

  lemma AndKeeps(x: byte, y: byte, w: byte)
    ensures Keeps(And(x, y), w) <==> Keeps(x, w) && Keeps(y, w)
  {}

  lemma AndBetween(x: byte, w: byte)
    requires And(x, w) == x
    ensures x == w <==> Keeps(x, w)
  {}

  /** The writes leave the bits of w set exactly when each of them does. */
  lemma {:induction false} PutAllKeepsBits(m: Memory, s: Session, bs: seq<Block>, i: u32, w: byte)
    ensures Keeps(PutAll(m, s, bs)[i], w) <==> Keeps(m[i], w) && forall b | b in bs :: Keeps(ByteFor(s, b, i), w)
    decreases bs
  {
    if bs != [] {
      PutByte(m, s, bs[0], i);
      AndKeeps(m[i], ByteFor(s, bs[0], i), w);
      PutAllKeepsBits(Put(m, s, bs[0]), s, bs[1..], i, w);
    }
  }

  /** A blank byte to which some block brings w ends as w exactly when no block clears a bit of w. */
  lemma ByteSurvives(m: Memory, s: Session, bs: seq<Block>, own: Block, i: u32)
    requires own in bs && m[i] == 0xFF
    ensures var w := ByteFor(s, own, i);
            PutAll(m, s, bs)[i] == w <==> forall b | b in bs :: Keeps(ByteFor(s, b, i), w)
  {
    var r, w := PutAll(m, s, bs), ByteFor(s, own, i);
    PutAgain(m, s, bs, own);
    PutByte(r, s, own, i);
    AndBetween(r[i], w);
    PutAllKeepsBits(m, s, bs, i, w);
    AndBlank(w);
  }

  // ---------------------------------------------------------------- an open session

  /** The record once n more blocks have been counted. */
  function After(s: Session, n: nat): Session
    requires n <= s.blocksLeft
  {
    s.(blocksLeft := s.blocksLeft - n, inProgress := s.blocksLeft != n)
  }

  lemma AcceptOpen(f: Flash, fam: Family, b: Block)
    requires f.session.inProgress && 0 < f.session.blocksLeft && f.session.isBitstream == fam.Bitstreams?
    ensures Accept(f, fam, b) == Flash(Put(f.mem, f.session, b), After(f.session, 1))
  {}

  lemma PutAllSameTargets(m: Memory, s: Session, t: Session, bs: seq<Block>)
    requires s.offset == t.offset && s.blockSize == t.blockSize
    ensures PutAll(m, s, bs) == PutAll(m, t, bs)
    decreases bs
  {}

  lemma {:induction false} RunOpen(f: Flash, fam: Family, bs: seq<Block>)
    requires f.session.inProgress == (f.session.blocksLeft != 0) && |bs| <= f.session.blocksLeft
    requires f.session.isBitstream == fam.Bitstreams?
    ensures RunChip(f, fam, bs) == Flash(PutAll(f.mem, f.session, bs), After(f.session, |bs|))
    decreases bs
  {
    if bs != [] {
      var f1 := Flash(Put(f.mem, f.session, bs[0]), After(f.session, 1));
      AcceptOpen(f, fam, bs[0]);
      RunOpen(f1, fam, bs[1..]);
      PutAllSameTargets(f1.mem, f1.session, f.session, bs[1..]);
    }
  }

  /** The chip as the first block finds it for its write: erased, the session open. */
  ghost function Begun(f: Flash, fam: Family, b: Block): Flash {
    Flash(Prepared(f, b), Opened(f.session, fam, b))
  }

  lemma RunFromIdle(f: Flash, fam: Family, bs: seq<Block>)
    requires !f.session.inProgress && bs != [] && 0 < bs[0].numBlocks
    ensures RunChip(f, fam, bs) == RunChip(Begun(f, fam, bs[0]), fam, bs)
  {
    var g := Begun(f, fam, bs[0]);
    assert Accept(f, fam, bs[0]) == Accept(g, fam, bs[0]);
  }

  // ---------------------------------------------------------------- the sector alone

  /** The block without what follows its sector in the buffer. */
  function Bare(b: Block): Block {
    if |b.src| < 480 then b else b.(src := b.src[..480])
  }

  function AllBare(bs: seq<Block>): (r: seq<Block>)
    ensures |r| == |bs|
    decreases bs
  {
    if bs == [] then [] else [Bare(bs[0])] + AllBare(bs[1..])
  }

  /** The write of b reads no more than its sector. */
  predicate WriteInSector(s: Session, b: Block) {
    480 <= |b.src| && Rounds(TargetOf(s, b), 0, b.payloadSize).written <= 480
  }

  lemma PutBare(m: Memory, s: Session, b: Block)
    requires WriteInSector(s, b)
    ensures Put(m, s, b) == Put(m, s, Bare(b))
  {
    var n := Rounds(TargetOf(s, b), 0, b.payloadSize).written;
    assert b.src[..480][..n] == b.src[..n];
  }

  lemma {:induction false} PutAllBare(m: Memory, s: Session, bs: seq<Block>)
    requires forall b | b in bs :: WriteInSector(s, b)
    ensures PutAll(m, s, bs) == PutAll(m, s, AllBare(bs))
    decreases bs
  {
    if bs != [] {
      PutBare(m, s, bs[0]);
      assert forall b | b in bs[1..] :: b in bs;
      PutAllBare(Put(m, s, bs[0]), s, bs[1..]);
    }
  }

  /**
   In an open session whose writes stay in their sectors, chip and record depend only on which sectors came
   and on how many: not on their order, on repeats, on their headers' sizes or on what lies between them.
   */
  lemma OpenSessionOrder(f: Flash, fam: Family, bs: seq<Block>, cs: seq<Block>)
    requires f.session.inProgress && f.session.isBitstream == fam.Bitstreams?
    requires |bs| == |cs| <= f.session.blocksLeft && SameBlocks(AllBare(bs), AllBare(cs))
    requires forall b | b in bs || b in cs :: WriteInSector(f.session, b) && Acceptable(f.session, fam, b)
    ensures RunChip(f, fam, bs) == RunChip(f, fam, cs)
  {
    if bs != [] {
      RunOpen(f, fam, bs);
      RunOpen(f, fam, cs);
      PutAllBare(f.mem, f.session, bs);
      PutAllBare(f.mem, f.session, cs);
      PutSameBlocks(f.mem, f.session, AllBare(bs), AllBare(cs));
    }
  }

  // ---------------------------------------------------------------- uploads

  /** A block of an upload of count payloads of size bytes to the slot at offset, as it lies in a buffer. */
  predicate OfUpload(b: Block, offset: u32, count: nat, size: nat) {
    && SlotOffset(b.targetAddr) == offset && b.numBlocks == count && b.payloadSize == size && b.blockNo < count
    && 480 <= |b.src| < 0x1_0000_0000
  }

  /** A target address in the slot. */
  function TargetForSlot(offset: u32): (a: u32)
    requires FitsSlot(offset, 1, 1)
    ensures SlotOffset(a) == offset
  {
    if offset == 0 then 0 else if offset == 0xA0_0000 then 0x1000_0000 else 0x2000_0000
  }

  /** Blocks of one upload in some order, no more than it has, each with some buffer behind it. */
  predicate Arrangement(f: Flash, fam: Family, offset: u32, count: nat, size: nat, bs: seq<Block>) {
    |bs| <= count && forall b | b in bs :: OfUpload(b, offset, count, size) && Acceptable(f.session, fam, b)
  }

  /** The record an upload's first block sets up. */
  function Fresh(fam: Family, offset: u32, count: u32, size: u32): Session {
    Session(true, count, 0, offset, fam.Bitstreams?, size)
  }

  lemma BegunAlike(f: Flash, fam: Family, b: Block, c: Block, offset: u32, count: nat, size: nat)
    requires FitsSlot(offset, count, size) && !f.session.inProgress
    requires OfUpload(b, offset, count, size) && OfUpload(c, offset, count, size)
    ensures Begun(f, fam, b) == Begun(f, fam, c) && Begun(f, fam, b).session == Fresh(fam, offset, count, size)
  {
    assert FileSize(b) == FileSize(c);
  }

  lemma PlaceOfBlock(s: Session, b: Block, offset: u32, count: nat, size: nat)
    requires FitsSlot(offset, count, size) && OfUpload(b, offset, count, size)
    requires s.offset == offset && s.blockSize == size
    ensures offset + b.blockNo * size < 0x1_0000_0000 && TargetOf(s, b) == offset + b.blockNo * size
    ensures Rounds(TargetOf(s, b), 0, b.payloadSize) == PagedWrite(PagedLen(offset + b.blockNo * size, size), true)
    ensures WriteInSector(s, b) <==> InSector(offset, size, b.blockNo)
  {
    PayloadInside(count, size, b.blockNo);
    TargetAt(s, b, b.blockNo * size);
    WriteBelowTop(offset + b.blockNo * size, size);
  }

  lemma TargetAt(s: Session, b: Block, p: nat)
    requires p == b.blockNo * s.blockSize && s.offset + p < 0x1_0000_0000
    ensures TargetOf(s, b) == s.offset + p
  {}

  lemma WriteBelowTop(place: u32, size: nat)
    requires place + size <= 0x8000_0000
    ensures Rounds(place, 0, size) == PagedWrite(PagedLen(place, size), true)
  {
    PagedWriteResult(place, size);
    PagedLenExact(place, size);
  }

  lemma FileSizeOfUpload(b: Block, offset: u32, count: nat, size: nat)
    requires FitsSlot(offset, count, size) && OfUpload(b, offset, count, size)
    ensures FileSize(b) == count * size
  {
    assert b.payloadSize * b.numBlocks == count * size;
  }

  /** Such a block can be handled exactly when its write stays in the buffer. */
  lemma AcceptableOfUpload(s: Session, fam: Family, b: Block, offset: u32, count: nat, size: nat)
    requires FitsSlot(offset, count, size) && OfUpload(b, offset, count, size)
    requires s.inProgress ==> s.offset == offset && s.blockSize == size
    ensures offset + b.blockNo * size < 0x1_0000_0000
    ensures Acceptable(s, fam, b) <==> PagedLen(offset + b.blockNo * size, size) <= |b.src|
  {
    PlaceOfBlock(Opened(s, fam, b), b, offset, count, size);
    PagedLenExact(offset + b.blockNo * size, size);
    FileSizeOfUpload(b, offset, count, size);
  }

  /** The write of b stays in the buffer it came in. */
  predicate FitsBuffer(offset: u32, size: nat, b: Block) {
    var place := offset + b.blockNo * size;
    place < 0x1_0000_0000 && PagedLen(place, size) <= |b.src|
  }

  lemma AcceptableFits(s: Session, fam: Family, b: Block, offset: u32, count: nat, size: nat)
    requires FitsSlot(offset, count, size) && OfUpload(b, offset, count, size)
    requires s.inProgress ==> s.offset == offset && s.blockSize == size
    ensures Acceptable(s, fam, b) <==> FitsBuffer(offset, size, b)
  {
    AcceptableOfUpload(s, fam, b, offset, count, size);
  }

  lemma AcceptKeepsPlace(f: Flash, fam: Family, b: Block, offset: u32, count: nat, size: nat)
    requires OfUpload(b, offset, count, size)
    requires f.session.inProgress ==> f.session.offset == offset && f.session.blockSize == size
    ensures Accept(f, fam, b).session.offset == offset && Accept(f, fam, b).session.blockSize == size
  {
    AcceptSession(f, fam, b);
  }

  /** A run of blocks of one upload can be handled exactly when every write stays in its buffer. */
  lemma {:induction false} AdmissibleUpload(f: Flash, fam: Family, offset: u32, count: nat, size: nat, bs: seq<Block>)
    requires FitsSlot(offset, count, size) && forall b | b in bs :: OfUpload(b, offset, count, size)
    requires f.session.inProgress ==> f.session.offset == offset && f.session.blockSize == size
    ensures AdmissibleChip(f, fam, bs) <==> forall b | b in bs :: FitsBuffer(offset, size, b)
    decreases bs
  {
    if bs != [] {
      var f1 := Accept(f, fam, bs[0]);
      AcceptableFits(f.session, fam, bs[0], offset, count, size);
      AcceptKeepsPlace(f, fam, bs[0], offset, count, size);
      assert forall b | b in bs[1..] :: b in bs;
      AdmissibleUpload(f1, fam, offset, count, size, bs[1..]);
      assert forall b | b in bs :: b == bs[0] || b in bs[1..];
    }
  }

  /** Order independence where all writes stay in their sectors. */
  lemma OrderNeverMatters(f: Flash, fam: Family, offset: u32, count: nat, size: nat, bs: seq<Block>, cs: seq<Block>)
    requires FitsSlot(offset, count, size) && !f.session.inProgress
    requires Arrangement(f, fam, offset, count, size, bs) && Arrangement(f, fam, offset, count, size, cs)
    requires |bs| == |cs| && SameBlocks(AllBare(bs), AllBare(cs))
    requires forall b | b in bs || b in cs :: InSector(offset, size, b.blockNo)
    ensures RunChip(f, fam, bs) == RunChip(f, fam, cs)
  {
    if bs != [] {
      assert bs[0] in bs && cs[0] in cs;
      RunFromIdle(f, fam, bs);
      RunFromIdle(f, fam, cs);
      BegunAlike(f, fam, bs[0], cs[0], offset, count, size);
      var g := Begun(f, fam, bs[0]);
      forall b | b in bs || b in cs
        ensures WriteInSector(g.session, b) && Acceptable(g.session, fam, b)
      {
        BlockInSector(g.session, fam, b, offset, count, size);
      }
      OpenSessionOrder(g, fam, bs, cs);
    }
  }

  lemma BlockInSector(s: Session, fam: Family, b: Block, offset: u32, count: nat, size: nat)
    requires FitsSlot(offset, count, size) && OfUpload(b, offset, count, size) && InSector(offset, size, b.blockNo)
    requires s.offset == offset && s.blockSize == size
    ensures WriteInSector(s, b) && Acceptable(s, fam, b)
  {
    PlaceOfBlock(s, b, offset, count, size);
    AcceptableOfUpload(s, fam, b, offset, count, size);
  }
}
