/** Uploading a whole image: what the flash holds after any of its blocks, in any order. */
module UploadImage {
  import opened Bytes
  import opened FlashMemory
  import opened FlashDriver
  import opened Uf2
  import opened UploadSizes
  import opened UploadSpec
  import opened UploadOrder

  /** An image cut into `count` payloads of `size` bytes, meant for the slot at `offset`. */
  datatype Image = Image(offset: u32, count: nat, size: nat, data: seq<byte>) {
    /** The image fits in its 10 MiB slot. */
    predicate Fits() {
      FitsSlot(offset, count, size) && |data| == count * size
    }

    /** And every payload is written exactly. */
    predicate Valid() {
      Fits() && size <= 256 && (256 % size == 0 || |data| <= 256)
    }

    function Payload(n: nat): (p: seq<byte>)
      requires Fits() && n < count
      ensures |p| == size
    {
      PayloadInside(count, size, n);
      data[n * size..n * size + size]
    }

    /** The block carries one payload of this image. */
    predicate Carried(b: Block)
      requires Fits()
    {
      && OfUpload(b, offset, count, size) && size <= |b.src| && b.src[..size] == Payload(b.blockNo)
    }

    /** Bytes erased for the image. */
    function Erased(): nat {
      RoundUp(|data|)
    }
  }

  /**
   The memory after the blocks numbered in `got`: their payloads, 0xFF in the rest of the erased
   range, and everything else as it was.
   */
  ghost function Partial(u: Image, before: Memory, got: set<nat>): (r: Memory)
    requires u.Valid()
    ensures forall i {:trigger r[i]} | 0 <= i < 0x1_0000_0000 :: r[i] == PartialAt(u, before, got, i)
  {
    seq(0x1_0000_0000, i requires 0 <= i < 0x1_0000_0000 => PartialAt(u, before, got, i))
  }

  ghost function PartialAt(u: Image, before: Memory, got: set<nat>, i: u32): byte
    requires u.Valid()
  {
    var d := Dist(u.offset, i);
    if d >= u.Erased() then before[i]
    else if d < |u.data| && d / u.size in got then u.data[d]
    else 0xFF
  }

  lemma NothingYet(u: Image, before: Memory)
    requires u.Valid()
    ensures Partial(u, before, {}) == Erase(before, u.offset, u.Erased())
  {
    var l, r := Partial(u, before, {}), Erase(before, u.offset, u.Erased());
    assert forall i {:trigger l[i]} | 0 <= i < 0x1_0000_0000 :: l[i] == r[i];
  }

  /** Position d lies in payload n exactly when n is d divided by the payload size. */
  lemma PayloadOf(d: nat, size: nat, n: nat)
    requires size > 0
    ensures n * size <= d < n * size + size <==> d / size == n
  {
    var q, r := d / size, d % size;
    assert d == q * size + r;
    if q < n { assert (q + 1) * size <= n * size; }
    if q > n { assert (n + 1) * size <= q * size; }
  }

  /** Programming payload n adds n to what has arrived, whether or not it had arrived before. */
  lemma PayloadArrives(u: Image, before: Memory, got: set<nat>, n: nat)
    requires u.Valid() && n < u.count
    ensures u.offset + n * u.size < 0x1_0000_0000
    ensures Program(Partial(u, before, got), u.offset + n * u.size, u.Payload(n)) == Partial(u, before, got + {n})
  {
    PayloadInside(u.count, u.size, n);
    var start := u.offset + n * u.size;
    var l, r := Program(Partial(u, before, got), start, u.Payload(n)), Partial(u, before, got + {n});
    forall i | 0 <= i < 0x1_0000_0000
      ensures l[i] == r[i]
    {
      ByteArrives(u, before, got, n, n * u.size, i);
    }
  }

  lemma ByteArrives(u: Image, before: Memory, got: set<nat>, n: nat, p: nat, i: u32)
    requires u.Valid() && n < u.count && p == n * u.size && p + u.size <= |u.data|
    ensures PartialAt(u, before, got + {n}, i)
         == var was, k := PartialAt(u, before, got, i), Dist(u.offset + p, i);
            if k < u.size then was & u.data[p + k] else was
  {
    var d := Dist(u.offset, i);
    PayloadOf(d, u.size, n);
    assert Dist(u.offset + p, i) == if d >= p then d - p else d - p + 0x1_0000_0000;
  }

  // ---------------------------------------------------------------- one block of the image

  /** The session record after all but `left` blocks have been counted. */
  function Record(u: Image, fam: Family, left: nat): (s: Session)
    requires left < 0x1_0000_0000 && u.Valid()
  {
    Session(left != 0, left, 0, u.offset, fam.Bitstreams?, u.size)
  }

  lemma TargetInSlot(u: Image, s: Session, b: Block)
    requires u.Fits() && u.Carried(b) && s.offset == u.offset && s.blockSize == u.size
    ensures 0 <= b.blockNo * u.size <= b.blockNo * u.size + u.size <= |u.data|
    ensures TargetOf(s, b) == u.offset + b.blockNo * u.size
  {
    PayloadInside(u.count, u.size, b.blockNo);
  }

  /** Every block of the image goes to its own place, in one exact, accepted write. */
  lemma BlockPlacement(u: Image, s: Session, b: Block)
    requires u.Valid() && u.Carried(b) && s.offset == u.offset && s.blockSize == u.size
    ensures u.offset + b.blockNo * u.size < 0x1_0000_0000
    ensures TargetOf(s, b) == u.offset + b.blockNo * u.size
    ensures Rounds(TargetOf(s, b), 0, b.payloadSize) == PagedWrite(u.size, true)
    ensures FileSize(b) == |u.data|
  {
    TargetInSlot(u, s, b);
    PlaceInSlot(u, b.blockNo, b.blockNo * u.size);
    FileSizeOfUpload(b, u.offset, u.count, u.size);
  }

  lemma PlaceInSlot(u: Image, n: nat, d: nat)
    requires u.Valid() && d == n * u.size && d + u.size <= |u.data|
    ensures Rounds(u.offset + d, 0, u.size) == PagedWrite(u.size, true)
  {
    if |u.data| <= 256 {
      FirstPageOfSlot(u.offset, d);
      WriteInPage(u.offset + d, u.size);
    } else {
      MultipleOfSize(u.size, u.offset, n);
      AlignedWrite(u.offset + d, u.size);
    }
  }

  /** So every block of the image can be handled. */
  lemma BlockAcceptable(u: Image, s: Session, fam: Family, b: Block)
    requires u.Valid() && u.Carried(b)
    requires !s.inProgress || (s.offset == u.offset && s.blockSize == u.size)
    ensures Acceptable(s, fam, b)
  {
    BlockPlacement(u, Opened(s, fam, b), b);
  }

  /** Writing a block of the image adds its number to what has arrived. */
  lemma BlockWritten(u: Image, s: Session, b: Block, before: Memory, got: set<nat>)
    requires u.Valid() && u.Carried(b) && s.offset == u.offset && s.blockSize == u.size
    ensures Written(Partial(u, before, got), TargetOf(s, b), b) == Partial(u, before, got + {b.blockNo})
    ensures FileSize(b) == |u.data|
  {
    BlockPlacement(u, s, b);
    PayloadArrives(u, before, got, b.blockNo);
  }

  /** The session once it is open, with `left` blocks to come, this one included. */
  function Running(u: Image, fam: Family, left: u32): Session
    requires u.Valid()
  {
    Session(true, left, 0, u.offset, fam.Bitstreams?, u.size)
  }

  lemma AcceptForm(f: Flash, fam: Family, b: Block, s: Session, m: Memory)
    requires Opened(f.session, fam, b) == s && Prepared(f, b) == m
    ensures Accept(f, fam, b) == Flash(Written(m, TargetOf(s, b), b), Counted(s))
  {}

  lemma CountedRunning(u: Image, fam: Family, left: u32)
    requires u.Valid() && left > 0
    ensures Counted(Running(u, fam, left)) == Record(u, fam, left - 1)
  {}

  lemma PreparedFirst(u: Image, f: Flash, fam: Family, b: Block)
    requires u.Valid() && u.Carried(b) && !f.session.inProgress
    ensures Opened(f.session, fam, b) == Running(u, fam, u.count)
    ensures Prepared(f, b) == Partial(u, f.mem, {})
  {
    FileSizeOfUpload(b, u.offset, u.count, u.size);
    NothingYet(u, f.mem);
  }

  lemma AcceptFirst(u: Image, f: Flash, fam: Family, b: Block)
    requires u.Valid() && u.Carried(b) && !f.session.inProgress
    ensures Accept(f, fam, b) == Flash(Partial(u, f.mem, {b.blockNo}), Record(u, fam, u.count - 1))
  {
    var s := Running(u, fam, u.count);
    PreparedFirst(u, f, fam, b);
    AcceptForm(f, fam, b, s, Partial(u, f.mem, {}));
    BlockWritten(u, s, b, f.mem, {});
    CountedRunning(u, fam, u.count);
    assert {} + {b.blockNo} == {b.blockNo};
  }

  lemma AcceptNext(u: Image, f: Flash, fam: Family, b: Block, before: Memory, got: set<nat>, left: nat)
    requires u.Valid() && u.Carried(b) && 0 < left < 0x1_0000_0000
    requires f == Flash(Partial(u, before, got), Record(u, fam, left))
    ensures Accept(f, fam, b) == Flash(Partial(u, before, got + {b.blockNo}), Record(u, fam, left - 1))
  {
    var s := Running(u, fam, left);
    AcceptForm(f, fam, b, s, Partial(u, before, got));
    BlockWritten(u, s, b, before, got);
    CountedRunning(u, fam, left);
  }

  // ---------------------------------------------------------------- any blocks of the image

  function Numbers(bs: seq<Block>): set<nat> {
    set i | 0 <= i < |bs| :: bs[i].blockNo
  }

  lemma NumbersOfRest(bs: seq<Block>)
    requires bs != []
    ensures Numbers(bs) == {bs[0].blockNo} + Numbers(bs[1..])
  {
    assert bs == [bs[0]] + bs[1..];
    forall n | n in Numbers(bs)
      ensures n in {bs[0].blockNo} + Numbers(bs[1..])
    {
      var i :| 0 <= i < |bs| && bs[i].blockNo == n;
      if i > 0 { assert bs[1..][i - 1].blockNo == n; }
    }
    forall n | n in Numbers(bs[1..])
      ensures n in Numbers(bs)
    {
      var i :| 0 <= i < |bs[1..]| && bs[1..][i].blockNo == n;
      assert bs[i + 1].blockNo == n;
    }
  }

  lemma NumbersWithRest(bs: seq<Block>, got: set<nat>)
    requires bs != []
    ensures got + Numbers(bs) == got + {bs[0].blockNo} + Numbers(bs[1..])
  {
    NumbersOfRest(bs);
  }

  lemma RunNextBlock(u: Image, fam: Family, bs: seq<Block>, before: Memory, got: set<nat>, left: nat)
    requires u.Valid() && bs != [] && u.Carried(bs[0]) && 0 < left < 0x1_0000_0000
    ensures RunChip(Flash(Partial(u, before, got), Record(u, fam, left)), fam, bs) ==
            RunChip(Flash(Partial(u, before, got + {bs[0].blockNo}), Record(u, fam, left - 1)), fam, bs[1..])
  {
    var f := Flash(Partial(u, before, got), Record(u, fam, left));
    AcceptNext(u, f, fam, bs[0], before, got, left);
  }

  lemma {:induction false} RunNext(u: Image, fam: Family, bs: seq<Block>, before: Memory, got: set<nat>, left: nat)
    requires u.Valid() && (forall b | b in bs :: u.Carried(b)) && |bs| <= left < 0x1_0000_0000
    ensures RunChip(Flash(Partial(u, before, got), Record(u, fam, left)), fam, bs) ==
            Flash(Partial(u, before, got + Numbers(bs)), Record(u, fam, left - |bs|))
    decreases bs
  {
    if bs == [] {
      assert got + Numbers(bs) == got;
    } else {
      RunNextBlock(u, fam, bs, before, got, left);
      RunNext(u, fam, bs[1..], before, got + {bs[0].blockNo}, left - 1);
      NumbersWithRest(bs, got);
    }
  }

  /**
   Mid-session: after any blocks of one image, in any order and with repeats, not more than it has
   in all, the chip holds what arrived, 0xFF where the rest belongs, and what it held before
   elsewhere; the record counts the blocks still missing, and the session is over when none is.
   */
  lemma MidSession(u: Image, f: Flash, fam: Family, bs: seq<Block>)
    requires u.Valid() && (forall b | b in bs :: u.Carried(b)) && 1 <= |bs| <= u.count && !f.session.inProgress
    ensures RunChip(f, fam, bs) == Flash(Partial(u, f.mem, Numbers(bs)), Record(u, fam, u.count - |bs|))
  {
    AcceptFirst(u, f, fam, bs[0]);
    RunNext(u, fam, bs[1..], f.mem, {bs[0].blockNo}, u.count - 1);
    NumbersOfRest(bs);
  }

  /**
   Of the flash behind the image only the rest of the last 64 KiB block it reaches into is erased; every byte
   in another block keeps its value.
   */
  lemma ErasedBlocksExactly(u: Image, f: Flash, fam: Family, bs: seq<Block>, i: u32)
    requires u.Valid() && (forall b | b in bs :: u.Carried(b)) && 1 <= |bs| <= u.count && !f.session.inProgress
    requires Dist(u.offset, i) >= |u.data|
    ensures RunChip(f, fam, bs).mem[i]
         == if Dist(u.offset, i) / 65536 <= (|u.data| - 1) / 65536 then 0xFF else f.mem[i]
  {
    MidSession(u, f, fam, bs);
    RoundUpBlocks(|u.data|, Dist(u.offset, i));
  }

  // ---------------------------------------------------------------- all blocks of the image

  /** The numbers below n. */
  function UpTo(n: nat): set<nat> {
    if n == 0 then {} else UpTo(n - 1) + {n - 1}
  }

  lemma {:induction false} UpToMeaning(n: nat)
    ensures |UpTo(n)| == n
    ensures forall i: nat :: i in UpTo(n) <==> i < n
  {
    if n > 0 { UpToMeaning(n - 1); }
  }

  ghost predicate Distinct(bs: seq<Block>) {
    forall i, j | 0 <= i < j < |bs| :: bs[i].blockNo != bs[j].blockNo
  }

  /** These are all blocks of the image, each once. */
  ghost predicate AllOf(u: Image, bs: seq<Block>)
    requires u.Fits()
  {
    (forall b | b in bs :: u.Carried(b)) && |bs| == u.count && Distinct(bs)
  }

  lemma {:induction false} DistinctNumbers(bs: seq<Block>)
    requires Distinct(bs)
    ensures |Numbers(bs)| == |bs|
  {
    if bs != [] {
      DistinctNumbers(bs[1..]);
      NumbersOfRest(bs);
      assert bs[0].blockNo !in Numbers(bs[1..]);
    }
  }

  lemma SubsetOfSameSize(a: set<nat>, b: set<nat>)
    requires a <= b && |a| == |b|
    ensures a == b
  {
    assert |b - a| == 0;
  }

  /** As many distinct blocks as the image has are all of them. */
  lemma AllArrived(u: Image, bs: seq<Block>)
    requires u.Fits() && AllOf(u, bs)
    ensures Numbers(bs) == UpTo(u.count)
  {
    DistinctNumbers(bs);
    UpToMeaning(u.count);
    forall n | n in Numbers(bs)
      ensures n in UpTo(u.count)
    {
      var i :| 0 <= i < |bs| && bs[i].blockNo == n;
      assert bs[i] in bs;
    }
    SubsetOfSameSize(Numbers(bs), UpTo(u.count));
  }

  /** The memory with the whole image in it. */
  ghost function Complete(u: Image, before: Memory): Memory
    requires u.Valid()
  {
    Partial(u, before, UpTo(u.count))
  }

  lemma ByteOfPartial(u: Image, before: Memory, got: set<nat>, d: nat)
    requires u.Valid() && d < |u.data|
    ensures Partial(u, before, got)[Above(u.offset, d)] == if d / u.size in got then u.data[d] else 0xFF
  {
    assert Dist(u.offset, Above(u.offset, d)) == d;
  }

  lemma PayloadByteOfPartial(u: Image, before: Memory, got: set<nat>, n: nat, k: nat, d: nat)
    requires u.Valid() && n in got && n < u.count && k < u.size && d == n * u.size + k < |u.data|
    ensures Partial(u, before, got)[Above(u.offset, d)] == u.Payload(n)[k]
  {
    PayloadInside(u.count, u.size, n);
    PayloadOf(d, u.size, n);
    ByteOfPartial(u, before, got, d);
  }

  lemma ReadPartial(u: Image, before: Memory, got: set<nat>, n: nat)
    requires u.Valid() && n in got && n < u.count
    ensures u.offset + n * u.size < 0x1_0000_0000
    ensures Read(Partial(u, before, got), u.offset + n * u.size, u.size) == u.Payload(n)
  {
    PayloadInside(u.count, u.size, n);
    var start := u.offset + n * u.size;
    var m := Partial(u, before, got);
    forall k | 0 <= k < u.size
      ensures m[Above(start, k)] == u.Payload(n)[k]
    {
      var d := n * u.size + k;
      PayloadByteOfPartial(u, before, got, n, k, d);
      assert Above(start, k) == Above(u.offset, d);
    }
  }

  lemma InsideCount(d: nat, size: nat, count: nat)
    requires size > 0 && d < count * size
    ensures d / size < count
  {
    PayloadOf(d, size, d / size);
    LessByFactor(d / size, count, size);
  }

  /** Every byte of a payload that is not among `got` looks like erased flash. */
  ghost predicate RestBlank(u: Image, got: set<nat>)
    requires u.Valid()
  {
    forall d: nat | d < |u.data| && d / u.size !in got :: u.data[d] == 0xFF
  }

  /** What reading the slot gives while some payloads are missing. */
  ghost predicate ReadsAs(u: Image, got: set<nat>, read: seq<byte>)
    requires u.Valid()
  {
    |read| == |u.data| && forall d: nat | d < |u.data| :: read[d] == if d / u.size in got then u.data[d] else 0xFF
  }

  lemma SlotReadsAs(u: Image, before: Memory, got: set<nat>)
    requires u.Valid()
    ensures ReadsAs(u, got, Read(Partial(u, before, got), u.offset, |u.data|))
  {
    var read := Read(Partial(u, before, got), u.offset, |u.data|);
    forall d: nat | d < |u.data|
      ensures read[d] == if d / u.size in got then u.data[d] else 0xFF
    {
      ByteOfPartial(u, before, got, d);
    }
  }

  lemma PartialReadsImage(u: Image, before: Memory, got: set<nat>)
    requires u.Valid()
    ensures Read(Partial(u, before, got), u.offset, |u.data|) == u.data <==> RestBlank(u, got)
  {
    var read := Read(Partial(u, before, got), u.offset, |u.data|);
    SlotReadsAs(u, before, got);
    assert RestBlank(u, got) ==> forall d: nat | d < |u.data| :: read[d] == u.data[d];
  }

  lemma NothingMissing(u: Image)
    requires u.Valid()
    ensures RestBlank(u, UpTo(u.count))
  {
    forall d: nat | d < |u.data|
      ensures d / u.size in UpTo(u.count)
    {
      ByteInUpTo(d, u.size, u.count);
    }
  }

  lemma ByteInUpTo(d: nat, size: nat, count: nat)
    requires size > 0 && d < count * size
    ensures d / size in UpTo(count)
  {
    InsideCount(d, size, count);
    UpToMeaning(count);
  }

  /** The whole image can be read back. */
  lemma CompleteRead(u: Image, before: Memory)
    requires u.Valid()
    ensures Read(Complete(u, before), u.offset, |u.data|) == u.data
  {
    NothingMissing(u);
    PartialReadsImage(u, before, UpTo(u.count));
  }

  lemma ErasedInSlot(u: Image)
    requires u.Valid()
    ensures |u.data| <= u.Erased() <= 0xA0_0000
  {}

  /** The other two slots keep their contents, whatever blocks of the image have arrived. */
  lemma OtherSlotsKept(u: Image, before: Memory, got: set<nat>, slot: nat)
    requires u.Valid() && slot < 3 && SLOTS[slot] != u.offset
    ensures Read(Partial(u, before, got), SLOTS[slot], 0xA0_0000) == Read(before, SLOTS[slot], 0xA0_0000)
  {
    ErasedInSlot(u);
    var m := Partial(u, before, got);
    forall k | 0 <= k < 0xA0_0000
      ensures m[Above(SLOTS[slot], k)] == before[Above(SLOTS[slot], k)]
    {
      assert SLOTS[slot] == 0 || SLOTS[slot] == 0xA0_0000 || SLOTS[slot] == 0x140_0000;
      assert Dist(u.offset, Above(SLOTS[slot], k)) >= 0xA0_0000;
    }
  }

  /**
   A complete upload: from an idle session and any flash contents, every order of the image's
   blocks ends with the same chip: the image in its slot and the session closed.
   */
  lemma CompleteUpload(u: Image, f: Flash, fam: Family, bs: seq<Block>)
    requires u.Valid() && AllOf(u, bs) && !f.session.inProgress
    ensures RunChip(f, fam, bs) == Flash(Complete(u, f.mem), Record(u, fam, 0))
    ensures Read(RunChip(f, fam, bs).mem, u.offset, |u.data|) == u.data
  {
    MidSession(u, f, fam, bs);
    AllArrived(u, bs);
    CompleteRead(u, f.mem);
  }

  /**
   Sessions close by counting, so repeats can close one early. When as many blocks have come as the
   image has, the image is in flash exactly when every payload that never came is blank anyway.
   */
  lemma CompleteExactlyWhen(u: Image, f: Flash, fam: Family, bs: seq<Block>)
    requires u.Valid() && (forall b | b in bs :: u.Carried(b)) && |bs| == u.count && !f.session.inProgress
    ensures !RunChip(f, fam, bs).session.inProgress
    ensures Read(RunChip(f, fam, bs).mem, u.offset, |u.data|) == u.data <==> RestBlank(u, Numbers(bs))
  {
    MidSession(u, f, fam, bs);
    PartialReadsImage(u, f.mem, Numbers(bs));
  }
}
