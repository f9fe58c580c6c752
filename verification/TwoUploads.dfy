/**
 A bitstream and a firmware upload at once, in any interleaving and cut into buffers anywhere. Every firmware
 upload that ends boots the FPGA from whatever the bitstream flash holds by then, so the handler's needs
 turn on the headers that a half-written image shows.
 */
module TwoUploads {
  import opened Bytes
  import opened FlashMemory
  import opened FlashDriver
  import opened Uf2
  import opened Bitstream
  import opened UploadSpec
  import opened UploadRuns
  import opened UploadImage

  // ---------------------------------------------------------------- how far an upload is

  /** The flash before it, the blocks received, and how many are still to come. */
  datatype Progress = Progress(before: Memory, got: set<nat>, left: nat) {
    function Plus(n: nat): Progress
      requires left > 0
    {
      Progress(before, got + {n}, left - 1)
    }

    function PlusAll(bs: seq<Block>): Progress
      requires |bs| <= left
    {
      Progress(before, got + Numbers(bs), left - |bs|)
    }
  }

  ghost predicate Uploading(u: Image, fam: Family, f: Flash, p: Progress)
    requires u.Valid()
  {
    && p.left <= u.count
    && (p.left == u.count ==> !f.session.inProgress && f.mem == p.before && p.got == {})
    && (p.left < u.count ==> f == Flash(Partial(u, p.before, p.got), Record(u, fam, p.left)))
  }

  lemma UploadingNext(u: Image, fam: Family, f: Flash, p: Progress, b: Block)
    requires u.Valid() && Uploading(u, fam, f, p) && u.Carried(b) && p.left > 0
    ensures Uploading(u, fam, Accept(f, fam, b), p.Plus(b.blockNo))
    ensures Acceptable(f.session, fam, b)
  {
    BlockAcceptable(u, f.session, fam, b);
    if p.left == u.count {
      AcceptFirst(u, f, fam, b);
      assert p.got + {b.blockNo} == {b.blockNo};
    } else {
      AcceptNext(u, f, fam, b, p.before, p.got, p.left);
    }
  }

  /** No more blocks of the image than are to come. */
  ghost predicate Expected(u: Image, p: Progress, bs: seq<Block>)
    requires u.Valid()
  {
    |bs| <= p.left && forall b | b in bs :: u.Carried(b)
  }

  lemma PlusFirst(p: Progress, bs: seq<Block>)
    requires bs != [] && |bs| <= p.left
    ensures p.PlusAll(bs) == p.Plus(bs[0].blockNo).PlusAll(bs[1..])
  {
    NumbersWithRest(bs, p.got);
  }

  lemma PlusConcat(p: Progress, a: seq<Block>, b: seq<Block>)
    requires |a| + |b| <= p.left
    ensures p.PlusAll(a + b) == p.PlusAll(a).PlusAll(b)
  {
    NumbersConcat(a, b);
  }

  lemma {:induction false} NumbersConcat(a: seq<Block>, b: seq<Block>)
    ensures Numbers(a + b) == Numbers(a) + Numbers(b)
    decreases a
  {
    if a == [] {
      assert a + b == b;
    } else {
      assert (a + b)[0] == a[0] && (a + b)[1..] == a[1..] + b;
      NumbersOfRest(a + b);
      NumbersOfRest(a);
      NumbersConcat(a[1..], b);
    }
  }

  // ---------------------------------------------------------------- no error reports

  lemma StepReports(d: Dev, fam: Family, b: Block)
    ensures Step(d, fam, b).reports
         == d.reports + ReportsOf(Accept(d.Of(fam), fam, b).mem, TargetOf(Opened(d.Of(fam).session, fam, b), b), b)
  {}

  lemma PartialReportsNothing(u: Image, s: Session, before: Memory, got: set<nat>, b: Block)
    requires u.Valid() && u.Carried(b) && s.offset == u.offset && s.blockSize == u.size && b.blockNo in got
    ensures ReportsOf(Partial(u, before, got), TargetOf(s, b), b) == []
  {
    BlockPlacement(u, s, b);
    ReadPartial(u, before, got, b.blockNo);
  }

  /** A block of a consistent upload is programmed and read back without an error report. */
  lemma BlockReportsNothing(u: Image, d: Dev, fam: Family, p: Progress, b: Block)
    requires u.Valid() && Uploading(u, fam, d.Of(fam), p) && u.Carried(b) && p.left > 0
    ensures Step(d, fam, b).reports == d.reports
  {
    StepReports(d, fam, b);
    UploadingNext(u, fam, d.Of(fam), p, b);
    assert Accept(d.Of(fam), fam, b).mem == Partial(u, p.before, p.got + {b.blockNo});
    PartialReportsNothing(u, Opened(d.Of(fam).session, fam, b), p.before, p.got + {b.blockNo}, b);
  }

  lemma CleanBlock(u: Image, d: Dev, fam: Family, p: Progress, b: Block)
    requires u.Valid() && Uploading(u, fam, d.Of(fam), p) && u.Carried(b) && p.left > 0
    ensures Uploading(u, fam, Step(d, fam, b).Of(fam), p.Plus(b.blockNo))
    ensures Step(d, fam, b).Of(Other(fam)) == d.Of(Other(fam)) && Step(d, fam, b).pins == d.pins
    ensures Step(d, fam, b).reports == d.reports
    ensures StepDefined(d, fam, b) <==> (!Step(d, fam, b).Of(fam).session.inProgress ==> BootDefined(Step(d, fam, b)))
  {
    StepIsLocal(d, fam, b);
    UploadingNext(u, fam, d.Of(fam), p, b);
    BlockReportsNothing(u, d, fam, p, b);
  }

  // ---------------------------------------------------------------- the header of a half-written image

  /**
   Sync words in the first 256 bytes of the image before which their own payload holds only filler. Once
   the payloads with the sync words are there and those before them are not, the flash is filler up to the sync.
   */
  predicate SyncBehindFiller(u: Image, s: nat)
    requires u.Valid()
  {
    1 <= s < 248 && SyncAt(u.data, s) && forall i: nat | i < s && i / u.size == s / u.size :: u.data[i] == 0xFF
  }

  ghost predicate HeaderSurvives(u: Image)
    requires u.Valid()
  {
    forall s: nat :: !SyncBehindFiller(u, s)
  }

  lemma WindowByte(u: Image, before: Memory, got: set<nat>, k: nat)
    requires u.Valid() && k < 256
    ensures Window(Partial(u, before, got), u.offset)[k]
         == if k < |u.data| && k / u.size in got then u.data[k] else 0xFF
  {
    assert Dist(u.offset, Above(u.offset, k)) == k;
  }

  lemma SyncByte(w: seq<byte>, s: nat, i: nat)
    requires SyncAt(w, s) && s <= i < s + 8
    ensures w[i] == SYNC[i - s] != 0xFF
  {
    assert w[s..s + 8][i - s] == w[i];
  }

  /** Sync words in the window are the image's own, and have arrived. */
  lemma SyncArrived(u: Image, before: Memory, got: set<nat>, s: nat)
    requires u.Valid() && s + 8 <= 256 && SyncAt(Window(Partial(u, before, got), u.offset), s)
    ensures SyncAt(u.data, s) && s / u.size in got
  {
    var w := Window(Partial(u, before, got), u.offset);
    forall i: nat | s <= i < s + 8
      ensures i < |u.data| && i / u.size in got && u.data[i] == w[i]
    {
      SyncByte(w, s, i);
      WindowByte(u, before, got, i);
    }
    SyncByte(w, s, s + 7);
    WindowByte(u, before, got, s + 7);
    assert u.data[s..s + 8] == w[s..s + 8];
  }

  /** Every half-written image that would mislead the boot has its sync words behind filler. */
  lemma MisledBySync(u: Image, before: Memory, got: set<nat>)
    requires u.Valid() && !ScanInBounds(Window(Partial(u, before, got), u.offset))
    ensures !HeaderSurvives(u)
  {
    var w := Window(Partial(u, before, got), u.offset);
    ScanInBoundsExactly(w);
    var s: nat :| FillerThenSync(w, s);
    SyncArrived(u, before, got, s);
    forall i: nat | i < s && i / u.size == s / u.size
      ensures u.data[i] == 0xFF
    {
      WindowByte(u, before, got, i);
    }
    assert SyncBehindFiller(u, s);
  }

  /** The numbers of the payloads in which sync words at s lie. */
  function SyncPayloads(size: nat, s: nat): (r: set<nat>)
    requires size > 0
  {
    Between(s / size, (s + 7) / size)
  }

  function Between(lo: nat, hi: nat): (r: set<nat>)
    ensures forall n: nat :: n in r <==> lo <= n <= hi
  {
    UpToMeaning(hi + 1);
    UpToMeaning(lo);
    UpTo(hi + 1) - UpTo(lo)
  }

  lemma QuotientMonotone(i: nat, k: nat, size: nat)
    requires size > 0 && i <= k
    ensures i / size <= k / size
  {
    PayloadOf(i, size, i / size);
    PayloadOf(k, size, k / size);
    LessByFactor(i / size, k / size + 1, size);
  }

  lemma SyncMisleads(u: Image, before: Memory, s: nat)
    requires u.Valid() && SyncBehindFiller(u, s)
    ensures !ScanInBounds(Window(Partial(u, before, SyncPayloads(u.size, s)), u.offset))
  {
    var got := SyncPayloads(u.size, s);
    var w := Window(Partial(u, before, got), u.offset);
    forall i: nat | s <= i < s + 8
      ensures w[i] == u.data[i]
    {
      QuotientMonotone(s, i, u.size);
      QuotientMonotone(i, s + 7, u.size);
      WindowByte(u, before, got, i);
    }
    assert w[s..s + 8] == u.data[s..s + 8];
    forall i: nat | i < s
      ensures w[i] == 0xFF
    {
      WindowByte(u, before, got, i);
      QuotientMonotone(i, s, u.size);
    }
    assert FillerThenSync(w, s);
    ScanInBoundsExactly(w);
  }

  /** Exactly the images that can be booted from at any point of their upload. */
  lemma HeaderSurvivesExactly(u: Image, before: Memory)
    requires u.Valid()
    ensures (forall got: set<nat> :: ScanInBounds(Window(Partial(u, before, got), u.offset))) <==> HeaderSurvives(u)
  {
    if HeaderSurvives(u) {
      forall got: set<nat>
        ensures ScanInBounds(Window(Partial(u, before, got), u.offset))
      {
        if !ScanInBounds(Window(Partial(u, before, got), u.offset)) { MisledBySync(u, before, got); }
      }
    } else {
      var s: nat :| SyncBehindFiller(u, s);
      SyncMisleads(u, before, s);
    }
  }

  // ---------------------------------------------------------------- runs

  /** What may be asked of the host: images and flash contents that no boot on the way is misled by. */
  ghost predicate BootsSafe(u: Image, before: Memory, pins: seq<bool>)
    requires u.Valid()
  {
    && ScanInBounds(Window(before, SelectedOffset(pins)))
    && (u.offset == SelectedOffset(pins) ==> HeaderSurvives(u))
  }

  lemma WindowOfOtherSlot(u: Image, before: Memory, got: set<nat>, slot: nat)
    requires u.Valid() && slot < 3 && SLOTS[slot] != u.offset
    ensures Window(Partial(u, before, got), SLOTS[slot]) == Window(before, SLOTS[slot])
  {
    OtherSlotsKept(u, before, got, slot);
    var l, r := Read(Partial(u, before, got), SLOTS[slot], 0xA0_0000), Read(before, SLOTS[slot], 0xA0_0000);
    assert l[..256] == r[..256];
    ReadPrefix(Partial(u, before, got), SLOTS[slot], 256, 0xA0_0000);
    ReadPrefix(before, SLOTS[slot], 256, 0xA0_0000);
  }

  lemma ReadPrefix(m: Memory, addr: u32, n: nat, k: nat)
    requires n <= k <= 0x1_0000_0000
    ensures Read(m, addr, n) == Read(m, addr, k)[..n]
  {}

  lemma BootDuring(u: Image, d: Dev, p: Progress)
    requires u.Valid() && Uploading(u, Bitstreams, d.bitstream, p) && BootsSafe(u, p.before, d.pins)
    ensures BootDefined(d)
  {
    if p.left < u.count {
      if u.offset == SelectedOffset(d.pins) {
        HeaderSurvivesExactly(u, p.before);
      } else {
        WindowOfOtherSlot(u, p.before, p.got, SelectedSlot(d.pins));
      }
    }
  }

  ghost predicate BothUploading(u: Image, v: Image, d: Dev, p: Progress, q: Progress)
    requires u.Valid() && v.Valid()
  {
    Uploading(u, Bitstreams, d.bitstream, p) && Uploading(v, Firmware, d.firmware, q)
  }

  ghost predicate BothExpected(u: Image, v: Image, p: Progress, q: Progress, items: seq<Item>)
    requires u.Valid() && v.Valid()
  {
    Expected(u, p, Heard(Bitstreams, items)) && Expected(v, q, Heard(Firmware, items))
  }

  /** The only thing reported: the unknown file id that ends a call. */
  function IdReports(items: seq<Item>): seq<Report>
    decreases items
  {
    if items == [] then []
    else if items[0].Unknown? then [UnknownFile(items[0].id)]
    else IdReports(items[1..])
  }

  function IdReportsCalls(calls: seq<seq<Item>>): seq<Report>
    decreases calls
  {
    if calls == [] then [] else IdReports(calls[0]) + IdReportsCalls(calls[1..])
  }

  /** From d to d' both uploads have got on by the blocks heard, and this has been reported. */
  ghost predicate GotOn(u: Image, v: Image, d: Dev, d': Dev, p: Progress, q: Progress,
                        hb: seq<Block>, hf: seq<Block>, reported: seq<Report>)
    requires u.Valid() && v.Valid() && |hb| <= p.left && |hf| <= q.left
  {
    && BothUploading(u, v, d', p.PlusAll(hb), q.PlusAll(hf))
    && d'.pins == d.pins && d'.reports == d.reports + reported
  }

  lemma GotOnTwice(u: Image, v: Image, d: Dev, d1: Dev, d2: Dev, p: Progress, q: Progress,
                   hb: seq<Block>, hf: seq<Block>, r: seq<Report>, hb': seq<Block>, hf': seq<Block>, r': seq<Report>)
    requires u.Valid() && v.Valid() && |hb| + |hb'| <= p.left && |hf| + |hf'| <= q.left
    requires GotOn(u, v, d, d1, p, q, hb, hf, r) && GotOn(u, v, d1, d2, p.PlusAll(hb), q.PlusAll(hf), hb', hf', r')
    ensures GotOn(u, v, d, d2, p, q, hb + hb', hf + hf', r + r')
  {
    PlusConcat(p, hb, hb');
    PlusConcat(q, hf, hf');
  }

  /**
   Two uploads of consistent images at once, in any interleaving, with other sectors mixed in: no block is
   refused or reads back wrong, both uploads get on as if alone, and the handler can take every block.
   */
  lemma {:induction false} CleanRun(u: Image, v: Image, d: Dev, items: seq<Item>, p: Progress, q: Progress)
    requires u.Valid() && v.Valid() && BothUploading(u, v, d, p, q) && BothExpected(u, v, p, q, items)
    ensures GotOn(u, v, d, RunCall(d, items), p, q, Heard(Bitstreams, items), Heard(Firmware, items), IdReports(items))
    ensures BootsSafe(u, p.before, d.pins) ==> Admissible(d, items)
    decreases items
  {
    NothingPlus(p);
    NothingPlus(q);
    if items != [] && !items[0].Unknown? {
      var it, rest := items[0], items[1..];
      if it.Skipped? {
        CleanRun(u, v, d, rest, p, q);
      } else if it.fam.Bitstreams? {
        CleanBlock(u, d, Bitstreams, p, it.b);
        PlusFirst(p, Heard(Bitstreams, items));
        CleanRun(u, v, Step(d, Bitstreams, it.b), rest, p.Plus(it.b.blockNo), q);
        if BootsSafe(u, p.before, d.pins) { BootDuring(u, Step(d, Bitstreams, it.b), p.Plus(it.b.blockNo)); }
      } else {
        CleanBlock(v, d, Firmware, q, it.b);
        PlusFirst(q, Heard(Firmware, items));
        CleanRun(u, v, Step(d, Firmware, it.b), rest, p, q.Plus(it.b.blockNo));
        if BootsSafe(u, p.before, d.pins) { BootDuring(u, Step(d, Firmware, it.b), p); }
      }
    }
  }

  lemma NothingPlus(p: Progress)
    ensures p.PlusAll([]) == p
  {}

  ghost predicate BothExpectedCalls(u: Image, v: Image, p: Progress, q: Progress, calls: seq<seq<Item>>)
    requires u.Valid() && v.Valid()
  {
    Expected(u, p, HeardCalls(Bitstreams, calls)) && Expected(v, q, HeardCalls(Firmware, calls))
  }

  lemma ExpectedParts(u: Image, p: Progress, a: seq<Block>, b: seq<Block>)
    requires u.Valid() && Expected(u, p, a + b)
    ensures Expected(u, p, a) && Expected(u, p.PlusAll(a), b)
  {
    assert forall x | x in a :: x in a + b;
    assert forall x | x in b :: x in a + b;
  }

  /** The same over any number of buffers. */
  lemma {:induction false} CleanRuns(u: Image, v: Image, d: Dev, calls: seq<seq<Item>>, p: Progress, q: Progress)
    requires u.Valid() && v.Valid() && BothUploading(u, v, d, p, q) && BothExpectedCalls(u, v, p, q, calls)
    ensures GotOn(u, v, d, RunCalls(d, calls), p, q, HeardCalls(Bitstreams, calls), HeardCalls(Firmware, calls),
                  IdReportsCalls(calls))
    ensures BootsSafe(u, p.before, d.pins) ==> AdmissibleCalls(d, calls)
    decreases calls
  {
    NothingPlus(p);
    NothingPlus(q);
    if calls != [] {
      var hb, hf := Heard(Bitstreams, calls[0]), Heard(Firmware, calls[0]);
      var rb, rf := HeardCalls(Bitstreams, calls[1..]), HeardCalls(Firmware, calls[1..]);
      ExpectedParts(u, p, hb, rb);
      ExpectedParts(v, q, hf, rf);
      CleanRun(u, v, d, calls[0], p, q);
      var d1 := RunCall(d, calls[0]);
      CleanRuns(u, v, d1, calls[1..], p.PlusAll(hb), q.PlusAll(hf));
      GotOnTwice(u, v, d, d1, RunCalls(d, calls), p, q,
                 hb, hf, IdReports(calls[0]), rb, rf, IdReportsCalls(calls[1..]));
    }
  }
}
