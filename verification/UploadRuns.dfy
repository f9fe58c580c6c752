/**
 Whole runs of the upload handler: the two chips do not disturb each other, and buffer boundaries do not
 matter. These are statements about runs the handler can take, the admissible ones: for a block whose
 write would read past the whole buffer `UploadSpec` has nothing but a stand-in.
 */
module UploadRuns {
  import opened Bytes
  import opened FlashMemory
  import opened FlashDriver
  import opened Uf2
  import opened Bitstream
  import opened UploadSpec

  // ---------------------------------------------------------------- one chip's share of a run

  /** The blocks of one family that a call gets to, in order. */
  function Heard(fam: Family, items: seq<Item>): seq<Block>
    decreases items
  {
    if items == [] || items[0].Unknown? then []
    else if items[0].Data? && items[0].fam == fam then [items[0].b] + Heard(fam, items[1..])
    else Heard(fam, items[1..])
  }

  function HeardCalls(fam: Family, calls: seq<seq<Item>>): seq<Block>
    decreases calls
  {
    if calls == [] then [] else Heard(fam, calls[0]) + HeardCalls(fam, calls[1..])
  }

  lemma HeardFirst(fam: Family, it: Item, rest: seq<Item>)
    requires !it.Unknown?
    ensures Heard(fam, [it] + rest) == (if it.Data? && it.fam == fam then [it.b] else []) + Heard(fam, rest)
  {
    assert ([it] + rest)[1..] == rest;
  }

  function Other(fam: Family): Family {
    if fam.Bitstreams? then Firmware else Bitstreams
  }

  // What happens step by step, admissible or not.

  /** A block changes its own chip and session record as if it were alone, and the other chip and record not at all. */
  lemma StepIsLocal(d: Dev, fam: Family, b: Block)
    ensures Step(d, fam, b).Of(fam) == Accept(d.Of(fam), fam, b)
    ensures Step(d, fam, b).Of(Other(fam)) == d.Of(Other(fam))
    ensures Step(d, fam, b).pins == d.pins
  {}

  lemma {:induction false} RunIsLocal(d: Dev, items: seq<Item>, fam: Family)
    ensures RunCall(d, items).Of(fam) == RunChip(d.Of(fam), fam, Heard(fam, items))
    ensures RunCall(d, items).pins == d.pins
    decreases items
  {
    if items != [] && !items[0].Unknown? {
      if items[0].Data? { StepIsLocal(d, items[0].fam, items[0].b); }
      RunIsLocal(ItemStep(d, items[0]), items[1..], fam);
    }
  }

  lemma {:induction false} RunsAreLocal(d: Dev, calls: seq<seq<Item>>, fam: Family)
    ensures RunCalls(d, calls).Of(fam) == RunChip(d.Of(fam), fam, HeardCalls(fam, calls))
    ensures RunCalls(d, calls).pins == d.pins
    decreases calls
  {
    if calls != [] {
      RunIsLocal(d, calls[0], fam);
      RunsAreLocal(RunCall(d, calls[0]), calls[1..], fam);
      RunChipConcat(d.Of(fam), fam, Heard(fam, calls[0]), HeardCalls(fam, calls[1..]));
    }
  }

  lemma {:induction false} AdmissibleAlone(d: Dev, items: seq<Item>, fam: Family)
    requires Admissible(d, items)
    ensures AdmissibleChip(d.Of(fam), fam, Heard(fam, items))
    decreases items
  {
    if items != [] && !items[0].Unknown? {
      if items[0].Data? { StepIsLocal(d, items[0].fam, items[0].b); }
      AdmissibleAlone(ItemStep(d, items[0]), items[1..], fam);
    }
  }

  /**
   Non-interference: after a call each chip and its session record are what the chip's own blocks
   alone make of them, however the two uploads are interleaved and whatever boots happen between. And
   what the handler can take of both it can take of one alone.
   */
  lemma NonInterference(d: Dev, items: seq<Item>, fam: Family)
    requires Admissible(d, items)
    ensures RunCall(d, items).Of(fam) == RunChip(d.Of(fam), fam, Heard(fam, items))
    ensures AdmissibleChip(d.Of(fam), fam, Heard(fam, items))
    ensures RunCall(d, items).pins == d.pins
  {
    RunIsLocal(d, items, fam);
    AdmissibleAlone(d, items, fam);
  }

  lemma {:induction false} RunChipConcat(f: Flash, fam: Family, a: seq<Block>, b: seq<Block>)
    ensures RunChip(f, fam, a + b) == RunChip(RunChip(f, fam, a), fam, b)
    decreases a
  {
    if a == [] {
      assert a + b == b;
    } else {
      assert (a + b)[0] == a[0] && (a + b)[1..] == a[1..] + b;
      RunChipConcat(Accept(f, fam, a[0]), fam, a[1..], b);
    }
  }

  lemma {:induction false} AdmissibleConcat(f: Flash, fam: Family, a: seq<Block>, b: seq<Block>)
    ensures AdmissibleChip(f, fam, a + b) <==> AdmissibleChip(f, fam, a) && AdmissibleChip(RunChip(f, fam, a), fam, b)
    decreases a
  {
    if a == [] {
      assert a + b == b;
    } else {
      assert (a + b)[0] == a[0] && (a + b)[1..] == a[1..] + b;
      AdmissibleConcat(Accept(f, fam, a[0]), fam, a[1..], b);
    }
  }

  /** The same over any number of calls. */
  lemma {:induction false} NonInterferenceCalls(d: Dev, calls: seq<seq<Item>>, fam: Family)
    requires AdmissibleCalls(d, calls)
    ensures RunCalls(d, calls).Of(fam) == RunChip(d.Of(fam), fam, HeardCalls(fam, calls))
    ensures AdmissibleChip(d.Of(fam), fam, HeardCalls(fam, calls))
    ensures RunCalls(d, calls).pins == d.pins
    decreases calls
  {
    RunsAreLocal(d, calls, fam);
    if calls != [] {
      NonInterference(d, calls[0], fam);
      NonInterferenceCalls(RunCall(d, calls[0]), calls[1..], fam);
      AdmissibleConcat(d.Of(fam), fam, Heard(fam, calls[0]), HeardCalls(fam, calls[1..]));
    }
  }

  // ---------------------------------------------------------------- buffer boundaries

  /** Cutting a buffer in two: the second part is lost exactly when the first holds an unknown file id. */
  lemma {:induction false} SplitCall(d: Dev, a: seq<Item>, b: seq<Item>)
    ensures RunCall(d, a + b) == if HasUnknown(a) then RunCall(d, a) else RunCall(RunCall(d, a), b)
    decreases a
  {
    if a == [] {
      assert a + b == b;
    } else {
      assert (a + b)[0] == a[0] && (a + b)[1..] == a[1..] + b;
      if !a[0].Unknown? { SplitCall(ItemStep(d, a[0]), a[1..], b); }
    }
  }

  lemma {:induction false} UnknownConcat(a: seq<Item>, b: seq<Item>)
    ensures HasUnknown(a + b) <==> HasUnknown(a) || HasUnknown(b)
    decreases a
  {
    if a == [] {
      assert a + b == b;
    } else {
      assert (a + b)[0] == a[0] && (a + b)[1..] == a[1..] + b;
      UnknownConcat(a[1..], b);
    }
  }

  /** The cut is also harmless to what the handler needs of its input. */
  lemma {:induction false} SplitAdmissible(d: Dev, a: seq<Item>, b: seq<Item>)
    requires !HasUnknown(a)
    ensures Admissible(d, a + b) <==> Admissible(d, a) && Admissible(RunCall(d, a), b)
    decreases a
  {
    if a == [] {
      assert a + b == b;
    } else {
      assert (a + b)[0] == a[0] && (a + b)[1..] == a[1..] + b;
      SplitAdmissible(ItemStep(d, a[0]), a[1..], b);
    }
  }

  // ---------------------------------------------------------------- what lies behind a sector in its buffer

  /** The item with more bytes behind it in the buffer. */
  function Behind(it: Item, tail: seq<byte>): Item {
    if it.Data? then Data(it.fam, it.b.(src := it.b.src + tail)) else it
  }

  function AllBehind(items: seq<Item>, tail: seq<byte>): seq<Item>
    decreases items
  {
    if items == [] then [] else [Behind(items[0], tail)] + AllBehind(items[1..], tail)
  }

  lemma {:induction false} FlatConcat(a: seq<Sector>, b: seq<Sector>)
    ensures Flat(a + b) == Flat(a) + Flat(b)
    decreases a
  {
    if a == [] {
      assert a + b == b;
    } else {
      assert (a + b)[0] == a[0] && (a + b)[1..] == a[1..] + b;
      FlatConcat(a[1..], b);
      assert a[0] + (Flat(a[1..]) + Flat(b)) == a[0] + Flat(a[1..]) + Flat(b);
    }
  }

  lemma ParseBehind(s: Sector, behind: seq<byte>, tail: seq<byte>)
    ensures Parse(s, behind + tail) == Parse(s, behind).(src := Parse(s, behind).src + tail)
  {
    assert s[32..] + (behind + tail) == s[32..] + behind + tail;
  }

  lemma ItemBehind(s: Sector, behind: seq<byte>, tail: seq<byte>)
    ensures ItemOf(s, behind + tail) == Behind(ItemOf(s, behind), tail)
  {
    ParseBehind(s, behind, tail);
  }

  /** Two buffers put together: the blocks of the first now have the second behind them. */
  lemma {:induction false} ItemsConcat(a: seq<Sector>, b: seq<Sector>)
    ensures Items(a + b) == AllBehind(Items(a), Flat(b)) + Items(b)
    decreases a
  {
    if a == [] {
      assert a + b == b;
    } else {
      assert (a + b)[0] == a[0] && (a + b)[1..] == a[1..] + b;
      FlatConcat(a[1..], b);
      ItemBehind(a[0], Flat(a[1..]), Flat(b));
      ItemsConcat(a[1..], b);
    }
  }

  /** A block whose write stays in the buffer does the same whatever lies behind the buffer. */
  lemma StepBehind(d: Dev, fam: Family, b: Block, tail: seq<byte>)
    requires Acceptable(d.Of(fam).session, fam, b)
    ensures Step(d, fam, b.(src := b.src + tail)) == Step(d, fam, b)
  {
    var c := b.(src := b.src + tail);
    var s := Opened(d.Of(fam).session, fam, b);
    SourceBehind(b, tail, Rounds(TargetOf(s, b), 0, b.payloadSize).written);
    SourceBehind(b, tail, b.payloadSize);
    assert OpenStep(d, fam, c) == OpenStep(d, fam, b);
    var d1 := OpenStep(d, fam, b);
    assert d1.Of(fam).session == s;
    assert WriteStep(d1, fam, c) == WriteStep(d1, fam, b);
  }

  lemma SourceBehind(b: Block, tail: seq<byte>, n: nat)
    requires n <= |b.src|
    ensures (b.src + tail)[..n] == b.src[..n]
  {}

  lemma {:induction false} RunBehind(d: Dev, items: seq<Item>, tail: seq<byte>)
    requires Admissible(d, items)
    ensures RunCall(d, AllBehind(items, tail)) == RunCall(d, items)
    ensures HasUnknown(AllBehind(items, tail)) == HasUnknown(items)
    decreases items
  {
    if items != [] {
      if items[0].Data? { StepBehind(d, items[0].fam, items[0].b, tail); }
      if !items[0].Unknown? { RunBehind(ItemStep(d, items[0]), items[1..], tail); }
      UnknownBehind(items, tail);
    }
  }

  lemma {:induction false} UnknownBehind(items: seq<Item>, tail: seq<byte>)
    ensures HasUnknown(AllBehind(items, tail)) == HasUnknown(items)
    decreases items
  {
    if items != [] { UnknownBehind(items[1..], tail); }
  }

  /**
   Cutting a buffer in two. Where no write of the first part reads past it, the cut makes no
   difference, except that an unknown file id in the first part no longer drops the second.
   */
  lemma CutBuffer(d: Dev, a: seq<Sector>, b: seq<Sector>)
    requires Admissible(d, Items(a))
    ensures RunCall(d, Items(a + b))
         == if HasUnknown(Items(a)) then RunCall(d, Items(a)) else RunCall(RunCall(d, Items(a)), Items(b))
  {
    ItemsConcat(a, b);
    RunBehind(d, Items(a), Flat(b));
    SplitCall(d, AllBehind(Items(a), Flat(b)), Items(b));
  }

  function CallsOf(bufs: seq<seq<Sector>>): seq<seq<Item>>
    decreases bufs
  {
    if bufs == [] then [] else [Items(bufs[0])] + CallsOf(bufs[1..])
  }

  function Joined(bufs: seq<seq<Sector>>): seq<Sector>
    decreases bufs
  {
    if bufs == [] then [] else bufs[0] + Joined(bufs[1..])
  }

  /** Buffers as the callback gets them: at most 4096 bytes. */
  predicate Deliverable(bufs: seq<seq<Sector>>) {
    forall buf | buf in bufs :: |buf| <= 8
  }

  /**
   Buffer-split independence: sectors without unknown file ids, cut into buffers anywhere that no write
   reads across, leave the device (both chips, both session records, the FPGA and all its earlier loads,
   the error reports) as one buffer does.
   */
  lemma {:induction false} BuffersAsOne(d: Dev, bufs: seq<seq<Sector>>)
    requires AdmissibleCalls(d, CallsOf(bufs)) && !HasUnknown(Items(Joined(bufs)))
    ensures RunCalls(d, CallsOf(bufs)) == RunCall(d, Items(Joined(bufs)))
    decreases bufs
  {
    if bufs != [] {
      var a, b := bufs[0], Joined(bufs[1..]);
      ItemsConcat(a, b);
      UnknownConcat(AllBehind(Items(a), Flat(b)), Items(b));
      UnknownBehind(Items(a), Flat(b));
      CutBuffer(d, a, b);
      BuffersAsOne(RunCall(d, Items(a)), bufs[1..]);
    }
  }

  // ---------------------------------------------------------------- one call after another

  lemma {:induction false} CallsOfConcat(a: seq<seq<Sector>>, b: seq<seq<Sector>>)
    ensures CallsOf(a + b) == CallsOf(a) + CallsOf(b)
    decreases a
  {
    if a == [] {
      assert a + b == b;
    } else {
      assert (a + b)[0] == a[0] && (a + b)[1..] == a[1..] + b;
      CallsOfConcat(a[1..], b);
    }
  }

  lemma {:induction false} CallsConcat(d: Dev, a: seq<seq<Item>>, b: seq<seq<Item>>)
    ensures RunCalls(d, a + b) == RunCalls(RunCalls(d, a), b)
    ensures AdmissibleCalls(d, a + b) <==> AdmissibleCalls(d, a) && AdmissibleCalls(RunCalls(d, a), b)
    decreases a
  {
    if a == [] {
      assert a + b == b;
    } else {
      assert (a + b)[0] == a[0] && (a + b)[1..] == a[1..] + b;
      CallsConcat(RunCall(d, a[0]), a[1..], b);
    }
  }

  lemma {:induction false} HeardCallsConcat(fam: Family, a: seq<seq<Item>>, b: seq<seq<Item>>)
    ensures HeardCalls(fam, a + b) == HeardCalls(fam, a) + HeardCalls(fam, b)
    decreases a
  {
    if a == [] {
      assert a + b == b;
    } else {
      assert (a + b)[0] == a[0] && (a + b)[1..] == a[1..] + b;
      HeardCallsConcat(fam, a[1..], b);
    }
  }

  lemma HeardBuffer(fam: Family, buf: seq<Sector>, rest: seq<seq<Sector>>)
    ensures HeardCalls(fam, CallsOf([buf] + rest)) == Heard(fam, Items(buf)) + HeardCalls(fam, CallsOf(rest))
  {
    assert ([buf] + rest)[1..] == rest;
    assert CallsOf([buf] + rest)[1..] == CallsOf(rest);
  }

  /** A buffer by itself. */
  lemma OneBuffer(d: Dev, fam: Family, buf: seq<Sector>)
    ensures CallsOf([buf]) == [Items(buf)]
    ensures HeardCalls(fam, CallsOf([buf])) == Heard(fam, Items(buf))
    ensures RunCalls(d, CallsOf([buf])) == RunCall(d, Items(buf))
    ensures AdmissibleCalls(d, CallsOf([buf])) <==> Admissible(d, Items(buf))
  {
    assert [buf][1..] == [] && CallsOf([]) == [];
    assert CallsOf([buf])[1..] == [];
  }

  /** Buffers with one more behind them. */
  lemma HeardWith(fam: Family, bufs: seq<seq<Sector>>, buf: seq<Sector>)
    ensures CallsOf(bufs + [buf]) == CallsOf(bufs) + [Items(buf)]
    ensures HeardCalls(fam, CallsOf(bufs + [buf])) == HeardCalls(fam, CallsOf(bufs)) + Heard(fam, Items(buf))
  {
    CallsOfConcat(bufs, [buf]);
    HeardCallsConcat(fam, CallsOf(bufs), CallsOf([buf]));
    HeardBuffer(fam, buf, []);
    assert [buf] + [] == [buf] && CallsOf([]) == [];
    assert CallsOf([buf]) == [Items(buf)];
  }

  lemma OneSector(s: Sector)
    ensures Flat([s]) == s && Items([s]) == [ItemOf(s, [])]
  {
    assert [s][1..] == [];
  }

  /** Each sector in a buffer of its own. */
  function Alone(ss: seq<Sector>): (bufs: seq<seq<Sector>>)
    ensures Deliverable(bufs)
    decreases ss
  {
    if ss == [] then [] else [[ss[0]]] + Alone(ss[1..])
  }

  lemma OneAlone(s: Sector)
    ensures Alone([s]) == [[s]]
  {
    assert [s][1..] == [] && Alone([]) == [];
  }

  lemma {:induction false} CallsOfAlone(ss: seq<Sector>)
    ensures |CallsOf(Alone(ss))| == |ss| && forall i | 0 <= i < |ss| :: CallsOf(Alone(ss))[i] == Items([ss[i]])
    decreases ss
  {
    if ss != [] {
      var rest := Alone(ss[1..]);
      CallsOfAlone(ss[1..]);
      assert Alone(ss)[1..] == rest;
      assert CallsOf(Alone(ss)) == [Items([ss[0]])] + CallsOf(rest);
      assert forall i | 0 < i < |ss| :: ss[i] == ss[1..][i - 1];
    }
  }

  /** Calls of one block each. */
  lemma {:induction false} SinglesHeard(fam: Family, calls: seq<seq<Item>>, bs: seq<Block>)
    requires |calls| == |bs| && forall i | 0 <= i < |calls| :: calls[i] == [Data(fam, bs[i])]
    ensures HeardCalls(fam, calls) == bs && HeardCalls(Other(fam), calls) == []
    decreases calls
  {
    if calls != [] {
      assert forall i | 0 <= i < |calls| - 1 :: calls[1..][i] == calls[i + 1] && bs[1..][i] == bs[i + 1];
      SinglesHeard(fam, calls[1..], bs[1..]);
      assert calls[0] == [Data(fam, bs[0])] + [];
      HeardFirst(fam, Data(fam, bs[0]), []);
      HeardFirst(Other(fam), Data(fam, bs[0]), []);
    }
  }

  lemma TwoSectors(s: Sector, t: Sector)
    ensures Flat([s, t]) == s + t && Items([s, t]) == [ItemOf(s, t), ItemOf(t, [])]
  {
    assert [s, t][1..] == [t];
    OneSector(t);
  }

  lemma ThreeSectors(s: Sector, t: Sector, u: Sector)
    ensures Items([s, t, u]) == [ItemOf(s, t + u), ItemOf(t, u), ItemOf(u, [])]
  {
    assert [s, t, u][1..] == [t, u];
    TwoSectors(t, u);
  }

  // ---------------------------------------------------------------- runs in which one chip is written

  function AsItems(fam: Family, bs: seq<Block>): seq<Item>
    decreases bs
  {
    if bs == [] then [] else [Data(fam, bs[0])] + AsItems(fam, bs[1..])
  }

  lemma ThreeAsItems(fam: Family, a: Block, b: Block, c: Block)
    ensures AsItems(fam, [a, b, c]) == [Data(fam, a), Data(fam, b), Data(fam, c)]
  {
    assert [a, b, c][1..] == [b, c] && [b, c][1..] == [c] && [c][1..] == [];
    assert AsItems(fam, [c]) == [Data(fam, c)];
    assert AsItems(fam, [b, c]) == [Data(fam, b)] + AsItems(fam, [c]);
  }

  lemma {:induction false} HeardAsItems(fam: Family, bs: seq<Block>)
    ensures Heard(fam, AsItems(fam, bs)) == bs && Heard(Other(fam), AsItems(fam, bs)) == []
    ensures !HasUnknown(AsItems(fam, bs))
    decreases bs
  {
    if bs != [] {
      HeardAsItems(fam, bs[1..]);
      assert AsItems(fam, bs)[1..] == AsItems(fam, bs[1..]);
    }
  }

  /** The session, begun or about to, has `left` blocks to come, and no more are heard. */
  ghost predicate Counting(s: Session, heard: seq<Block>, left: nat) {
    && |heard| <= left
    && (heard != [] ==> if s.inProgress then s.blocksLeft == left else forall b | b in heard :: b.numBlocks == left)
  }

  /** If nothing is heard of the other chip, the only boot is the one that ends the session. */
  ghost predicate LastBootDefined(d': Dev, heard: seq<Block>, left: nat) {
    heard != [] && |heard| == left ==> BootDefined(d')
  }

  lemma AcceptSession(f: Flash, fam: Family, b: Block)
    ensures Accept(f, fam, b).session == Counted(Opened(f.session, fam, b))
  {}

  lemma CountedNext(s: Session, fam: Family, heard: seq<Block>, left: nat)
    requires heard != [] && Counting(s, heard, left)
    ensures var s' := Counted(Opened(s, fam, heard[0]));
            Counting(s', heard[1..], left - 1) && (s'.inProgress <==> left != 1)
  {}

  lemma CountingNext(f: Flash, fam: Family, heard: seq<Block>, left: nat)
    requires heard != [] && Counting(f.session, heard, left)
    ensures Counting(Accept(f, fam, heard[0]).session, heard[1..], left - 1)
    ensures Accept(f, fam, heard[0]).session.inProgress <==> left != 1
  {
    AcceptSession(f, fam, heard[0]);
    CountedNext(f.session, fam, heard, left);
  }

  lemma {:induction false} CountingAfter(f: Flash, fam: Family, a: seq<Block>, b: seq<Block>, left: nat)
    requires Counting(f.session, a + b, left)
    ensures Counting(f.session, a, left) && Counting(RunChip(f, fam, a).session, b, left - |a|)
    decreases a
  {
    if a == [] {
      assert a + b == b;
    } else {
      assert (a + b)[0] == a[0] && (a + b)[1..] == a[1..] + b;
      assert forall x | x in a :: x in a + b;
      CountingNext(f, fam, a + b, left);
      CountingAfter(Accept(f, fam, a[0]), fam, a[1..], b, left - 1);
    }
  }

  /** Blank flash does not mislead a boot. */
  lemma BlankWindow(m: Memory, a: u32)
    requires a <= 0xFFFF_0000 && forall i: u32 | a <= i < a + 256 :: m[i] == 0xFF
    ensures ScanInBounds(Window(m, a))
  {
    BlankInBounds(Window(m, a));
  }

  lemma BootDefinedLater(d: Dev, items: seq<Item>)
    requires Heard(Bitstreams, items) == []
    ensures BootDefined(RunCall(d, items)) <==> BootDefined(d)
  {
    RunIsLocal(d, items, Bitstreams);
  }

  /** Such a call can be handled exactly when its blocks can and the boot at the end of the session is not misled. */
  lemma {:induction false} OneChipRun(d: Dev, fam: Family, items: seq<Item>, left: nat)
    requires Heard(Other(fam), items) == [] && Counting(d.Of(fam).session, Heard(fam, items), left)
    ensures Admissible(d, items) <==> AdmissibleChip(d.Of(fam), fam, Heard(fam, items))
                                      && LastBootDefined(RunCall(d, items), Heard(fam, items), left)
    decreases items
  {
    if items != [] && !items[0].Unknown? {
      var it, rest := items[0], items[1..];
      if it.Skipped? {
        OneChipRun(d, fam, rest, left);
      } else {
        var heard, d1 := Heard(fam, items), Step(d, fam, it.b);
        assert heard == [it.b] + Heard(fam, rest) && heard[1..] == Heard(fam, rest);
        StepIsLocal(d, fam, it.b);
        CountingNext(d.Of(fam), fam, heard, left);
        OneChipRun(d1, fam, rest, left - 1);
        if left == 1 { BootDefinedLater(d1, rest); }
      }
    }
  }

  /** The same over any number of calls. */
  lemma {:induction false} OneChipRuns(d: Dev, fam: Family, calls: seq<seq<Item>>, left: nat)
    requires HeardCalls(Other(fam), calls) == [] && Counting(d.Of(fam).session, HeardCalls(fam, calls), left)
    ensures AdmissibleCalls(d, calls) <==> AdmissibleChip(d.Of(fam), fam, HeardCalls(fam, calls))
                                           && LastBootDefined(RunCalls(d, calls), HeardCalls(fam, calls), left)
    decreases calls
  {
    if calls != [] {
      var first, rest := Heard(fam, calls[0]), HeardCalls(fam, calls[1..]);
      var d1 := RunCall(d, calls[0]);
      CountingAfter(d.Of(fam), fam, first, rest, left);
      AdmissibleConcat(d.Of(fam), fam, first, rest);
      RunIsLocal(d, calls[0], fam);
      OneChipRun(d, fam, calls[0], left);
      OneChipRuns(d1, fam, calls[1..], left - |first|);
      RunsAreLocal(d1, calls[1..], Bitstreams);
    }
  }

  // ---------------------------------------------------------------- loads of the FPGA

  /** A block that ends a session leaves the FPGA holding what the selected slot holds, if that is a bitstream. */
  lemma ClosingBlockLoads(d: Dev, fam: Family, b: Block)
    requires !Step(d, fam, b).Of(fam).session.inProgress
    ensures var d' := Step(d, fam, b);
            var offset := SelectedOffset(d.pins);
            var len := BitstreamLength(Window(d'.bitstream.mem, offset));
            len > 0 ==> d'.fpga.config == Read(d'.bitstream.mem, offset, len)
  {}

  /**
   A block that opens a session and does not end it leaves the FPGA blank; any other that does not end one
   leaves it alone.
   */
  lemma OtherBlocksDoNotLoad(d: Dev, fam: Family, b: Block)
    requires Step(d, fam, b).Of(fam).session.inProgress
    ensures Step(d, fam, b).fpga == if d.Of(fam).session.inProgress then d.fpga else d.fpga.Erased()
  {}
}
