/** What a host write does to the options and to the bytes of the disk. */
module HostOptions {
  import opened Bytes
  import opened ConfigText
  import opened ConfigKeys
  import opened DiskSpec
  import opened DiskLayout
  import opened DiskProofs
  import opened DiskWrites

  /** 20 MHz for both, and the flash is programmed. */
  const FACTORY := Options(20_000_000, 20_000_000, true, false)

  // ---------------------------------------------------------------- the options after a write

  lemma PrintAllKeepsOptions(d: Disk, msgs: seq<seq<byte>>)
    ensures PrintAll(d, msgs).opts == d.opts
    decreases msgs
  {
    if msgs != [] {
      PrintKeepsRoot(d, msgs[0]);
      PrintAllKeepsOptions(Print(d, msgs[0]), msgs[1..]);
    }
  }

  lemma OptionsBeforeCopy(d: Disk, w: HostWrite)
    ensures BeforeCopy(d, w).opts == if InFile(d.raw, OPTIONS, w.lba) then d.opts.(dirty := true) else d.opts
  {
    ReservedExactly(d.raw, w.lba);
    var d1 := if TouchesOptions(d.raw, w.lba) then d.(opts := d.opts.(dirty := true)) else d;
    PrintAllKeepsOptions(d1, w.flashLog);
  }

  lemma OptionsReparsed(d: Disk, w: HostWrite)
    ensures Reparsed(d, w).opts == if !d.opts.dirty then d.opts
                                   else if ParseConfig(d).ok then ParseConfig(d).disk.opts
                                   else FACTORY
  {
    PrintAllKeepsOptions(ParseConfig(d).disk, w.parseLog);
  }

  /** Writes that leave OPTIONS alone keep clean options. */
  lemma OtherWritesKeepOptions(d: Disk, w: HostWrite)
    requires InDisk(w) && !d.opts.dirty && !InFile(d.raw, OPTIONS, w.lba)
    ensures Write(d, w).opts == d.opts
  {
    OptionsBeforeCopy(d, w);
    if |w.data| > 0 && w.lba < 73 { OptionsReparsed(Copied(BeforeCopy(d, w), w), w); }
  }

  /** The disk as a write leaves it for the parser. */
  function Arrived(d: Disk, w: HostWrite): Disk
    requires InDisk(w) && w.lba < 73
  {
    Copied(BeforeCopy(d, w), w)
  }

  /**
   A write into OPTIONS takes the options from the text that is there afterwards; a refused text brings the
   factory's.
   */
  lemma WriteParsesText(d: Disk, w: HostWrite, text: seq<byte>)
    requires InDisk(w) && |w.data| > 0 && w.lba < 73 && (InFile(d.raw, OPTIONS, w.lba) || d.opts.dirty)
    requires OptionsText(Arrived(d, w).raw, text)
    ensures var out := ParseText(text, d.opts.(dirty := true));
            Write(d, w).opts == if out.ok then out.opts else FACTORY
  {
    OptionsBeforeCopy(d, w);
    OptionsReparsed(Arrived(d, w), w);
    assert Arrived(d, w).opts == d.opts.(dirty := true);
    ParseOptionsText(Arrived(d, w), text);
  }

  /** The entry has no cluster, or says the file is empty or larger than a sector. */
  predicate Unusable(e: Entry) {
    StartingCluster(e) < 2 || FileSize(e) == 0 || FileSize(e) >= 1024
  }

  /** Without a usable options file it brings the factory's too. */
  lemma WriteWithoutFile(d: Disk, w: HostWrite)
    requires InDisk(w) && |w.data| > 0 && w.lba < 73 && (InFile(d.raw, OPTIONS, w.lba) || d.opts.dirty)
    requires var i := FindEntry(Arrived(d, w).raw, OPTIONS);
             i < 0 || Unusable(RootEntry(Arrived(d, w).raw, i))
    ensures Write(d, w).opts == FACTORY
  {
    OptionsBeforeCopy(d, w);
    OptionsReparsed(Arrived(d, w), w);
  }

  lemma {:induction false} ApplyWhenDirty(ls: seq<Line>, o: Options)
    ensures Apply(ls, o.(dirty := true)).ok == Apply(ls, o).ok
    ensures Apply(ls, o).ok ==> Apply(ls, o.(dirty := true)).opts == Apply(ls, o).opts
    decreases ls
  {
    if ls != [] && Set(ls[0].s, o).Some? {
      var o1 := Set(ls[0].s, o).value;
      assert Set(ls[0].s, o.(dirty := true)) == Some(o1.(dirty := true));
      ApplyWhenDirty(ls[1..], o1);
    }
  }

  // ---------------------------------------------------------------- a sector that brings the options file

  /** The options file as its directory entry describes it: cluster c, size bytes long. */
  ghost predicate OptionsIn(d: Disk, c: nat, size: nat) {
    var i := FindEntry(d.raw, OPTIONS);
    && i >= 0 && 2 <= c <= 17 && FileCluster(d.raw, OPTIONS) == c && StartingCluster(RootEntry(d.raw, i)) == c
    && FileSize(RootEntry(d.raw, i)) == size
  }

  lemma PayloadHead(w: HostWrite, n: nat)
    requires n <= |w.data| && n <= 4096
    ensures n <= |Payload(w)| && Payload(w)[..n] == w.data[..n]
  {}

  /** The write begins at the file's first sector with the text. */
  lemma TextArrives(d: Disk, w: HostWrite, c: nat, text: seq<byte>)
    requires Guarded(d) && OptionsIn(d, c, |text|) && 0 < |text| < 1024 && NoNul(text)
    requires w.lba == 9 + 4 * (c - 2) && w.offset == 0 && |w.data| >= |text| && w.data[..|text|] == text
    ensures InDisk(w) && w.lba < 73 && InFile(d.raw, OPTIONS, w.lba)
    ensures OptionsText(Arrived(d, w).raw, text)
  {
    FirstSector(d, w, c);
    ArrivedAt(d, w, c);
    PayloadHead(w, |text|);
    TextInPlace(d, RootEntry(d.raw, FindEntry(d.raw, OPTIONS)), ClusterAt(c), Payload(w), text);
  }

  lemma FirstSector(d: Disk, w: HostWrite, c: nat)
    requires FileCluster(d.raw, OPTIONS) == c && 2 <= c <= 17 && w.lba == 9 + 4 * (c - 2) && w.offset == 0
    ensures InDisk(w) && w.lba < 73 && InFile(d.raw, OPTIONS, w.lba) && w.lba * 1024 == ClusterAt(c)
  {}

  /** Nothing is logged while a reserved sector is written. */
  lemma ArrivedAt(d: Disk, w: HostWrite, c: nat)
    requires InDisk(w) && w.lba < 73 && InFile(d.raw, OPTIONS, w.lba) && w.lba * 1024 == ClusterAt(c) && w.offset == 0
    ensures ClusterAt(c) >= 0 && ClusterAt(c) + |Payload(w)| <= 74752
    ensures Arrived(d, w).raw == PutEntry(Splice(d.raw, ClusterAt(c), Payload(w)), LOG, d.logEntry)
  {
    ReservedExactly(d.raw, w.lba);
    ReservedQuiet(d, w);
    ArrivedForm(d, w, ClusterAt(c));
  }

  lemma ArrivedForm(d: Disk, w: HostWrite, at: nat)
    requires InDisk(w) && w.lba < 73 && at == w.lba * 1024 + w.offset
    requires BeforeCopy(d, w).raw == d.raw && BeforeCopy(d, w).logEntry == d.logEntry
    ensures Arrived(d, w).raw == PutEntry(Splice(d.raw, at, Payload(w)), LOG, d.logEntry)
  {
    CopiedForm(BeforeCopy(d, w), w, d.raw, d.logEntry, at);
  }

  lemma CopiedForm(d: Disk, w: HostWrite, raw: Raw, e: Entry, at: nat)
    requires at == w.lba * 1024 + w.offset && at + |Payload(w)| <= 74752 && d.raw == raw && d.logEntry == e
    ensures Copied(d, w).raw == PutEntry(Splice(raw, at, Payload(w)), LOG, e)
  {}

  lemma ReservedQuiet(d: Disk, w: HostWrite)
    requires Reserved(d.raw, w.lba)
    ensures BeforeCopy(d, w).raw == d.raw && BeforeCopy(d, w).logEntry == d.logEntry
  {}

  lemma TextInPlace(d: Disk, e: Entry, at: nat, data: seq<byte>, text: seq<byte>)
    requires Guarded(d) && 9216 <= at && at + |data| <= 74752 && |text| <= |data| && data[..|text|] == text
    requires FindEntry(d.raw, OPTIONS) >= 0 && e == RootEntry(d.raw, FindEntry(d.raw, OPTIONS))
    requires 2 <= StartingCluster(e) <= 17 && ClusterAt(StartingCluster(e)) == at
    requires 0 < FileSize(e) == |text| < 1024 && NoNul(text)
    ensures OptionsText(PutEntry(Splice(d.raw, at, data), LOG, d.logEntry), text)
  {
    SpliceBehindRoot(d.raw, at, data);
    EntryStays(d, Splice(d.raw, at, data));
    CopiedText(d.raw, d.logEntry, at, data, text);
    TextFound(PutEntry(Splice(d.raw, at, data), LOG, d.logEntry), e, at, text);
  }

  lemma TextFound(raw: Raw, e: Entry, at: nat, text: seq<byte>)
    requires FindEntry(raw, OPTIONS) >= 0 && e == RootEntry(raw, FindEntry(raw, OPTIONS))
    requires 2 <= StartingCluster(e) <= 17 && ClusterAt(StartingCluster(e)) == at
    requires 0 < FileSize(e) == |text| < 1024 && NoNul(text) && raw[at..at + |text|] == text
    ensures OptionsText(raw, text)
  {
    EntryText(raw, e, at, text);
  }

  lemma EntryText(raw: Raw, e: Entry, at: nat, text: seq<byte>)
    requires 2 <= StartingCluster(e) <= 17 && ClusterAt(StartingCluster(e)) == at
    requires 0 < FileSize(e) == |text| < 1024 && NoNul(text) && raw[at..at + |text|] == text
    ensures TextOf(raw, e, text)
  {}

  lemma CopiedText(raw: Raw, e: Entry, at: nat, data: seq<byte>, text: seq<byte>)
    requires 9216 <= at && at + |data| <= 74752 && |text| <= |data| && data[..|text|] == text
    ensures PutEntry(Splice(raw, at, data), LOG, e)[at..at + |text|] == text
  {
    var copied := Splice(raw, at, data);
    SpliceInside(raw, at, data);
    assert copied[at..at + |text|] == copied[at..at + |data|][..|text|];
    EntrySpliceKeepsClusters(copied, LOG, e, at, text);
  }

  lemma EntryStays(d: Disk, copied: Raw)
    requires Guarded(d) && SameRoot(copied, d.raw)
    ensures var r := PutEntry(copied, LOG, d.logEntry);
            && FindEntry(r, OPTIONS) == FindEntry(d.raw, OPTIONS)
            && (FindEntry(d.raw, OPTIONS) >= 0 ==>
                  RootEntry(r, FindEntry(d.raw, OPTIONS)) == RootEntry(d.raw, FindEntry(d.raw, OPTIONS)))
  {
    NamesDiffer();
    SameEntryFound(copied, d.raw, OPTIONS);
    EntryBesideLog(copied, d.logEntry, OPTIONS);
  }

  /**
   The host writes the options file: well-formed lines among other text are applied in order to the
   options as they were; if one of them is refused, the factory's options are put in place.
   */
  lemma HostSetsOptions(d: Disk, w: HostWrite, c: nat, texts: seq<seq<byte>>, ls: seq<Line>)
    requires |texts| == |ls| + 1 && NamesOnlyInLines(texts, ls)
    requires var text := RenderMixed(texts, ls);
             && Guarded(d) && OptionsIn(d, c, |text|) && 0 < |text| < 1024 && NoNul(text)
             && w.lba == 9 + 4 * (c - 2) && w.offset == 0 && |w.data| >= |text| && w.data[..|text|] == text
    ensures InDisk(w)
    ensures Write(d, w).opts == if Apply(ls, d.opts).ok then Apply(ls, d.opts).opts
                                else Options(20_000_000, 20_000_000, true, false)
  {
    var text := RenderMixed(texts, ls);
    TextArrives(d, w, c, text);
    WriteParsesText(d, w, text);
    MixedMeansApply(texts, ls, d.opts.(dirty := true));
    ApplyWhenDirty(ls, d.opts);
  }

  // ---------------------------------------------------------------- the bytes after a write

  /** In the directory entry of the log. */
  predicate InLogEntry(raw: Raw, i: nat) {
    var e := FindEntry(raw, LOG);
    e >= 0 && 8192 + 32 * e <= i < 8192 + 32 * e + 32
  }

  /**
   Where nothing is logged and the options are clean, a write changes exactly the bytes it brings, at most
   4096, and puts the log's directory entry back.
   */
  lemma DataLands(d: Disk, w: HostWrite, i: nat)
    requires InDisk(w) && !d.opts.dirty && !InFile(d.raw, OPTIONS, w.lba) && w.flashLog == []
    requires |w.data| > 0 && w.lba < 73 && i < 74752
    ensures Landed(d, w, WriteStart(w), Write(d, w).raw, i)
  {
    QuietWrite(d, w);
    LandedAt(d, w, WriteStart(w), Write(d, w).raw, i);
  }

  /** Byte i of the disk after the data of w has gone to `at`, unless it is one of the log's directory entry. */
  ghost predicate Landed(d: Disk, w: HostWrite, at: nat, raw: Raw, i: nat)
    requires at + |Payload(w)| <= 74752 && i < 74752
  {
    || InLogEntry(Splice(d.raw, at, Payload(w)), i)
    || raw[i] == if at <= i < at + Min(|w.data|, 4096) then w.data[i - at] else d.raw[i]
  }

  lemma LandedAt(d: Disk, w: HostWrite, at: nat, raw: Raw, i: nat)
    requires at + |Payload(w)| <= 74752 && i < 74752
    requires raw == PutEntry(Splice(d.raw, at, Payload(w)), LOG, d.logEntry)
    ensures Landed(d, w, at, raw, i)
  {
    PayloadBytes(w);
    BytesLand(d.raw, d.logEntry, at, Payload(w), i);
  }

  lemma PayloadBytes(w: HostWrite)
    ensures |Payload(w)| == Min(|w.data|, 4096)
    ensures forall k | 0 <= k < Min(|w.data|, 4096) :: Payload(w)[k] == w.data[k]
  {}

  lemma QuietWrite(d: Disk, w: HostWrite)
    requires InDisk(w) && !d.opts.dirty && !InFile(d.raw, OPTIONS, w.lba) && w.flashLog == []
    ensures |w.data| == 0 || w.lba >= 73 ==> Write(d, w) == d
    ensures |w.data| > 0 && w.lba < 73 ==>
              Write(d, w).raw == PutEntry(Splice(d.raw, w.lba * 1024 + w.offset, Payload(w)), LOG, d.logEntry)
  {
    ReservedExactly(d.raw, w.lba);
    assert BeforeCopy(d, w) == d;
  }

  lemma BytesLand(raw: Raw, e: Entry, at: nat, data: seq<byte>, i: nat)
    requires at + |data| <= 74752 && i < 74752
    ensures var spliced := Splice(raw, at, data);
            InLogEntry(spliced, i) ||
            PutEntry(spliced, LOG, e)[i] == if at <= i < at + |data| then data[i - at] else raw[i]
  {
    var spliced := Splice(raw, at, data);
    SpliceAt(raw, at, data, i);
    if FindEntry(spliced, LOG) >= 0 { SpliceAt(spliced, 8192 + 32 * FindEntry(spliced, LOG), e, i); }
  }

  /** A write beyond the disk image copies nothing and parses nothing. */
  lemma BeyondDisk(d: Disk, w: HostWrite)
    requires w.lba >= 73
    ensures Write(d, w).opts == if |w.data| > 0 && InFile(d.raw, OPTIONS, w.lba) then d.opts.(dirty := true) else d.opts
    ensures SameRoot(Write(d, w).raw, d.raw) && (w.flashLog == [] ==> Write(d, w).raw == d.raw)
  {
    OptionsBeforeCopy(d, w);
    var d1 := if TouchesOptions(d.raw, w.lba) then d.(opts := d.opts.(dirty := true)) else d;
    PrintAllKeepsRoot(d1, w.flashLog);
  }

  /** What an upload logs during a write comes behind what the log held; a write to a reserved sector logs nothing. */
  lemma LogDuringWrite(d: Disk, w: HostWrite, c: nat, text: seq<byte>)
    requires LogHolds(d, c, text)
    ensures var reserved := w.lba < 9 || InFile(d.raw, README, w.lba) || InFile(d.raw, OPTIONS, w.lba)
                            || InFile(d.raw, LOG, w.lba);
            LogHolds(BeforeCopy(d, w), c, if reserved then text else text + Concat(w.flashLog))
  {
    ReservedExactly(d.raw, w.lba);
    var d1 := if TouchesOptions(d.raw, w.lba) then d.(opts := d.opts.(dirty := true)) else d;
    assert LogHolds(d1, c, text);
    LogIsConcatenation(d1, c, text, w.flashLog);
  }

  // ---------------------------------------------------------------- the parser and the printer on the disk

  /** Without a usable options file the parse fails and changes nothing. */
  lemma ParseWithoutFile(d: Disk)
    requires var i := FindEntry(d.raw, OPTIONS); i < 0 || Unusable(RootEntry(d.raw, i))
    ensures !ParseConfig(d).ok && ParseConfig(d).disk == d
  {}

  /** A parse changes the options, and on the disk only the byte behind the text, which becomes NUL. */
  lemma ParseTouches(d: Disk, i: nat)
    requires FindEntry(d.raw, OPTIONS) >= 0 && i < 74752
    requires var e := RootEntry(d.raw, FindEntry(d.raw, OPTIONS)); !Unusable(e) && StartingCluster(e) <= 17
    ensures var e, p := RootEntry(d.raw, FindEntry(d.raw, OPTIONS)), ParseConfig(d).disk;
            && p.raw[i] == (if i == 9216 + (StartingCluster(e) - 2) * 4096 + FileSize(e) then 0 else d.raw[i])
            && p.logEntry == d.logEntry && p.logSize == d.logSize
  {}

  /** Without an options file, or with one that has no cluster, nothing is written. */
  lemma WriteConfigRefused(d: Disk)
    requires var i := FindEntry(d.raw, OPTIONS); i < 0 || StartingCluster(RootEntry(d.raw, i)) < 2
    ensures !WriteConfig(d).ok && WriteConfig(d).disk == d
  {}

  /** Byte i after a text and a NUL have gone to `at` and the text's size to `size`. */
  predicate TextStored(before: Raw, after: Raw, at: nat, text: seq<byte>, size: nat, i: nat)
    requires |text| < 4096 && i < 74752
  {
    after[i] == if at <= i < at + |text| then text[i - at]
                else if i == at + |text| then 0
                else if size <= i < size + 4 then Le32Bytes(|text|)[i - size]
                else before[i]
  }

  /** Writing the options changes the text, the NUL behind it and the size in the directory entry, and no other byte. */
  lemma WriteConfigTouches(d: Disk, e: Entry, i: nat)
    requires FindEntry(d.raw, OPTIONS) >= 0 && e == RootEntry(d.raw, FindEntry(d.raw, OPTIONS))
    requires 2 <= StartingCluster(e) <= 17 && i < 74752
    ensures var text := RenderAll(ConfigLines(d.opts));
            |text| <= 75 && TextStored(d.raw, WriteConfig(d).disk.raw, 9216 + (StartingCluster(e) - 2) * 4096, text,
                                       8192 + 32 * FindEntry(d.raw, OPTIONS) + 28, i)
  {
    WriteConfigForm(d, e);
    WrittenBytes(d.raw, WriteConfig(d).disk.raw, e, ClusterAt(StartingCluster(e)), RenderAll(ConfigLines(d.opts)), i);
  }

  lemma WrittenBytes(raw: Raw, after: Raw, e: Entry, at: nat, text: seq<byte>, i: nat)
    requires FindEntry(raw, OPTIONS) >= 0 && e == RootEntry(raw, FindEntry(raw, OPTIONS)) && i < 74752
    requires 9216 <= at && at + |text| + 1 <= 74752 && |text| < 4096
    requires after == PutEntry(Splice(raw, at, text + [0]), OPTIONS, Sized(e, |text|))
    ensures TextStored(raw, after, at, text, 8192 + 32 * FindEntry(raw, OPTIONS) + 28, i)
  {
    EntryPlaced(raw, Sized(e, |text|), at, text + [0]);
    EntryWritten(raw, after, e, FindEntry(raw, OPTIONS), at, text, i);
  }

  lemma EntryPlaced(raw: Raw, e: Entry, at: nat, data: seq<byte>)
    requires FindEntry(raw, OPTIONS) >= 0 && 9216 <= at && at + |data| <= 74752
    ensures PutEntry(Splice(raw, at, data), OPTIONS, e)
         == Splice(Splice(raw, at, data), 8192 + 32 * FindEntry(raw, OPTIONS), e)
  {
    var copied := Splice(raw, at, data);
    SpliceBehindRoot(raw, at, data);
    SameEntryFound(copied, raw, OPTIONS);
    PutEntryForm(copied, OPTIONS, e);
  }

  lemma PutEntryForm(raw: Raw, name: seq<byte>, e: Entry)
    ensures FindEntry(raw, name) >= 0 ==> PutEntry(raw, name, e) == Splice(raw, 8192 + 32 * FindEntry(raw, name), e)
  {}

  lemma EntryWritten(raw: Raw, after: Raw, e: Entry, j: nat, at: nat, text: seq<byte>, i: nat)
    requires j < 32 && e == RootEntry(raw, j) && i < 74752
    requires 9216 <= at && at + |text| + 1 <= 74752 && |text| < 4096
    requires after == Splice(Splice(raw, at, text + [0]), 8192 + 32 * j, Sized(e, |text|))
    ensures TextStored(raw, after, at, text, 8192 + 32 * j + 28, i)
  {
    var copied, start := Splice(raw, at, text + [0]), 8192 + 32 * j;
    SpliceAt(raw, at, text + [0], i);
    SpliceAt(copied, start, Sized(e, |text|), i);
    if start <= i < start + 32 { SizedByte(raw, e, start, |text|, i); }
    StoredByte(raw, copied, after, at, text, start, Sized(e, |text|), i);
  }

  lemma StoredByte(before: Raw, copied: Raw, after: Raw, at: nat, text: seq<byte>, start: nat, e: Entry, i: nat)
    requires |text| < 4096 && start + 32 <= at && i < 74752
    requires copied[i] == if at <= i < at + |text| + 1 then (text + [0])[i - at] else before[i]
    requires after[i] == if start <= i < start + 32 then e[i - start] else copied[i]
    requires start <= i < start + 32 ==>
               e[i - start] == if start + 28 <= i then Le32Bytes(|text|)[i - start - 28] else before[i]
    ensures TextStored(before, after, at, text, start + 28, i)
  {}

  lemma SizedByte(raw: Raw, e: Entry, start: nat, n: u32, i: nat)
    requires start + 32 <= 74752 && e == raw[start..start + 32] && start <= i < start + 32
    ensures Sized(e, n)[i - start] == if start + 28 <= i then Le32Bytes(n)[i - start - 28] else raw[i]
  {
    SpliceAt(e, 28, Le32Bytes(n), i - start);
  }

  /** Without a LOG entry a message changes nothing; with one that has no cluster it only remembers the entry. */
  lemma PrintWithoutLog(d: Disk, msg: seq<byte>)
    ensures FindEntry(d.raw, LOG) < 0 ==> Print(d, msg) == d
    ensures FindEntry(d.raw, LOG) >= 0 && StartingCluster(RootEntry(d.raw, FindEntry(d.raw, LOG))) < 2 ==>
              Print(d, msg) == d.(logEntry := RootEntry(d.raw, FindEntry(d.raw, LOG)))
  {}
}
