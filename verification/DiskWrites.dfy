/** Host writes that leave the firmware's files inside the disk image, as a condition on the writes alone. */
module DiskWrites {
  import opened Bytes
  import opened DiskSpec
  import opened DiskProofs

  /** The FAT word of the file's cluster lies inside the disk image. */
  predicate FileInFat(r: Raw, name: seq<byte>) {
    var i := FindEntry(r, name);
    i >= 0 ==> StartingCluster(RootEntry(r, i)) < 36864
  }

  /** README has a word in the FAT, and OPTIONS, if used, lies in a cluster that exists. */
  predicate FilesKept(r: Raw) {
    FileInFat(r, README) && OptionsInBounds(r)
  }

  function WriteStart(w: HostWrite): nat {
    w.lba * 1024 + w.offset
  }

  /** The write does not touch the root directory. */
  predicate BesideRoot(w: HostWrite) {
    WriteStart(w) + |Payload(w)| <= 8192 || 9216 <= WriteStart(w)
  }

  /** The write replaces the root directory, which is one sector. */
  predicate OverRoot(w: HostWrite) {
    WriteStart(w) <= 8192 && 9216 <= WriteStart(w) + |Payload(w)|
  }

  /** The root directory that the write brings. */
  function RootPart(w: HostWrite): (r: seq<byte>)
    requires OverRoot(w)
    ensures |r| == 1024
  {
    Payload(w)[8192 - WriteStart(w)..9216 - WriteStart(w)]
  }

  /** A disk with that root directory. */
  function NewRoot(w: HostWrite): Raw
    requires OverRoot(w)
  {
    seq(8192, k => 0x00) + RootPart(w) + seq(65536, k => 0x00)
  }

  /** A write of whole sectors whose root directory, if it brings one, keeps the files in bounds. */
  predicate KeepsFiles(w: HostWrite) {
    InDisk(w) && (|w.data| == 0 || w.lba >= 73 || BesideRoot(w) || (OverRoot(w) && FilesKept(NewRoot(w))))
  }

  predicate AllKeepFiles(ws: seq<HostWrite>)
    decreases ws
  {
    ws == [] || (KeepsFiles(ws[0]) && AllKeepFiles(ws[1..]))
  }

  lemma KeptByRoot(a: Raw, b: Raw)
    requires SameRoot(a, b)
    ensures FilesKept(a) == FilesKept(b)
  {
    SameEntryFound(a, b, README);
    BoundsByRoot(a, b);
  }

  // ---------------------------------------------------------------- putting the LOG entry back

  /** Another name is found where it was. */
  lemma {:induction false} FindBesideLog(raw: Raw, e: Entry, name: Name, i: nat)
    requires e[..8] == FatName(LOG) && i <= 32
    ensures FindFrom(PutEntry(raw, LOG, e), name, i) == FindFrom(raw, name, i)
    decreases 32 - i
  {
    if i < 32 {
      PutEntryEntries(raw, LOG, e, i);
      FindBesideLog(raw, e, name, i + 1);
    }
  }

  lemma EntryBesideLog(raw: Raw, e: Entry, name: seq<byte>)
    requires e[..8] == FatName(LOG) != FatName(name)
    ensures var r, i := PutEntry(raw, LOG, e), FindEntry(raw, name);
            && FindEntry(r, name) == i
            && (i >= 0 ==> RootEntry(r, i) == RootEntry(raw, i))
  {
    FindBesideLog(raw, e, FatName(name), 0);
    if FindEntry(raw, name) >= 0 { PutEntryEntries(raw, LOG, e, FindEntry(raw, name)); }
  }

  lemma NamesDiffer()
    ensures FatName(LOG) != FatName(README) && FatName(LOG) != FatName(OPTIONS)
  {
    assert FatName(LOG)[0] == 76 && FatName(README)[0] == 82 && FatName(OPTIONS)[0] == 79;
  }

  lemma KeptBesideLog(raw: Raw, e: Entry)
    requires e[..8] == FatName(LOG)
    ensures FilesKept(PutEntry(raw, LOG, e)) == FilesKept(raw)
  {
    NamesDiffer();
    EntryBesideLog(raw, e, README);
    EntryBesideLog(raw, e, OPTIONS);
  }

  // ---------------------------------------------------------------- one write

  lemma SpliceOverRoot(raw: Raw, at: nat, data: seq<byte>)
    requires at <= 8192 && 9216 <= at + |data| <= 74752
    ensures Splice(raw, at, data)[8192..9216] == data[8192 - at..9216 - at]
  {}

  lemma CopyKeepsFiles(d: Disk, w: HostWrite)
    requires Guarded(d) && FilesKept(d.raw) && KeepsFiles(w) && |w.data| > 0 && w.lba < 73
    ensures FilesKept(Copied(d, w).raw)
  {
    var raw := Splice(d.raw, WriteStart(w), Payload(w));
    if BesideRoot(w) {
      SpliceOutside(d.raw, WriteStart(w), Payload(w), 8192, 9216);
      KeptByRoot(raw, d.raw);
    } else {
      RootReplaced(d.raw, w);
      KeptByRoot(raw, NewRoot(w));
    }
    CopiedKeepsFiles(d, w);
  }

  lemma RootReplaced(raw: Raw, w: HostWrite)
    requires OverRoot(w) && WriteStart(w) + |Payload(w)| <= 74752
    ensures SameRoot(Splice(raw, WriteStart(w), Payload(w)), NewRoot(w))
  {
    SpliceOverRoot(raw, WriteStart(w), Payload(w));
    assert NewRoot(w)[8192..9216] == RootPart(w);
  }

  lemma CopiedKeepsFiles(d: Disk, w: HostWrite)
    requires Guarded(d) && WriteStart(w) + |Payload(w)| <= 74752
    requires FilesKept(Splice(d.raw, WriteStart(w), Payload(w)))
    ensures FilesKept(Copied(d, w).raw)
  {
    KeptBesideLog(Splice(d.raw, WriteStart(w), Payload(w)), d.logEntry);
  }

  lemma {:induction false} PrintAllKeepsRoot(d: Disk, msgs: seq<seq<byte>>)
    ensures SameRoot(PrintAll(d, msgs).raw, d.raw)
    decreases msgs
  {
    if msgs != [] {
      PrintKeepsRoot(d, msgs[0]);
      PrintAllKeepsRoot(Print(d, msgs[0]), msgs[1..]);
    }
  }

  lemma BeforeCopyKeepsFiles(d: Disk, w: HostWrite)
    requires FilesKept(d.raw)
    ensures FilesKept(BeforeCopy(d, w).raw)
  {
    var d1 := if TouchesOptions(d.raw, w.lba) then d.(opts := d.opts.(dirty := true)) else d;
    PrintAllKeepsRoot(d1, w.flashLog);
    KeptByRoot(BeforeCopy(d, w).raw, d.raw);
  }

  lemma ReparsedKeepsFiles(d: Disk, w: HostWrite)
    requires FilesKept(d.raw)
    ensures FilesKept(Reparsed(d, w).raw)
  {
    ParseKeepsRoot(d);
    PrintAllKeepsRoot(ParseConfig(d).disk, w.parseLog);
    KeptByRoot(Reparsed(d, w).raw, d.raw);
  }

  /** Such a write keeps the files, at every stage. */
  lemma WriteKeepsFiles(d: Disk, w: HostWrite)
    requires Guarded(d) && FilesKept(d.raw) && KeepsFiles(w)
    ensures FilesKept(Write(d, w).raw)
    ensures |w.data| > 0 && w.lba < 73 ==> FilesKept(Copied(BeforeCopy(d, w), w).raw)
  {
    BeforeCopyKeepsGuard(d, w);
    BeforeCopyKeepsFiles(d, w);
    if |w.data| > 0 && w.lba < 73 {
      CopyKeepsFiles(BeforeCopy(d, w), w);
      ReparsedKeepsFiles(Copied(BeforeCopy(d, w), w), w);
    }
  }
}
