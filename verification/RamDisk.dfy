/**
 The RAM disk of usb_msc/fat_util.c, usb_msc/error.c and the host-write callback of usb_msc/msc_disk.c,
 proved against DiskSpec.
 */
module RamDisk {
  import opened Bytes
  import opened ConfigText
  import opened DiskSpec
  import opened Config
  import opened DiskProofs
  import opened DiskWrites
  import Uf2

  /** `strncpy` into 8 bytes, then every NUL becomes a space. */
  method CstrToFatstr(cstr: seq<byte>) returns (fatstr: seq<byte>)
    requires 0 !in cstr
    ensures fatstr == FatName(cstr)
  {
    var buf := new byte[8](i requires 0 <= i < 8 => if i < |cstr| then cstr[i] else 0);
    for i := 0 to 8
      invariant forall k | 0 <= k < 8 :: buf[k] == if k < |cstr| then cstr[k] else if k < i then SPACE else 0
    {
      if i < |cstr| { assert cstr[i] in cstr; }
      if buf[i] == 0 { buf[i] := SPACE; }
    }
    fatstr := buf[..];
  }

  class FileSystem {
    const raw: array<byte>
    const opts: ConfigOptions
    var errFileEntry: Entry
    var errFileSize: nat

    ghost predicate Valid()
      reads this
    {
      raw.Length == 74752
    }

    ghost function Value(): Disk
      requires Valid()
      reads this, raw, opts
    {
      Disk(raw[..], errFileEntry, errFileSize, opts.Value())
    }

    constructor (disk: Raw, options: ConfigOptions)
      ensures Valid() && fresh(raw) && opts == options
      ensures raw[..] == disk && errFileEntry == seq(32, _ => 0) && errFileSize == 0
    {
      raw := new byte[74752](i requires 0 <= i < 74752 => disk[i]);
      opts := options;
      errFileEntry, errFileSize := seq(32, _ => 0), 0;
      new;
      assert raw[..] == disk;
    }

    // -------------------------------------------------------------- directory

    method GetFileIndex(name: seq<byte>) returns (index: int)
      requires Valid() && 0 !in name
      ensures index == FindEntry(raw[..], name)
    {
      var copy := CstrToFatstr(name);
      for i := 0 to 32
        invariant FindFrom(raw[..], copy, i) == FindEntry(raw[..], name)
      {
        assert raw[..][8192 + 32 * i..8192 + 32 * i + 32][..8] == raw[8192 + 32 * i..8192 + 32 * i + 8];
        if raw[8192 + 32 * i..8192 + 32 * i + 8] == copy { return i; }
      }
      return -1;
    }

    method EntryAt(i: nat) returns (e: Entry)
      requires Valid() && i < 32
      ensures e == RootEntry(raw[..], i)
    {
      var at := 8192 + 32 * i;
      e := raw[at..at + 32];
      assert raw[..][at..at + 32] == e;
    }

    /** Copies out the directory entry; -1 if there is none. */
    method GetFileInfo(name: seq<byte>) returns (err: int, info: Entry)
      requires Valid() && 0 !in name
      ensures var i := FindEntry(raw[..], name);
              if i < 0 then err == -1 else err == 0 && info == RootEntry(raw[..], i)
    {
      info := seq(32, _ => 0);
      var i := GetFileIndex(name);
      if i < 0 { return -1, info; }
      info := EntryAt(i);
      return 0, info;
    }

    method WriteFileInfo(name: seq<byte>, info: Entry) returns (err: int)
      requires Valid() && 0 !in name
      modifies raw
      ensures raw[..] == PutEntry(old(raw[..]), name, info)
      ensures err == if FindEntry(old(raw[..]), name) < 0 then -1 else 0
    {
      var i := GetFileIndex(name);
      if i < 0 { return -1; }
      CopyIn(8192 + 32 * i, info);
      return 0;
    }

    /** `memcpy` into the disk */
    method CopyIn(at: nat, data: seq<byte>)
      requires Valid() && at + |data| <= 74752
      modifies raw
      ensures raw[..] == Splice(old(raw[..]), at, data)
    {
      forall i | at <= i < at + |data| {
        raw[i] := data[i - at];
      }
    }

    method GetFileCluster(name: seq<byte>) returns (cluster: int)
      requires Valid() && 0 !in name && FileInFat(raw[..], name)
      ensures cluster == FileCluster(raw[..], name)
    {
      var i := GetFileIndex(name);
      if i < 0 { return -1; }
      var entry := EntryAt(i);
      var c := StartingCluster(entry);
      if c < 2 { return -1; }
      if raw[1024 + 2 * c] == 0 && raw[1024 + 2 * c + 1] == 0 { return -1; }
      return c;
    }

    // -------------------------------------------------------------- log

    /** Appends a message to the log file and pads; the entry is looked up, and remembered, every time. */
    method PrintErrFile(msg: seq<byte>) returns (rtn: int)
      requires Valid() && LogInBounds(raw[..])
      modifies this, raw
      ensures Valid() && Value() == Print(old(Value()), msg)
      ensures var i := FindEntry(old(raw[..]), LOG);
              rtn == if i < 0 || old(errFileSize) >= 4096 || StartingCluster(RootEntry(old(raw[..]), i)) < 2 then -1
                     else Min(|msg|, 4095 - old(errFileSize))
    {
      var err, info := GetFileInfo(LOG);
      if err != 0 { return -1; }
      errFileEntry := info;
      rtn := AppendToLog(msg);
    }

    method AppendToLog(msg: seq<byte>) returns (rtn: int)
      requires Valid() && StartingCluster(errFileEntry) <= 16
      modifies this, raw
      ensures Valid() && Value() == Append(old(Value()), msg)
      ensures rtn == if old(errFileSize) >= 4096 || StartingCluster(errFileEntry) < 2 then -1
                     else Min(|msg|, 4095 - old(errFileSize))
    {
      var cluster := StartingCluster(errFileEntry);
      if errFileSize >= 4096 || cluster < 2 { return -1; }
      var spaceLeft := 4096 - errFileSize;
      var data := ClusterAt(cluster) + errFileSize;
      var dataWritten := Min(|msg|, spaceLeft - 1);
      CopyIn(data, msg[..dataWritten] + Spaces(4096 - dataWritten));
      errFileSize := errFileSize + dataWritten;
      return dataWritten;
    }

    method PrintLogs(msgs: seq<seq<byte>>)
      requires Valid() && LogInBounds(raw[..])
      modifies this, raw
      ensures Valid() && Value() == PrintAll(old(Value()), msgs)
    {
      for i := 0 to |msgs|
        invariant Valid() && LogInBounds(raw[..])
        invariant PrintAll(Value(), msgs[i..]) == PrintAll(old(Value()), msgs)
      {
        assert msgs[i..][0] == msgs[i] && msgs[i..][1..] == msgs[i + 1..];
        PrintKeepsRoot(Value(), msgs[i]);
        BoundsByRoot(Print(Value(), msgs[i]).raw, raw[..]);
        var n := PrintErrFile(msgs[i]);
      }
    }

    // -------------------------------------------------------------- options

    /** Parses the options file in place; a NUL is first written behind its text. */
    method ParseConfigFile() returns (rtn: int)
      requires Valid() && OptionsInBounds(raw[..])
      modifies raw, opts
      ensures Valid() && errFileEntry == old(errFileEntry) && errFileSize == old(errFileSize)
      ensures Value() == ParseConfig(old(Value())).disk
      ensures rtn == if ParseConfig(old(Value())).ok then 0 else -1
    {
      var err, info := GetFileInfo(OPTIONS);
      if err != 0 { return -1; }
      rtn := ParseInfo(info);
    }

    method ParseInfo(info: Entry) returns (rtn: int)
      requires Valid() && StartingCluster(info) <= 17
      modifies raw, opts
      ensures Value() == ParseEntry(old(Value()), info).disk
      ensures rtn == if ParseEntry(old(Value()), info).ok then 0 else -1
    {
      var cluster, size := StartingCluster(info), FileSize(info);
      if cluster < 2 || size == 0 || size >= 1024 { return -1; }
      rtn := ParseAt(ClusterAt(cluster), size);
    }

    /** Writes the NUL behind a text in the disk and parses it. */
    method ParseAt(at: nat, size: nat) returns (rtn: int)
      requires Valid() && 9216 <= at && at + 4096 <= 74752 && size < 4096
      modifies raw, opts
      ensures Value() == ParseCluster(old(Value()), at, size).disk
      ensures rtn == if ParseCluster(old(Value()), at, size).ok then 0 else -1
    {
      raw[at + size] := 0;
      assert raw[..] == old(raw[..])[at + size := 0];
      var text := raw[at..at + 4096];
      assert raw[..][at..at + 4096] == text;
      assert text[size] == 0;
      rtn := ParseLines(text, opts);
    }

    /** `snprintf` of the three lines into the options file, and the new size into its directory entry. */
    method WriteConfigToFile() returns (rtn: int)
      requires Valid() && OptionsInBounds(raw[..])
      modifies raw
      ensures Value() == WriteConfig(old(Value())).disk
      ensures rtn == if WriteConfig(old(Value())).ok then 0 else -1
    {
      var err, info := GetFileInfo(OPTIONS);
      if err != 0 { return -1; }
      var cluster := StartingCluster(info);
      if cluster < 2 { return -1; }
      var text := RenderAll(ConfigLines(Options(opts.fpgaProgSpeed, opts.flashProgSpeed, opts.progFlash, opts.dirty)));
      ConfigTextLength(opts.Value());
      CopyIn(ClusterAt(cluster), text + [0]);
      SpliceBehindRoot(old(raw[..]), ClusterAt(cluster), text + [0]);
      FindFromRoot(raw[..], old(raw[..]), FatName(OPTIONS), 0);
      var sized := info[..28] + Le32Bytes(|text|);
      assert sized == Splice(info, 28, Le32Bytes(|text|));
      err := WriteFileInfo(OPTIONS, sized);
      if err != 0 { return -1; }
      return 0;
    }

    // -------------------------------------------------------------- host writes

    /**
     Whether a sector belongs to the file system or to one of the firmware's files; touching the options
     marks them dirty.
     */
    method IsReservedCluster(lba: nat) returns (rtn: bool)
      requires Valid()
      requires FileInFat(raw[..], README) && FileInFat(raw[..], OPTIONS) && FileInFat(raw[..], LOG)
      modifies opts
      ensures rtn == Reserved(raw[..], lba)
      ensures opts.Value() == if TouchesOptions(raw[..], lba) then old(opts.Value()).(dirty := true)
                              else old(opts.Value())
    {
      var readme, options, log := LookUpClusters();
      rtn := CheckClusters(SectorToCluster(lba), readme, options, log);
    }

    method LookUpClusters() returns (readme: int, options: int, log: int)
      requires Valid()
      requires FileInFat(raw[..], README) && FileInFat(raw[..], OPTIONS) && FileInFat(raw[..], LOG)
      ensures readme == FileCluster(raw[..], README) && options == FileCluster(raw[..], OPTIONS)
      ensures log == FileCluster(raw[..], LOG)
      ensures options == -1 || options >= 2
    {
      readme := GetFileCluster(README);
      options, log := LookUpTwo();
    }

    method LookUpTwo() returns (options: int, log: int)
      requires Valid() && FileInFat(raw[..], OPTIONS) && FileInFat(raw[..], LOG)
      ensures options == FileCluster(raw[..], OPTIONS) && log == FileCluster(raw[..], LOG)
    {
      options := GetFileCluster(OPTIONS);
      log := GetFileCluster(LOG);
    }

    method CheckClusters(cluster: nat, readme: int, options: int, log: int) returns (rtn: bool)
      requires options == -1 || options >= 2
      modifies opts
      ensures rtn <==> cluster in [0, 1, readme, options, log]
      ensures opts.Value() == if cluster == options then old(opts.Value()).(dirty := true) else old(opts.Value())
    {
      rtn := IsOneOf(cluster, [0, 1, readme, options, log]);
      if options > 0 && cluster == options {
        opts.dirty := true;
        rtn := true;
      }
    }

    /**
     First part of the write callback: dirty marking, reserved areas, upload. The log lines printed
     meanwhile are given.
     */
    method BeginWrite(w: HostWrite)
      requires Valid() && FilesInBounds(raw[..])
      modifies this, raw, opts
      ensures Valid() && Value() == BeforeCopy(old(Value()), w)
    {
      var knownFile := IsReservedCluster(w.lba);
      if !knownFile { PrintLogs(w.flashLog); }
    }

    /** Second part: the data goes into the disk, and the log's directory entry is put back. */
    method CopyFromHost(w: HostWrite)
      requires Valid() && w.lba * 1024 + w.offset + |Payload(w)| <= 74752
      modifies raw
      ensures Value() == Copied(old(Value()), w)
    {
      CopyIn(w.lba * 1024 + w.offset, Payload(w));
      var err := WriteFileInfo(LOG, errFileEntry);
    }

    /** Third part: options that were touched are parsed again, or fall back to the defaults. */
    method ReparseIfDirty(w: HostWrite)
      requires Valid() && OptionsInBounds(raw[..]) && LogInBounds(raw[..])
      modifies this, raw, opts
      ensures Valid() && Value() == Reparsed(old(Value()), w)
    {
      if opts.dirty {
        ghost var before := Value();
        var err := ParseConfigFile();
        ParseKeepsRoot(before);
        BoundsByRoot(raw[..], before.raw);
        PrintLogs(w.parseLog);
        if err != 0 { opts.SetDefaultConfig(); }
      }
    }

    /** The write callback; the result is the number of bytes taken. */
    method Write10(w: HostWrite) returns (n: nat)
      requires Valid() && WriteDefined(Value(), w)
      modifies this, raw, opts
      ensures Valid() && Value() == Write(old(Value()), w)
      ensures n == |Payload(w)|
    {
      if |w.data| == 0 { return 0; }
      BeginWrite(w);
      if w.lba >= 73 { return |Payload(w)|; }
      CopyFromHost(w);
      ReparseIfDirty(w);
      return |Payload(w)|;
    }
  }

  /** The loop over the reserved clusters; the absent ones are negative. */
  method IsOneOf(cluster: nat, reserved: seq<int>) returns (hit: bool)
    ensures hit <==> cluster in reserved
  {
    hit := false;
    for i := 0 to |reserved|
      invariant hit <==> cluster in reserved[..i]
    {
      if reserved[i] < 0 { continue; }
      if cluster == reserved[i] { hit := true; }
    }
    assert reserved[..|reserved|] == reserved;
  }

  /** Every directory lookup of a write stays inside the disk image. */
  predicate FilesInBounds(r: Raw) {
    FileInFat(r, README) && FileInFat(r, OPTIONS) && FileInFat(r, LOG) && LogInBounds(r)
  }

  /** The write stays inside the disk, and so do the firmware's own accesses before and after it. */
  predicate WriteDefined(d: Disk, w: HostWrite) {
    && InDisk(w)
    && FilesInBounds(d.raw)
    && (|w.data| > 0 && w.lba < 73 ==>
          OptionsInBounds(Copied(BeforeCopy(d, w), w).raw) && LogInBounds(Copied(BeforeCopy(d, w), w).raw))
  }

  /** The guard on the LOG entry keeps the log in bounds; the write itself keeps the other files there. */
  lemma GuardedWriteDefined(d: Disk, w: HostWrite)
    requires Guarded(d) && StartingCluster(d.logEntry) <= 16 && FilesKept(d.raw) && KeepsFiles(w)
    ensures WriteDefined(d, w)
  {
    WriteKeepsFiles(d, w);
    BeforeCopyKeepsGuard(d, w);
    if |w.data| > 0 && w.lba < 73 { CopyRestoresGuard(BeforeCopy(d, w), w); }
  }

  /** Any number of host writes once the log is remembered: its directory entry outlives them all. */
  method HostWrites(fs: FileSystem, ws: seq<HostWrite>)
    requires fs.Valid() && Guarded(fs.Value()) && StartingCluster(fs.Value().logEntry) <= 16
    requires FilesKept(fs.raw[..]) && AllKeepFiles(ws) && forall w | w in ws :: InDisk(w)
    modifies fs, fs.raw, fs.opts
    ensures fs.Valid() && fs.Value() == WriteAll(old(fs.Value()), ws)
    ensures Guarded(fs.Value()) && fs.Value().logEntry == old(fs.Value()).logEntry
    ensures LogInBounds(fs.raw[..]) && FilesKept(fs.raw[..])
  {
    ghost var d := fs.Value();
    var i := 0;
    while i < |ws|
      invariant 0 <= i <= |ws| && fs.Valid() && Guarded(fs.Value()) && fs.Value().logEntry == d.logEntry
      invariant FilesKept(fs.raw[..]) && AllKeepFiles(ws[i..])
      invariant WriteAll(fs.Value(), ws[i..]) == WriteAll(d, ws)
    {
      var rest := ws[i..];
      assert rest[0] == ws[i] && rest[1..] == ws[i + 1..];
      GuardedWriteDefined(fs.Value(), ws[i]);
      WriteKeepsGuard(fs.Value(), ws[i]);
      WriteKeepsFiles(fs.Value(), ws[i]);
      var n := fs.Write10(ws[i]);
      i := i + 1;
    }
  }
}
