/**
 The FAT16 RAM disk (usb_msc/fat_util.h) as one sequence of bytes, with the log and configuration
 state kept beside it: what directory search, log printing, option parsing and a host write make of it.
 Layout in sectors of 1024 bytes: boot sector; the FAT from byte 1024, 7 sectors; the root directory of 32
 entries from byte 8192; 16 clusters of 4 sectors from byte 9216, the first of them called cluster 2.
 */
module DiskSpec {
  import opened Bytes
  import opened ConfigText
  import Uf2

  type Raw = r: seq<byte> | |r| == 74752 witness seq(74752, _ => 0)
  type Entry = e: seq<byte> | |e| == 32 witness seq(32, _ => 0)
  type Name = n: seq<byte> | |n| == 8 witness seq(8, _ => 0)

  // "LOG", "OPTIONS", "README"
  const LOG: seq<byte> := [76, 79, 71]
  const OPTIONS: seq<byte> := [79, 80, 84, 73, 79, 78, 83]
  const README: seq<byte> := [82, 69, 65, 68, 77, 69]

  datatype Disk = Disk(raw: Raw, logEntry: Entry, logSize: nat, opts: Options)

  function Splice(s: seq<byte>, at: nat, data: seq<byte>): (r: seq<byte>)
    requires at + |data| <= |s|
    ensures |r| == |s|
  {
    s[..at] + data + s[at + |data|..]
  }

  // ---------------------------------------------------------------- directory

  /** A C string as a directory name: cut to 8 bytes, padded with spaces. */
  function FatName(name: seq<byte>): Name {
    if |name| >= 8 then name[..8] else name + Spaces(8 - |name|)
  }

  function RootEntry(raw: Raw, i: nat): Entry
    requires i < 32
  {
    raw[8192 + 32 * i..8192 + 32 * i + 32]
  }

  /** The first entry from i on with that name, or -1. Extensions are not looked at. */
  function FindFrom(raw: Raw, name: Name, i: nat): (r: int)
    requires i <= 32
    ensures r == -1 || (i <= r < 32 && RootEntry(raw, r)[..8] == name)
    ensures forall k | i <= k < (if r < 0 then 32 else r) :: RootEntry(raw, k)[..8] != name
    decreases 32 - i
  {
    if i == 32 then -1 else if RootEntry(raw, i)[..8] == name then i else FindFrom(raw, name, i + 1)
  }

  function FindEntry(raw: Raw, name: seq<byte>): (r: int)
    ensures r == -1 || 0 <= r < 32
  {
    FindFrom(raw, FatName(name), 0)
  }

  function StartingCluster(e: Entry): nat {
    (e[26] as int) + 256 * (e[27] as int)
  }

  function FileSize(e: Entry): u32 {
    Uf2.Le32(e, 28)
  }

  function ClusterAt(c: nat): int {
    9216 + (c - 2) * 4096
  }

  /** The FAT's word for cluster c is 0, the cluster is free; words beyond the disk image are outside the model. */
  predicate FatFree(raw: Raw, c: nat) {
    var at := 1024 + 2 * c;
    at + 1 >= 74752 || (raw[at] == 0 && raw[at + 1] == 0)
  }

  /** Cluster of a root file, or -1 if there is no such file, no cluster, or a free one. */
  function FileCluster(raw: Raw, name: seq<byte>): (r: int)
    ensures r == -1 || r >= 2
  {
    var i := FindEntry(raw, name);
    if i < 0 then -1
    else
      var c := StartingCluster(RootEntry(raw, i));
      if c < 2 || FatFree(raw, c) then -1 else c
  }

  /** Overwrites the first entry of that name, if there is one. */
  function PutEntry(raw: Raw, name: seq<byte>, e: Entry): Raw {
    var i := FindEntry(raw, name);
    if i < 0 then raw else Splice(raw, 8192 + 32 * i, e)
  }

  function SectorToCluster(sector: nat): nat {
    if sector < 9 then 0 else (sector - 9) / 4 + 2
  }

  // ---------------------------------------------------------------- log

  /** Bytes of a message that still fit: the log never holds more than 4095. */
  function Room(logSize: nat, msg: seq<byte>): nat
    requires logSize < 4096
  {
    Min(|msg|, 4095 - logSize)
  }

  /**
   Message and padding as they are written at the append position; the padding is as long as if the log
   were empty.
   */
  function LogBytes(logSize: nat, msg: seq<byte>): (r: seq<byte>)
    requires logSize < 4096
    ensures |r| == 4096
  {
    msg[..Room(logSize, msg)] + Spaces(4096 - Room(logSize, msg))
  }

  /** Appends to the file of the remembered entry. */
  function Append(d: Disk, msg: seq<byte>): Disk {
    var at := ClusterAt(StartingCluster(d.logEntry)) + d.logSize;
    if d.logSize >= 4096 || StartingCluster(d.logEntry) < 2 || at + 4096 > |d.raw| then d
    else d.(logSize := d.logSize + Room(d.logSize, msg), raw := Splice(d.raw, at, LogBytes(d.logSize, msg)))
  }

  /** The entry is looked up, and remembered, for every message. */
  function Print(d: Disk, msg: seq<byte>): Disk {
    var i := FindEntry(d.raw, LOG);
    if i < 0 then d else Append(d.(logEntry := RootEntry(d.raw, i)), msg)
  }

  function PrintAll(d: Disk, msgs: seq<seq<byte>>): Disk
    decreases msgs
  {
    if msgs == [] then d else PrintAll(Print(d, msgs[0]), msgs[1..])
  }

  /** The padding stays inside the disk: the log does not lie in the last cluster. */
  predicate LogInBounds(raw: Raw) {
    var i := FindEntry(raw, LOG);
    i >= 0 ==> StartingCluster(RootEntry(raw, i)) <= 16
  }

  // ---------------------------------------------------------------- options

  /** The C string at an address: the bytes before the first NUL. */
  function CText(s: seq<byte>, i: nat): seq<byte>
    requires i <= |s|
    decreases |s| - i
  {
    if i == |s| || s[i] == 0 then [] else [s[i]] + CText(s, i + 1)
  }

  datatype ParseResult = ParseResult(ok: bool, disk: Disk)

  /** The entry can be parsed: its text starts in a cluster and ends inside the first sector. */
  predicate OptionsUsable(e: Entry) {
    StartingCluster(e) >= 2 && 0 < FileSize(e) < 1024
  }

  /** Parses the text of a cluster in place; a NUL is first written behind it. */
  function ParseCluster(d: Disk, at: nat, size: nat): ParseResult
    requires at + 4096 <= 74752 && size < 4096
  {
    var raw := d.raw[at + size := 0];
    var out := ParseText(CText(raw[at..at + 4096], 0), d.opts);
    ParseResult(out.ok, d.(raw := raw, opts := out.opts))
  }

  function ParseEntry(d: Disk, e: Entry): ParseResult {
    if !OptionsUsable(e) || StartingCluster(e) > 17 then ParseResult(false, d)
    else ParseCluster(d, ClusterAt(StartingCluster(e)), FileSize(e))
  }

  function ParseConfig(d: Disk): ParseResult {
    var i := FindEntry(d.raw, OPTIONS);
    if i < 0 then ParseResult(false, d) else ParseEntry(d, RootEntry(d.raw, i))
  }

  /** The options file, if usable, lies in one of the clusters that exist. */
  predicate OptionsInBounds(raw: Raw) {
    var i := FindEntry(raw, OPTIONS);
    i >= 0 ==> StartingCluster(RootEntry(raw, i)) <= 17
  }

  const DEFAULTS := Options(20_000_000, 20_000_000, true, false)

  /** Prints the options into their file, NUL-terminated, and enters the new size in the directory. */
  function WriteConfig(d: Disk): ParseResult {
    var i := FindEntry(d.raw, OPTIONS);
    if i < 0 || !(2 <= StartingCluster(RootEntry(d.raw, i)) <= 17) then ParseResult(false, d)
    else
      var e := RootEntry(d.raw, i);
      var text := RenderAll(ConfigLines(d.opts));
      if |text| >= 1023 then ParseResult(false, d)
      else
        var raw := Splice(d.raw, ClusterAt(StartingCluster(e)), text + [0]);
        ParseResult(true, d.(raw := PutEntry(raw, OPTIONS, Splice(e, 28, Le32Bytes(|text|)))))
  }

  // ---------------------------------------------------------------- host writes

  /** A write command, with the log messages that the firmware prints while handling it. */
  datatype HostWrite = HostWrite(lba: nat, offset: nat, data: seq<byte>,
                                 flashLog: seq<seq<byte>>, parseLog: seq<seq<byte>>)

  function Payload(w: HostWrite): seq<byte> {
    if |w.data| > 4096 then w.data[..4096] else w.data
  }

  /** The sector belongs to the file system's own areas or to one of the firmware's files. */
  predicate Reserved(raw: Raw, lba: nat) {
    SectorToCluster(lba) in [0, 1, FileCluster(raw, README), FileCluster(raw, OPTIONS), FileCluster(raw, LOG)]
  }

  predicate TouchesOptions(raw: Raw, lba: nat) {
    SectorToCluster(lba) == FileCluster(raw, OPTIONS)
  }

  /** Marks the options dirty, and handles the sectors as an upload unless they are reserved. */
  function BeforeCopy(d: Disk, w: HostWrite): Disk {
    var d1 := if TouchesOptions(d.raw, w.lba) then d.(opts := d.opts.(dirty := true)) else d;
    if Reserved(d.raw, w.lba) then d1 else PrintAll(d1, w.flashLog)
  }

  /** Copies the data into the disk and puts the log's directory entry back. */
  function Copied(d: Disk, w: HostWrite): Disk
    requires w.lba * 1024 + w.offset + |Payload(w)| <= 74752
  {
    d.(raw := PutEntry(Splice(d.raw, w.lba * 1024 + w.offset, Payload(w)), LOG, d.logEntry))
  }

  function Reparsed(d: Disk, w: HostWrite): Disk {
    if !d.opts.dirty then d
    else
      var p := ParseConfig(d);
      var printed := PrintAll(p.disk, w.parseLog);
      if p.ok then printed else printed.(opts := DEFAULTS)
  }

  function Write(d: Disk, w: HostWrite): Disk
    requires InDisk(w)
  {
    if |w.data| == 0 then d
    else if w.lba >= 73 then BeforeCopy(d, w)
    else Reparsed(Copied(BeforeCopy(d, w), w), w)
  }

  predicate InDisk(w: HostWrite) {
    w.lba >= 73 || w.lba * 1024 + w.offset + |Payload(w)| <= 74752
  }

  function WriteAll(d: Disk, ws: seq<HostWrite>): Disk
    requires forall w | w in ws :: InDisk(w)
    decreases ws
  {
    if ws == [] then d else WriteAll(Write(d, ws[0]), ws[1..])
  }
}
