/** Where the RAM disk keeps its files: names, clusters and sectors in terms of the bytes of the disk image. */
module DiskLayout {
  import opened Bytes
  import opened DiskSpec
  import Uf2

  // ---------------------------------------------------------------- names

  /** A short name, character by character, and spaces behind it. */
  lemma NameOnDisk(name: seq<byte>, k: nat)
    requires k < 8
    ensures FatName(name)[k] == if k < |name| then name[k] else 32
  {}

  /** Entry i is the first of the root directory with that name. */
  ghost predicate FirstEntry(raw: Raw, name: seq<byte>, i: nat) {
    i < 32 && NamedAt(raw, name, i) && forall j: nat | j < i :: !NamedAt(raw, name, j)
  }

  predicate NamedAt(raw: Raw, name: seq<byte>, i: nat) {
    i < 32 && forall k | 0 <= k < 8 :: raw[8192 + 32 * i + k] == if k < |name| then name[k] else 32
  }

  lemma NamedMeans(raw: Raw, name: seq<byte>, i: nat)
    requires i < 32
    ensures NamedAt(raw, name, i) <==> RootEntry(raw, i)[..8] == FatName(name)
  {
    var e := RootEntry(raw, i);
    forall k | 0 <= k < 8
      ensures e[..8][k] == raw[8192 + 32 * i + k] && FatName(name)[k] == if k < |name| then name[k] else 32
    {
      NameOnDisk(name, k);
    }
    if NamedAt(raw, name, i) {
      assert forall k | 0 <= k < 8 :: e[..8][k] == FatName(name)[k];
    }
  }

  /** The directory search finds the first entry of the name, and nothing only if there is none. */
  lemma FindEntryExactly(raw: Raw, name: seq<byte>, i: nat)
    ensures FindEntry(raw, name) == i <==> FirstEntry(raw, name, i)
    ensures FindEntry(raw, name) == -1 <==> forall j: nat | j < 32 :: !NamedAt(raw, name, j)
  {
    var r := FindEntry(raw, name);
    forall j: nat | j < 32
      ensures NamedAt(raw, name, j) <==> RootEntry(raw, j)[..8] == FatName(name)
    {
      NamedMeans(raw, name, j);
    }
    if FirstEntry(raw, name, i) { FirstIsFound(raw, name, i); }
  }

  lemma FirstIsFound(raw: Raw, name: seq<byte>, i: nat)
    requires FirstEntry(raw, name, i)
    ensures FindEntry(raw, name) == i
  {
    forall j: nat | j < 32
      ensures NamedAt(raw, name, j) <==> RootEntry(raw, j)[..8] == FatName(name)
    {
      NamedMeans(raw, name, j);
    }
  }

  // ---------------------------------------------------------------- clusters

  lemma WordOfEntry(raw: Raw, i: nat)
    requires i < 32
    ensures StartingCluster(RootEntry(raw, i))
         == (raw[8192 + 32 * i + 26] as int) + 256 * (raw[8192 + 32 * i + 27] as int)
  {}

  /** The file's cluster: the word in its directory entry, if it is at least 2 and the FAT does not call it free. */
  lemma FileClusterExactly(raw: Raw, name: seq<byte>, i: nat, c: nat)
    requires FirstEntry(raw, name, i) && 1024 + 2 * c + 1 < 74752
    requires c == (raw[8192 + 32 * i + 26] as int) + 256 * (raw[8192 + 32 * i + 27] as int)
    ensures FileCluster(raw, name) == if c < 2 || (raw[1024 + 2 * c] == 0 && raw[1024 + 2 * c + 1] == 0) then -1 else c
  {
    FirstIsFound(raw, name, i);
    WordOfEntry(raw, i);
    ClusterOfEntry(raw, name, i, c);
  }

  lemma ClusterOfEntry(raw: Raw, name: seq<byte>, i: nat, c: nat)
    requires FindEntry(raw, name) == i && i < 32 && c == StartingCluster(RootEntry(raw, i)) && 1024 + 2 * c + 1 < 74752
    ensures FileCluster(raw, name) == if c < 2 || (raw[1024 + 2 * c] == 0 && raw[1024 + 2 * c + 1] == 0) then -1 else c
  {}

  lemma NoFileNoCluster(raw: Raw, name: seq<byte>)
    requires forall j: nat | j < 32 :: !NamedAt(raw, name, j)
    ensures FileCluster(raw, name) == -1
  {
    FindEntryExactly(raw, name, 0);
  }

  /** Clusters lie one behind the other, the first behind the root directory's sector. */
  lemma ClustersInOrder(c: nat)
    ensures ClusterAt(2) == 9 * 1024 && ClusterAt(c + 1) == ClusterAt(c) + 4 * 1024
  {}

  // ---------------------------------------------------------------- sectors

  /** A sector before the clusters belongs to none; any other lies in the cluster it is said to. */
  lemma SectorInCluster(sector: nat)
    ensures sector < 9 ==> SectorToCluster(sector) == 0
    ensures sector >= 9 ==> SectorToCluster(sector) >= 2
    ensures sector >= 9 ==> var at := ClusterAt(SectorToCluster(sector));
                            at <= 1024 * sector && 1024 * sector + 1024 <= at + 4096
  {
    if sector >= 9 {
      var q := (sector - 9) / 4;
      assert 4 * q <= sector - 9 < 4 * q + 4;
    }
  }

  /** The sector lies in the cluster of the file, if there is one. */
  predicate InFile(raw: Raw, name: seq<byte>, sector: nat) {
    var c := FileCluster(raw, name);
    c >= 2 && ClusterAt(c) <= 1024 * sector && 1024 * sector + 1024 <= ClusterAt(c) + 4096
  }

  lemma SectorOfFile(raw: Raw, name: seq<byte>, sector: nat)
    ensures SectorToCluster(sector) == FileCluster(raw, name) <==> InFile(raw, name, sector)
  {
    SectorInCluster(sector);
  }

  /**
   Reserved are exactly the sectors of boot sector, FAT and root directory, and those in the clusters of
   README, OPTIONS and LOG; and exactly those of OPTIONS make the options dirty.
   */
  lemma ReservedExactly(raw: Raw, sector: nat)
    ensures Reserved(raw, sector) <==> || sector < 9 || InFile(raw, README, sector)
                                       || InFile(raw, OPTIONS, sector) || InFile(raw, LOG, sector)
    ensures TouchesOptions(raw, sector) <==> InFile(raw, OPTIONS, sector)
  {
    SectorInCluster(sector);
    SectorOfFile(raw, README, sector);
    SectorOfFile(raw, OPTIONS, sector);
    SectorOfFile(raw, LOG, sector);
  }

  // ---------------------------------------------------------------- the disk the firmware starts with

  /** Text of the directory and words of the FAT, as the firmware is built with them. */
  ghost predicate InitialDirectory(raw: Raw) {
    && raw[8192..8200] == [83, 79, 78, 65, 84, 65, 32, 32]      // "SONATA  "
    && raw[8224..8232] == [82, 69, 65, 68, 77, 69, 32, 32]      // "README  "
    && raw[8256..8264] == [79, 80, 84, 73, 79, 78, 83, 32]      // "OPTIONS "
    && raw[8288..8296] == [76, 79, 71, 32, 32, 32, 32, 32]      // "LOG     "
    && raw[8250..8252] == [2, 0] && raw[8282..8284] == [3, 0] && raw[8314..8316] == [4, 0]
    && raw[8284..8288] == [2, 0, 0, 0]
    && raw[1024..1034] == [0xF8, 0xFF, 0xFF, 0xFF, 0xFF, 0xFF, 0xFF, 0xFF, 0xFF, 0xFF]
  }

  lemma NameFromSlice(raw: Raw, name: seq<byte>, i: nat, t: seq<byte>)
    requires i < 32 && |t| == 8 && raw[8192 + 32 * i..8192 + 32 * i + 8] == t
    ensures NamedAt(raw, name, i) <==> forall k | 0 <= k < 8 :: t[k] == if k < |name| then name[k] else 32
  {
    assert forall k | 0 <= k < 8 :: raw[8192 + 32 * i + k] == t[k];
  }

  lemma InitialNames(raw: Raw)
    requires InitialDirectory(raw)
    ensures FirstEntry(raw, README, 1) && FirstEntry(raw, OPTIONS, 2) && FirstEntry(raw, LOG, 3)
  {
    NamesApart(raw, README);
    NamesApart(raw, OPTIONS);
    NamesApart(raw, LOG);
  }

  lemma NamesApart(raw: Raw, name: seq<byte>)
    requires InitialDirectory(raw) && (name == README || name == OPTIONS || name == LOG)
    ensures !NamedAt(raw, name, 0) && (NamedAt(raw, name, 1) <==> name == README)
    ensures (NamedAt(raw, name, 2) <==> name == OPTIONS) && (NamedAt(raw, name, 3) <==> name == LOG)
  {
    assert README[0] == 82 && OPTIONS[0] == 79 && LOG[0] == 76;
    NameFromSlice(raw, name, 0, [83, 79, 78, 65, 84, 65, 32, 32]);
    NameFromSlice(raw, name, 1, [82, 69, 65, 68, 77, 69, 32, 32]);
    NameFromSlice(raw, name, 2, [79, 80, 84, 73, 79, 78, 83, 32]);
    NameFromSlice(raw, name, 3, [76, 79, 71, 32, 32, 32, 32, 32]);
  }

  /** There the three files are found at entries 1 to 3 and in clusters 2 to 4. */
  lemma InitialFiles(raw: Raw)
    requires InitialDirectory(raw)
    ensures FindEntry(raw, README) == 1 && FindEntry(raw, OPTIONS) == 2 && FindEntry(raw, LOG) == 3
    ensures FileCluster(raw, README) == 2 && FileCluster(raw, OPTIONS) == 3 && FileCluster(raw, LOG) == 4
    ensures FileSize(RootEntry(raw, 2)) == 2
  {
    InitialNames(raw);
    FindEntryExactly(raw, README, 1);
    FindEntryExactly(raw, OPTIONS, 2);
    FindEntryExactly(raw, LOG, 3);
    InitialClusters(raw);
    InitialSize(raw);
  }

  lemma InitialClusters(raw: Raw)
    requires InitialDirectory(raw)
    ensures FileCluster(raw, README) == 2 && FileCluster(raw, OPTIONS) == 3 && FileCluster(raw, LOG) == 4
  {
    InitialNames(raw);
    InitialCluster(raw, README, 1, 2, 2);
    InitialCluster(raw, OPTIONS, 2, 3, 3);
    InitialCluster(raw, LOG, 3, 4, 4);
  }

  lemma InitialSize(raw: Raw)
    requires InitialDirectory(raw)
    ensures FileSize(RootEntry(raw, 2)) == 2
  {
    var s, e := raw[8284..8288], RootEntry(raw, 2);
    assert e[28] == s[0] && e[29] == s[1] && e[30] == s[2] && e[31] == s[3];
  }

  lemma InitialCluster(raw: Raw, name: seq<byte>, i: nat, c: nat, low: byte)
    requires FirstEntry(raw, name, i) && 2 <= c <= 4 && low as int == c
    requires raw[8192 + 32 * i + 26..8192 + 32 * i + 28] == [low, 0]
    requires raw[1024..1034] == [0xF8, 0xFF, 0xFF, 0xFF, 0xFF, 0xFF, 0xFF, 0xFF, 0xFF, 0xFF]
    ensures FileCluster(raw, name) == c
  {
    var s, fat := raw[8192 + 32 * i + 26..8192 + 32 * i + 28], raw[1024..1034];
    assert raw[8192 + 32 * i + 26] == s[0] && raw[8192 + 32 * i + 27] == s[1];
    assert raw[1024 + 2 * c] == fat[2 * c];
    WordOfEntry(raw, i);
    FirstIsFound(raw, name, i);
    ClusterOfEntry(raw, name, i, c);
  }

  /** The three names, spelled out. */
  lemma FileNames()
    ensures |README| == 6 && forall k | 0 <= k < 6 :: README[k] as int == "README"[k] as int
    ensures |OPTIONS| == 7 && forall k | 0 <= k < 7 :: OPTIONS[k] as int == "OPTIONS"[k] as int
    ensures |LOG| == 3 && forall k | 0 <= k < 3 :: LOG[k] as int == "LOG"[k] as int
  {}
}
