/** What every host write and every log message keeps of the RAM disk. */
module DiskProofs {
  import opened Bytes
  import opened ConfigText
  import opened DiskSpec
  import opened ConfigProofs
  import Uf2

  // ---------------------------------------------------------------- the root directory

  predicate SameRoot(a: Raw, b: Raw) {
    a[8192..9216] == b[8192..9216]
  }

  lemma EntryFromRoot(a: Raw, b: Raw, i: nat)
    requires SameRoot(a, b) && i < 32
    ensures RootEntry(a, i) == RootEntry(b, i)
  {
    forall k | 0 <= k < 32
      ensures RootEntry(a, i)[k] == RootEntry(b, i)[k]
    {
      assert a[8192..9216][32 * i + k] == b[8192..9216][32 * i + k];
    }
  }

  lemma {:induction false} FindFromRoot(a: Raw, b: Raw, name: Name, i: nat)
    requires SameRoot(a, b) && i <= 32
    ensures FindFrom(a, name, i) == FindFrom(b, name, i)
    decreases 32 - i
  {
    if i < 32 {
      EntryFromRoot(a, b, i);
      FindFromRoot(a, b, name, i + 1);
    }
  }

  lemma SpliceBehindRoot(raw: Raw, at: nat, data: seq<byte>)
    requires 9216 <= at && at + |data| <= 74752
    ensures SameRoot(Splice(raw, at, data), raw)
  {
    SpliceOutside(raw, at, data, 8192, 9216);
  }

  /** Overwriting an entry changes that entry only. */
  lemma PutEntryEntries(raw: Raw, name: seq<byte>, e: Entry, k: nat)
    requires k < 32
    ensures RootEntry(PutEntry(raw, name, e), k) == if k == FindEntry(raw, name) then e else RootEntry(raw, k)
  {
    var i := FindEntry(raw, name);
    if i >= 0 { EntrySplice(raw, i, e, k); }
  }

  lemma EntrySplice(raw: Raw, i: nat, e: Entry, k: nat)
    requires i < 32 && k < 32
    ensures RootEntry(Splice(raw, 8192 + 32 * i, e), k) == if k == i then e else RootEntry(raw, k)
  {
    var at, lo := 8192 + 32 * i, 8192 + 32 * k;
    if k == i {
      SpliceInside(raw, at, e);
    } else {
      assert lo + 32 <= at || at + 32 <= lo;
      SpliceOutside(raw, at, e, lo, lo + 32);
    }
  }

  lemma SpliceInside(s: seq<byte>, at: nat, data: seq<byte>)
    requires at + |data| <= |s|
    ensures Splice(s, at, data)[at..at + |data|] == data
  {}

  lemma SpliceOutside(s: seq<byte>, at: nat, data: seq<byte>, lo: nat, hi: nat)
    requires at + |data| <= |s| && lo <= hi <= |s| && (hi <= at || at + |data| <= lo)
    ensures Splice(s, at, data)[lo..hi] == s[lo..hi]
  {}

  lemma {:induction false} FindByEntries(raw: Raw, name: Name, i: nat, r: nat)
    requires i <= r < 32 && RootEntry(raw, r)[..8] == name
    requires forall k | i <= k < r :: RootEntry(raw, k)[..8] != name
    ensures FindFrom(raw, name, i) == r
    decreases 32 - i
  {
    if i < r { FindByEntries(raw, name, i + 1, r); }
  }

  /** Putting back an entry under its own name leaves it the first of that name. */
  lemma PutEntryFound(raw: Raw, name: seq<byte>, e: Entry)
    requires e[..8] == FatName(name)
    ensures FindEntry(PutEntry(raw, name, e), name) == FindEntry(raw, name)
    ensures FindEntry(raw, name) >= 0 ==> RootEntry(PutEntry(raw, name, e), FindEntry(raw, name)) == e
  {
    var i := FindEntry(raw, name);
    if i >= 0 {
      var r := PutEntry(raw, name, e);
      forall k | 0 <= k < 32
        ensures RootEntry(r, k) == if k == i then e else RootEntry(raw, k)
      {
        PutEntryEntries(raw, name, e, k);
      }
      FindByEntries(r, FatName(name), 0, i);
    }
  }

  lemma BoundsByRoot(a: Raw, b: Raw)
    requires SameRoot(a, b)
    ensures LogInBounds(a) == LogInBounds(b)
    ensures OptionsInBounds(a) == OptionsInBounds(b)
  {
    SameEntryFound(a, b, LOG);
    SameEntryFound(a, b, OPTIONS);
  }

  lemma SameEntryFound(a: Raw, b: Raw, name: seq<byte>)
    requires SameRoot(a, b)
    ensures FindEntry(a, name) == FindEntry(b, name)
    ensures FindEntry(b, name) >= 0 ==> RootEntry(a, FindEntry(b, name)) == RootEntry(b, FindEntry(b, name))
  {
    FindFromRoot(a, b, FatName(name), 0);
    if FindEntry(b, name) >= 0 { EntryFromRoot(a, b, FindEntry(b, name)); }
  }

  // ---------------------------------------------------------------- the LOG entry

  /** The first root entry named LOG, if any, is the one the firmware remembers. */
  ghost predicate Guarded(d: Disk) {
    && d.logEntry[..8] == FatName(LOG)
    && (FindEntry(d.raw, LOG) >= 0 ==> RootEntry(d.raw, FindEntry(d.raw, LOG)) == d.logEntry)
  }

  /** The first message printed at boot establishes it. */
  lemma FirstPrintGuards(d: Disk, msg: seq<byte>)
    requires FindEntry(d.raw, LOG) >= 0
    ensures Guarded(Print(d, msg))
  {
    PrintKeepsRoot(d, msg);
    var d' := Print(d, msg);
    SameEntryFound(d'.raw, d.raw, LOG);
  }

  lemma PrintKeepsRoot(d: Disk, msg: seq<byte>)
    ensures SameRoot(Print(d, msg).raw, d.raw)
    ensures Print(d, msg).opts == d.opts
  {
    var i := FindEntry(d.raw, LOG);
    if i >= 0 {
      var at := ClusterAt(StartingCluster(RootEntry(d.raw, i))) + d.logSize;
      if d.logSize < 4096 && StartingCluster(RootEntry(d.raw, i)) >= 2 && at + 4096 <= 74752 {
        SpliceBehindRoot(d.raw, at, LogBytes(d.logSize, msg));
      }
    }
  }

  lemma GuardedByRoot(d: Disk, d': Disk)
    requires Guarded(d) && SameRoot(d'.raw, d.raw) && d'.logEntry == d.logEntry
    ensures Guarded(d')
  {
    SameEntryFound(d'.raw, d.raw, LOG);
  }

  lemma {:induction false} PrintAllKeepsGuard(d: Disk, msgs: seq<seq<byte>>)
    requires Guarded(d)
    ensures Guarded(PrintAll(d, msgs)) && PrintAll(d, msgs).logEntry == d.logEntry
    ensures SameRoot(PrintAll(d, msgs).raw, d.raw) && PrintAll(d, msgs).opts == d.opts
    decreases msgs
  {
    if msgs != [] {
      PrintKeepsRoot(d, msgs[0]);
      GuardedByRoot(d, Print(d, msgs[0]));
      PrintAllKeepsGuard(Print(d, msgs[0]), msgs[1..]);
    }
  }

  lemma ParseKeepsRoot(d: Disk)
    ensures SameRoot(ParseConfig(d).disk.raw, d.raw)
    ensures ParseConfig(d).disk.logEntry == d.logEntry
  {}

  lemma ParseKeepsGuard(d: Disk)
    requires Guarded(d)
    ensures Guarded(ParseConfig(d).disk) && ParseConfig(d).disk.logEntry == d.logEntry
  {
    ParseKeepsRoot(d);
    GuardedByRoot(d, ParseConfig(d).disk);
  }

  lemma CopyRestoresGuard(d: Disk, w: HostWrite)
    requires Guarded(d) && w.lba * 1024 + w.offset + |Payload(w)| <= 74752
    ensures Guarded(Copied(d, w)) && Copied(d, w).logEntry == d.logEntry
  {
    var raw := Splice(d.raw, w.lba * 1024 + w.offset, Payload(w));
    PutEntryFound(raw, LOG, d.logEntry);
  }

  lemma BeforeCopyKeepsGuard(d: Disk, w: HostWrite)
    requires Guarded(d)
    ensures Guarded(BeforeCopy(d, w)) && BeforeCopy(d, w).logEntry == d.logEntry
  {
    var d1 := if TouchesOptions(d.raw, w.lba) then d.(opts := d.opts.(dirty := true)) else d;
    GuardedByRoot(d, d1);
    PrintAllKeepsGuard(d1, w.flashLog);
  }

  /** A host write may do anything to the disk, but the remembered entry stays and is put back in its place. */
  lemma WriteKeepsGuard(d: Disk, w: HostWrite)
    requires Guarded(d) && InDisk(w)
    ensures Guarded(Write(d, w)) && Write(d, w).logEntry == d.logEntry
  {
    BeforeCopyKeepsGuard(d, w);
    var d2 := BeforeCopy(d, w);
    if |w.data| > 0 && w.lba < 73 {
      CopyRestoresGuard(d2, w);
      var d3 := Copied(d2, w);
      ParseKeepsGuard(d3);
      PrintAllKeepsGuard(ParseConfig(d3).disk, w.parseLog);
      var d4 := PrintAll(ParseConfig(d3).disk, w.parseLog);
      GuardedByRoot(d4, d4.(opts := DEFAULTS));
    }
  }

  /** LOG entry persistence: over every sequence of host writes. */
  lemma {:induction false} LogEntryPersists(d: Disk, ws: seq<HostWrite>)
    requires Guarded(d) && forall w | w in ws :: InDisk(w)
    ensures Guarded(WriteAll(d, ws)) && WriteAll(d, ws).logEntry == d.logEntry
    decreases ws
  {
    if ws != [] {
      WriteKeepsGuard(d, ws[0]);
      LogEntryPersists(Write(d, ws[0]), ws[1..]);
    }
  }

  // ---------------------------------------------------------------- the log's text

  /** The first 4095 bytes of a text, padded with spaces to a cluster. */
  function Padded(text: seq<byte>): (r: seq<byte>)
    ensures |r| == 4096
  {
    text[..Min(|text|, 4095)] + Spaces(4096 - Min(|text|, 4095))
  }

  ghost predicate LogIn(d: Disk, c: nat) {
    && 2 <= c <= 16
    && FindEntry(d.raw, LOG) >= 0 && StartingCluster(RootEntry(d.raw, FindEntry(d.raw, LOG))) == c
  }

  /** The log in cluster c holds this text. */
  ghost predicate LogHolds(d: Disk, c: nat, text: seq<byte>) {
    && LogIn(d, c) && d.logSize == Min(|text|, 4095)
    && d.raw[ClusterAt(c)..ClusterAt(c) + 4096] == Padded(text)
  }

  lemma PrintKeepsLogIn(d: Disk, c: nat, msg: seq<byte>)
    requires LogIn(d, c)
    ensures LogIn(Print(d, msg), c)
  {
    PrintKeepsRoot(d, msg);
    SameEntryFound(Print(d, msg).raw, d.raw, LOG);
  }

  lemma PrintForm(d: Disk, c: nat, msg: seq<byte>)
    requires LogIn(d, c) && d.logSize < 4096
    ensures Print(d, msg).raw == Splice(d.raw, ClusterAt(c) + d.logSize, LogBytes(d.logSize, msg))
    ensures Print(d, msg).logSize == d.logSize + Room(d.logSize, msg)
  {}

  /**
   A message changes nothing outside the log's cluster but the first old-log-size bytes of the next one,
   which it blanks.
   */
  lemma PrintFrame(d: Disk, c: nat, msg: seq<byte>, i: nat)
    requires LogIn(d, c) && d.logSize < 4096 && i < 74752
    ensures i < ClusterAt(c) + d.logSize || i >= ClusterAt(c) + 4096 + d.logSize ==> Print(d, msg).raw[i] == d.raw[i]
    ensures ClusterAt(c) + 4096 <= i < ClusterAt(c) + 4096 + d.logSize ==> Print(d, msg).raw[i] == SPACE
  {
    PrintForm(d, c, msg);
    SpliceAt(d.raw, ClusterAt(c) + d.logSize, LogBytes(d.logSize, msg), i);
  }

  lemma SpliceAt(s: seq<byte>, at: nat, data: seq<byte>, i: nat)
    requires at + |data| <= |s| && i < |s|
    ensures Splice(s, at, data)[i] == if at <= i < at + |data| then data[i - at] else s[i]
  {}

  lemma PaddedNext(text: seq<byte>, msg: seq<byte>, size: nat)
    requires size == Min(|text|, 4095)
    ensures Padded(text)[..size] + LogBytes(size, msg)[..4096 - size] == Padded(text + msg)
    ensures size + Room(size, msg) == Min(|text + msg|, 4095)
  {
    var n := Room(size, msg);
    assert LogBytes(size, msg)[..4096 - size] == msg[..n] + Spaces(4096 - size - n);
    if |text| <= 4095 {
      assert (text + msg)[..size + n] == text + msg[..n];
    } else {
      assert (text + msg)[..4095] == text[..4095];
    }
  }

  lemma ClusterAfterPrint(d: Disk, c: nat, msg: seq<byte>)
    requires LogIn(d, c) && d.logSize < 4096
    ensures Print(d, msg).raw[ClusterAt(c)..ClusterAt(c) + 4096] ==
            d.raw[ClusterAt(c)..ClusterAt(c) + 4096][..d.logSize] + LogBytes(d.logSize, msg)[..4096 - d.logSize]
  {
    PrintForm(d, c, msg);
    SpliceSlice(d.raw, ClusterAt(c), d.logSize, LogBytes(d.logSize, msg));
  }

  lemma SpliceSlice(s: seq<byte>, at: nat, k: nat, data: seq<byte>)
    requires |data| == 4096 && k <= 4096 && at + k + 4096 <= |s|
    ensures Splice(s, at + k, data)[at..at + 4096] == s[at..at + 4096][..k] + data[..4096 - k]
  {
    var r := Splice(s, at + k, data);
    assert r[at..at + k] == s[at..at + k];
    assert r[at + k..at + 4096] == data[..4096 - k];
  }

  /** A message is appended to what the log holds. */
  lemma PrintAppends(d: Disk, c: nat, text: seq<byte>, msg: seq<byte>)
    requires LogHolds(d, c, text)
    ensures LogHolds(Print(d, msg), c, text + msg)
  {
    PrintKeepsLogIn(d, c, msg);
    PrintForm(d, c, msg);
    ClusterAfterPrint(d, c, msg);
    PaddedNext(text, msg, d.logSize);
  }

  /** The first message of an empty log clears whatever the cluster held. */
  lemma FirstPrintHolds(d: Disk, c: nat, msg: seq<byte>)
    requires LogIn(d, c) && d.logSize == 0
    ensures LogHolds(Print(d, msg), c, msg)
  {
    PrintKeepsLogIn(d, c, msg);
    PrintForm(d, c, msg);
    ClusterAfterPrint(d, c, msg);
    PaddedNext([], msg, 0);
    assert [] + msg == msg;
  }

  function Concat(msgs: seq<seq<byte>>): seq<byte>
    decreases msgs
  {
    if msgs == [] then [] else msgs[0] + Concat(msgs[1..])
  }

  /** From d to d', this text has been appended to whatever the log held. */
  ghost predicate Appended(d: Disk, d': Disk, c: nat, more: seq<byte>) {
    forall text :: LogHolds(d, c, text) ==> LogHolds(d', c, text + more)
  }

  lemma Chain(p0: seq<byte> -> bool, p1: seq<byte> -> bool, p2: seq<byte> -> bool, a: seq<byte>, b: seq<byte>)
    requires forall t :: p0(t) ==> p1(t + a)
    requires forall t :: p1(t) ==> p2(t + b)
    ensures forall t :: p0(t) ==> p2(t + (a + b))
  {
    forall t | p0(t)
      ensures p2(t + (a + b))
    {
      assert p1(t + a);
      assert (t + a) + b == t + (a + b);
    }
  }

  lemma AppendedTwice(d: Disk, d1: Disk, d2: Disk, c: nat, a: seq<byte>, b: seq<byte>)
    requires Appended(d, d1, c, a) && Appended(d1, d2, c, b)
    ensures Appended(d, d2, c, a + b)
  {
    Chain(t => LogHolds(d, c, t), t => LogHolds(d1, c, t), t => LogHolds(d2, c, t), a, b);
  }

  lemma PrintAppended(d: Disk, c: nat, msg: seq<byte>)
    ensures Appended(d, Print(d, msg), c, msg)
  {
    forall text | LogHolds(d, c, text)
      ensures LogHolds(Print(d, msg), c, text + msg)
    {
      PrintAppends(d, c, text, msg);
    }
  }

  /**
   Log append over runs: after any messages the log's cluster holds the first 4095 bytes of all the
   text printed so far, padded with spaces.
   */
  lemma {:induction false} PrintAllAppends(d: Disk, c: nat, msgs: seq<seq<byte>>)
    ensures Appended(d, PrintAll(d, msgs), c, Concat(msgs))
    decreases msgs
  {
    if msgs == [] {
      assert forall text: seq<byte> :: text + [] == text;
    } else {
      PrintAppended(d, c, msgs[0]);
      PrintAllAppends(Print(d, msgs[0]), c, msgs[1..]);
      AppendedTwice(d, Print(d, msgs[0]), PrintAll(d, msgs), c, msgs[0], Concat(msgs[1..]));
    }
  }

  lemma LogIsConcatenation(d: Disk, c: nat, text: seq<byte>, msgs: seq<seq<byte>>)
    requires LogHolds(d, c, text)
    ensures LogHolds(PrintAll(d, msgs), c, text + Concat(msgs))
  {
    PrintAllAppends(d, c, msgs);
  }

  /** The same from boot, when nothing has been logged. */
  lemma LogFromBoot(d: Disk, c: nat, msgs: seq<seq<byte>>)
    requires LogIn(d, c) && d.logSize == 0 && msgs != []
    ensures LogHolds(PrintAll(d, msgs), c, Concat(msgs))
  {
    FirstPrintHolds(d, c, msgs[0]);
    LogIsConcatenation(Print(d, msgs[0]), c, msgs[0], msgs[1..]);
  }

  /**
   Over a run, everything outside the log's cluster and the next one is kept, and so is the next one behind
   the log's final size.
   */
  lemma {:induction false} LogRunFrame(d: Disk, c: nat, text: seq<byte>, msgs: seq<seq<byte>>, i: nat)
    requires LogHolds(d, c, text) && i < 74752
    requires i < ClusterAt(c) || i >= ClusterAt(c) + 4096 + PrintAll(d, msgs).logSize
    ensures PrintAll(d, msgs).raw[i] == d.raw[i]
    ensures PrintAll(d, msgs).logSize >= d.logSize
    decreases msgs
  {
    if msgs != [] {
      PrintAppends(d, c, text, msgs[0]);
      LogSizeGrows(Print(d, msgs[0]), c, text + msgs[0], msgs[1..]);
      LogRunFrame(Print(d, msgs[0]), c, text + msgs[0], msgs[1..], i);
      PrintFrame(d, c, msgs[0], i);
    }
  }

  lemma {:induction false} LogSizeGrows(d: Disk, c: nat, text: seq<byte>, msgs: seq<seq<byte>>)
    requires LogHolds(d, c, text)
    ensures PrintAll(d, msgs).logSize >= d.logSize
  {
    LogIsConcatenation(d, c, text, msgs);
  }

  // ---------------------------------------------------------------- the options file

  lemma {:induction false} DecimalLength(n: nat, k: nat, bound: nat)
    requires k > 0 && bound == Power10(k) && n < bound
    ensures |Decimal(n)| <= k
    decreases k
  {
    if n >= 10 {
      assert bound == 10 * Power10(k - 1) && Power10(0) == 1;
      DecimalLength(n / 10, k - 1, Power10(k - 1));
    }
  }

  function Power10(k: nat): nat {
    if k == 0 then 1 else 10 * Power10(k - 1)
  }

  lemma SpeedLength(n: u32)
    ensures |Decimal(n)| <= 10
  {
    assert Power10(5) == 100000;
    assert Power10(10) == 10_000_000_000;
    DecimalLength(n, 10, Power10(10));
  }

  /** The printed options always fit. */
  lemma ConfigTextLength(o: Options)
    ensures 0 < |RenderAll(ConfigLines(o))| <= 75
  {
    var ls := ConfigLines(o);
    SpeedLength(o.fpgaSpeed);
    SpeedLength(o.flashSpeed);
    var b, d := ls[1], ls[2];
    assert ls[1..] == [b, d] && [b, d][1..] == [d] && [d][1..] == [];
    assert RenderAll([d]) == Render(d) + RenderAll([]);
    assert RenderAll([b, d]) == Render(b) + RenderAll([d]);
  }

  predicate NoNul(t: seq<byte>) {
    forall c | c in t :: c != 0
  }

  lemma {:induction false} DecimalNoNul(n: nat)
    ensures NoNul(Decimal(n))
  {
    DigitByte(n % 10);
    if n >= 10 { DecimalNoNul(n / 10); }
  }

  lemma RenderNoNul(l: Line)
    ensures NoNul(Render(l))
  {
    match l.s
    case Prog(_) =>
    case Fpga(n) => DecimalNoNul(n);
    case Flash(n) => DecimalNoNul(n);
  }

  lemma {:induction false} RenderAllNoNul(ls: seq<Line>)
    ensures NoNul(RenderAll(ls))
    decreases ls
  {
    if ls != [] {
      RenderNoNul(ls[0]);
      RenderAllNoNul(ls[1..]);
    }
  }

  /** A NUL-free text with a NUL behind it is the C string found there. */
  lemma {:induction false} CTextIs(s: seq<byte>, i: nat, t: seq<byte>)
    requires i + |t| < |s| && s[i..i + |t|] == t && s[i + |t|] == 0 && NoNul(t)
    ensures CText(s, i) == t
    decreases t
  {
    if t != [] {
      assert s[i] == t[0] && t[0] in t;
      assert s[i + 1..i + 1 + |t[1..]|] == t[1..];
      assert forall c | c in t[1..] :: c in t;
      CTextIs(s, i + 1, t[1..]);
      assert t == [t[0]] + t[1..];
    }
  }

  lemma SizeOfBytes(e: Entry, x: u32)
    requires e[28..32] == Le32Bytes(x)
    ensures FileSize(e) == x
  {
    var d := e[28..32];
    assert d[0] == e[28] && d[1] == e[29] && d[2] == e[30] && d[3] == e[31];
    Digits(x);
  }

  /** A directory entry with a new size. */
  function Sized(e: Entry, n: u32): Entry {
    Splice(e, 28, Le32Bytes(n))
  }

  lemma SizedEntry(e: Entry, n: u32)
    ensures Sized(e, n)[..8] == e[..8] && StartingCluster(Sized(e, n)) == StartingCluster(e)
    ensures FileSize(Sized(e, n)) == n
  {
    assert Sized(e, n)[28..32] == Le32Bytes(n);
    SizeOfBytes(Sized(e, n), n);
  }

  lemma EntrySpliceKeepsClusters(raw: Raw, name: seq<byte>, e: Entry, at: nat, text: seq<byte>)
    requires 9216 <= at && at + |text| <= 74752 && raw[at..at + |text|] == text
    ensures PutEntry(raw, name, e)[at..at + |text|] == text
  {
    var i := FindEntry(raw, name);
    if i >= 0 { SpliceOutside(raw, 8192 + 32 * i, e, at, at + |text|); }
  }

  /** Text into a cluster and a sized entry into the directory: both are found there. */
  lemma TextAndEntryFound(raw: Raw, e: Entry, at: nat, text: seq<byte>)
    requires FindEntry(raw, OPTIONS) >= 0 && e[..8] == FatName(OPTIONS) && 9216 <= at && at + |text| + 1 <= 74752
    ensures var r := PutEntry(Splice(raw, at, text + [0]), OPTIONS, e);
            && FindEntry(r, OPTIONS) == FindEntry(raw, OPTIONS) && RootEntry(r, FindEntry(raw, OPTIONS)) == e
            && r[at..at + |text|] == text
  {
    var copied := Splice(raw, at, text + [0]);
    SpliceBehindRoot(raw, at, text + [0]);
    FindFromRoot(copied, raw, FatName(OPTIONS), 0);
    PutEntryFound(copied, OPTIONS, e);
    assert copied[at..at + |text|] == text;
    EntrySpliceKeepsClusters(copied, OPTIONS, e, at, text);
  }

  lemma ClusterText(raw: Raw, at: nat, text: seq<byte>)
    requires at + 4096 <= 74752 && |text| < 1024 && raw[at..at + |text|] == text && NoNul(text)
    ensures CText(raw[at + |text| := 0][at..at + 4096], 0) == text
  {
    var cluster := raw[at + |text| := 0][at..at + 4096];
    assert cluster[0..|text|] == raw[at..at + |text|];
    CTextIs(cluster, 0, text);
  }

  lemma ParseClusterText(d: Disk, at: nat, text: seq<byte>)
    requires at + 4096 <= 74752 && |text| < 1024 && d.raw[at..at + |text|] == text && NoNul(text)
    ensures var p := ParseCluster(d, at, |text|);
            p.ok == ParseText(text, d.opts).ok && p.disk.opts == ParseText(text, d.opts).opts
  {
    ClusterText(d.raw, at, text);
  }

  lemma ParseEntryText(d: Disk, e: Entry, text: seq<byte>)
    requires TextOf(d.raw, e, text)
    ensures ParseEntry(d, e).ok == ParseText(text, d.opts).ok
    ensures ParseEntry(d, e).disk.opts == ParseText(text, d.opts).opts
  {
    ParseClusterText(d, ClusterAt(StartingCluster(e)), text);
  }

  /** The options file is in entry e and holds exactly this text. */
  ghost predicate OptionsText(raw: Raw, text: seq<byte>) {
    FindEntry(raw, OPTIONS) >= 0 && TextOf(raw, RootEntry(raw, FindEntry(raw, OPTIONS)), text)
  }

  ghost predicate TextOf(raw: Raw, e: Entry, text: seq<byte>) {
    && 2 <= StartingCluster(e) <= 17 && 0 < FileSize(e) == |text| < 1024 && NoNul(text)
    && raw[ClusterAt(StartingCluster(e))..ClusterAt(StartingCluster(e)) + |text|] == text
  }

  lemma ParseOptionsText(d: Disk, text: seq<byte>)
    requires OptionsText(d.raw, text)
    ensures ParseConfig(d).ok == ParseText(text, d.opts).ok && ParseConfig(d).disk.opts == ParseText(text, d.opts).opts
  {
    ParseEntryText(d, RootEntry(d.raw, FindEntry(d.raw, OPTIONS)), text);
  }

  lemma WriteConfigForm(d: Disk, prior: Entry)
    requires FindEntry(d.raw, OPTIONS) >= 0 && RootEntry(d.raw, FindEntry(d.raw, OPTIONS)) == prior
    requires 2 <= StartingCluster(prior) <= 17
    ensures var text := RenderAll(ConfigLines(d.opts));
            && 0 < |text| <= 75 && WriteConfig(d).ok
            && WriteConfig(d).disk.raw == PutEntry(Splice(d.raw, ClusterAt(StartingCluster(prior)), text + [0]),
                                                   OPTIONS, Sized(prior, |text|))
  {
    ConfigTextLength(d.opts);
  }

  /** Writing the options makes them the text of the options file. */
  lemma WriteConfigText(d: Disk, prior: Entry)
    requires FindEntry(d.raw, OPTIONS) >= 0 && RootEntry(d.raw, FindEntry(d.raw, OPTIONS)) == prior
    requires 2 <= StartingCluster(prior) <= 17
    ensures WriteConfig(d).ok && OptionsText(WriteConfig(d).disk.raw, RenderAll(ConfigLines(d.opts)))
  {
    var text := RenderAll(ConfigLines(d.opts));
    WriteConfigForm(d, prior);
    RenderAllNoNul(ConfigLines(d.opts));
    TextWritten(d.raw, prior, text);
  }

  lemma TextWritten(raw: Raw, prior: Entry, text: seq<byte>)
    requires FindEntry(raw, OPTIONS) >= 0 && RootEntry(raw, FindEntry(raw, OPTIONS)) == prior
    requires 2 <= StartingCluster(prior) <= 17 && 0 < |text| < 1023 && NoNul(text)
    ensures var written := Splice(raw, ClusterAt(StartingCluster(prior)), text + [0]);
            OptionsText(PutEntry(written, OPTIONS, Sized(prior, |text|)), text)
  {
    SizedEntry(prior, |text|);
    TextAndEntryFound(raw, Sized(prior, |text|), ClusterAt(StartingCluster(prior)), text);
  }

  /** Well-formed lines in the options file are applied in order. */
  lemma LinesParsedFromDisk(d: Disk, ls: seq<Line>)
    requires OptionsText(d.raw, RenderAll(ls))
    ensures ParseConfig(d).ok == Apply(ls, d.opts).ok && ParseConfig(d).disk.opts == Apply(ls, d.opts).opts
  {
    ParseOptionsText(d, RenderAll(ls));
    ParseMeansApply(ls, d.opts);
  }

  /** What is written is what is parsed back from the disk, exactly when both speeds are positive. */
  lemma DiskConfigRoundTrip(d: Disk, o: Options)
    requires FindEntry(d.raw, OPTIONS) >= 0
    requires 2 <= StartingCluster(RootEntry(d.raw, FindEntry(d.raw, OPTIONS))) <= 17
    ensures WriteConfig(d).ok
    ensures var p := ParseConfig(WriteConfig(d).disk.(opts := o));
            && (p.ok <==> d.opts.fpgaSpeed > 0 && d.opts.flashSpeed > 0)
            && (p.ok ==> p.disk.opts == d.opts.(dirty := false))
  {
    WriteConfigText(d, RootEntry(d.raw, FindEntry(d.raw, OPTIONS)));
    ParseOptionsText(WriteConfig(d).disk.(opts := o), RenderAll(ConfigLines(d.opts)));
    ConfigRoundTrip(d.opts, o);
  }
}
