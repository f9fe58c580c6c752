/**
 Finding the length field in a Xilinx bitstream header (usb_msc/fpga_program.c): scan forwards
 to the sync words, then backwards over the 0xFF filler to the four length bytes.
 */
module Bitstream {
  import opened Bytes

  const SYNC: seq<byte> := [0x00, 0x00, 0x00, 0xBB, 0x11, 0x22, 0x00, 0x44]

  predicate SyncAt(w: seq<byte>, i: nat) {
    i + 8 <= |w| && w[i..i + 8] == SYNC
  }

  /** Where the forward loop stops: the first sync at or after the first 0xFF, or the end of its range. */
  function ScanForward(w: seq<byte>, loc: nat, found: bool): (r: nat)
    requires 8 <= |w| && loc <= |w| - 8
    ensures loc <= r <= |w| - 8
    decreases |w| - loc
  {
    if loc >= |w| - 8 then loc
    else if !found && w[loc] != 0xFF then ScanForward(w, loc + 1, false)
    else if SyncAt(w, loc) then loc
    else ScanForward(w, loc + 1, true)
  }

  /** The last index below loc that does not hold 0xFF, or -1. */
  function ScanBack(w: seq<byte>, loc: int): (r: int)
    requires -1 <= loc < |w|
    ensures -1 <= r <= loc && (r >= 0 ==> w[r] != 0xFF)
    ensures forall i | r < i <= loc :: w[i] == 0xFF
    decreases loc
  {
    if loc < 0 then -1
    else if w[loc] == 0xFF then ScanBack(w, loc - 1)
    else loc
  }

  function SyncLoc(w: seq<byte>): nat
    requires 8 <= |w|
  {
    ScanForward(w, 0, false)
  }

  /** The backward scan stays inside the buffer: there is no sync, or something before it is not filler. */
  predicate ScanInBounds(w: seq<byte>)
    requires 8 <= |w|
  {
    SyncLoc(w) == |w| - 8 || ScanBack(w, SyncLoc(w) - 1) >= 0
  }

  /** Offset of the length field, or -1. */
  function LenOffset(w: seq<byte>): (r: int)
    requires 8 <= |w|
    ensures r == -1 || 1 <= r < |w| - 11
  {
    var loc := SyncLoc(w);
    if loc + 8 >= |w| then -1
    else
      var last := ScanBack(w, loc - 1);
      if last <= 3 then -1 else last - 3
  }

  function Be32(s: seq<byte>, i: nat): u32
    requires i + 4 <= |s|
  {
    0x100_0000 * (s[i] as int) + 0x1_0000 * (s[i + 1] as int) + 0x100 * (s[i + 2] as int) + (s[i + 3] as int)
  }

  /** Length of the whole bitstream, header included; 0 if there is none. */
  function BitstreamLength(w: seq<byte>): u32
    requires 8 <= |w|
  {
    var o := LenOffset(w);
    if o < 0 then 0 else Wrap(Be32(w, o) + o + 4)
  }

  // ---------------------------------------------------------------- the source's loops

  method FindBitstreamLenOffset(w: seq<byte>) returns (r: int)
    requires 8 <= |w| <= 0xFFFF && ScanInBounds(w)
    ensures r == LenOffset(w)
  {
    var loc := 0;
    var foundFF := false;
    while loc < |w| - 8
      invariant loc <= |w| - 8
      invariant ScanForward(w, loc, foundFF) == SyncLoc(w)
    {
      if !foundFF {
        if w[loc] != 0xFF {
          loc := loc + 1;
          continue;
        } else {
          foundFF := true;
        }
      }
      if w[loc..loc + 8] == SYNC { break; }
      loc := loc + 1;
    }
    assert loc == SyncLoc(w);
    if loc + 8 >= |w| { return -1; }
    loc := loc - 1;
    while w[loc] == 0xFF
      invariant 0 <= loc < |w|
      invariant ScanBack(w, loc) == ScanBack(w, SyncLoc(w) - 1)
      decreases loc
    {
      loc := loc - 1;
    }
    if loc <= 3 { return -1; }
    return loc - 4 + 1;
  }

  method GetBitstreamLength(w: seq<byte>) returns (len: u32)
    requires 8 <= |w| <= 0xFFFF && ScanInBounds(w)
    ensures len == BitstreamLength(w)
  {
    var o := FindBitstreamLenOffset(w);
    if o < 0 { return 0; }
    len := AddHeaderLength(Be32(w, o), o);
  }

  /** The source's two 32-bit additions. */
  method AddHeaderLength(coded: u32, o: nat) returns (len: u32)
    ensures len == Wrap(coded + o + 4)
  {
    WrapTwice(coded + o, 4);
    len := Wrap(coded + o);
    len := Wrap(len + 4);
  }

  // ---------------------------------------------------------------- what is recognised

  /** A header whose length field is at o and whose sync words are at s. */
  ghost predicate Header(w: seq<byte>, o: nat, s: nat) {
    && 1 <= o && o + 4 <= s < |w| - 8
    && w[o + 3] != 0xFF                                       // the length field does not end like filler
    && (forall i | o + 4 <= i < s :: w[i] == 0xFF)
    && SyncAt(w, s)
    && (exists f | 0 <= f < s :: w[f] == 0xFF)
    && (forall t | 0 <= t < s && SyncAt(w, t) :: forall f | 0 <= f <= t :: w[f] != 0xFF)
  }

  lemma SyncBegins(w: seq<byte>, t: nat)
    requires SyncAt(w, t)
    ensures w[t] == 0x00 && w[t + 1] == 0x00
  {
    assert w[t] == w[t..t + 8][0] && w[t + 1] == w[t..t + 8][1];
  }

  lemma {:induction false} ScanForwardMeaning(w: seq<byte>, loc: nat, found: bool)
    requires 8 <= |w| && loc <= |w| - 8
    requires found <==> exists f | 0 <= f < loc :: w[f] == 0xFF
    ensures var s := ScanForward(w, loc, found);
            && (s < |w| - 8 ==> SyncAt(w, s) && exists f | 0 <= f < s :: w[f] == 0xFF)
            && (forall t | loc <= t < s && SyncAt(w, t) :: forall f | 0 <= f <= t :: w[f] != 0xFF)
    decreases |w| - loc
  {
    if loc >= |w| - 8 {
    } else if !found && w[loc] != 0xFF {
      ScanForwardMeaning(w, loc + 1, false);
    } else if SyncAt(w, loc) {
      SyncBegins(w, loc);
    } else {
      ScanForwardMeaning(w, loc + 1, true);
    }
  }

  /** The forward scan finds the sync of a header and no other place. */
  lemma SyncLocUnique(w: seq<byte>, s: nat)
    requires 8 <= |w| && s < |w| - 8 && SyncAt(w, s)
    requires exists f | 0 <= f < s :: w[f] == 0xFF
    requires forall t | 0 <= t < s && SyncAt(w, t) :: forall f | 0 <= f <= t :: w[f] != 0xFF
    ensures SyncLoc(w) == s
  {
    ScanForwardMeaning(w, 0, false);
  }

  /** Recognition in both directions: the offset returned is o exactly when o is the length field of a header. */
  lemma HeaderRecognised(w: seq<byte>, o: nat)
    requires 8 <= |w|
    ensures LenOffset(w) == o <==> exists s :: Header(w, o, s)
  {
    ScanForwardMeaning(w, 0, false);
    var s := SyncLoc(w);
    if LenOffset(w) == o {
      assert Header(w, o, s);
    }
    if s': nat :| Header(w, o, s') {
      SyncLocUnique(w, s');
      assert ScanBack(w, s' - 1) == o + 3;
    }
  }

  function Filler(k: nat): seq<byte> { seq(k, _ => 0xFF) }

  /** A header with the given four length bytes. */
  function WithHeader(p: seq<byte>, len: seq<byte>, k: nat, rest: seq<byte>): (w: seq<byte>)
    requires |len| == 4
    ensures |w| == |p| + 4 + k + 8 + |rest|
  {
    p + len + Filler(k) + SYNC + rest
  }

  /** No sync before s, at or after a first 0xFF. */
  ghost predicate SyncFree(w: seq<byte>, s: nat)
    requires s <= |w|
  {
    forall t | 0 <= t < s && SyncAt(w, t) :: forall f | 0 <= f <= t :: w[f] != 0xFF
  }

  lemma WithHeaderLayout(p: seq<byte>, len: seq<byte>, k: nat, rest: seq<byte>)
    requires |len| == 4
    ensures var w := WithHeader(p, len, k, rest);
            var s := |p| + 4 + k;
            && w[|p|..|p| + 4] == len
            && SyncAt(w, s)
            && (forall i | |p| + 4 <= i < s :: w[i] == 0xFF)
  {
    var w := WithHeader(p, len, k, rest);
    var s := |p| + 4 + k;
    assert w[s..s + 8] == SYNC;
  }

  lemma HeaderRead(p: seq<byte>, len: seq<byte>, k: nat, rest: seq<byte>)
    requires |p| >= 1 && |len| == 4 && k >= 1 && len[3] != 0xFF && |rest| >= 1
    requires SyncFree(WithHeader(p, len, k, rest), |p| + 4 + k)
    ensures LenOffset(WithHeader(p, len, k, rest)) == |p|
    ensures BitstreamLength(WithHeader(p, len, k, rest)) == Wrap(|p| + 4 + Be32(len, 0))
  {
    var w := WithHeader(p, len, k, rest);
    WithHeaderLayout(p, len, k, rest);
    var d := w[|p|..|p| + 4];
    assert d[0] == w[|p|] && d[1] == w[|p| + 1] && d[2] == w[|p| + 2] && d[3] == w[|p| + 3];
    assert w[|p| + 4] == 0xFF;
    assert Header(w, |p|, |p| + 4 + k);
    HeaderRecognised(w, |p|);
  }

  lemma BytesOfLength(len: u32)
    ensures Be32(Be32Bytes(len), 0) == len
    ensures Be32Bytes(len)[3] == 0xFF <==> len % 0x100 == 0xFF
  {
    Digits(len);
    ByteIs(Be32Bytes(len)[3]);
  }

  lemma ByteIs(b: byte)
    ensures b == 0xFF <==> b as int == 0xFF
  {}

  /**
   Header round trip: prefix, the four bytes of a length (most significant first), filler, the sync words.
   The length is found behind the prefix, for every length, provided the prefix is not empty, the length does
   not end in 0xFF and no sync comes earlier at or after a 0xFF.
   */
  lemma HeaderRoundTrip(p: seq<byte>, len: u32, k: nat, rest: seq<byte>)
    requires |p| >= 1 && k >= 1 && len % 0x100 != 0xFF && |rest| >= 1
    requires SyncFree(WithHeader(p, Be32Bytes(len), k, rest), |p| + 4 + k)
    ensures var w := p + Be32Bytes(len) + Filler(k) + [0x00, 0x00, 0x00, 0xBB, 0x11, 0x22, 0x00, 0x44] + rest;
            LenOffset(w) == |p| && BitstreamLength(w) == Wrap(|p| + 4 + len)
  {
    BytesOfLength(len);
    HeaderRead(p, Be32Bytes(len), k, rest);
  }

  /** The total that four length bytes at o give. */
  function TotalAt(w: seq<byte>, o: nat): u32
    requires o + 4 <= |w|
  {
    (16777216 * (w[o] as int) + 65536 * (w[o + 1] as int) + 256 * (w[o + 2] as int) + (w[o + 3] as int) + o + 4)
    % 0x1_0000_0000
  }

  /** The length for every window with a header: read there, most significant byte first, header included. */
  lemma LengthRead(w: seq<byte>, o: nat, s: nat)
    requires 8 <= |w| && Header(w, o, s)
    ensures BitstreamLength(w) == TotalAt(w, o)
  {
    HeaderRecognised(w, o);
  }

  /** And 0 for every window without one. */
  lemma NoHeaderNoLength(w: seq<byte>)
    requires 8 <= |w| && forall o: nat, s: nat :: !Header(w, o, s)
    ensures BitstreamLength(w) == 0
  {
    if LenOffset(w) >= 0 { HeaderRecognised(w, LenOffset(w)); }
  }

  /** Where a length is found the scan has stayed in the buffer. */
  lemma FoundInBounds(w: seq<byte>)
    requires 8 <= |w| && LenOffset(w) >= 0
    ensures ScanInBounds(w)
  {}

  // ---------------------------------------------------------------- where the backward scan leaves the buffer

  /** Nothing but filler before the sync words at s, the first of the window. */
  predicate FillerThenSync(w: seq<byte>, s: nat) {
    1 <= s < |w| - 8 && SyncAt(w, s) && forall i | 0 <= i < s :: w[i] == 0xFF
  }

  /** The backward scan leaves the buffer exactly on windows that are filler up to their sync words. */
  lemma ScanInBoundsExactly(w: seq<byte>)
    requires 8 <= |w|
    ensures !ScanInBounds(w) <==> exists s: nat :: FillerThenSync(w, s)
  {
    ScanForwardMeaning(w, 0, false);
    if !ScanInBounds(w) {
      assert FillerThenSync(w, SyncLoc(w));
    }
    if s: nat :| FillerThenSync(w, s) {
      assert forall t | 0 <= t < s && SyncAt(w, t) :: w[t] == w[t..t + 8][0];
      assert w[0] == 0xFF;
      SyncLocUnique(w, s);
    }
  }

  /** Such a window is the start of a bitstream file without a header: filler, then the sync words. */
  lemma HeaderlessLeavesBuffer(k: nat, rest: seq<byte>)
    requires k >= 1 && |rest| >= 1
    ensures !ScanInBounds(Filler(k) + SYNC + rest)
  {
    var w := Filler(k) + SYNC + rest;
    assert w[k..k + 8] == SYNC;
    assert FillerThenSync(w, k);
    ScanInBoundsExactly(w);
  }

  /** Blank flash has no sync words to find. */
  lemma BlankInBounds(w: seq<byte>)
    requires 8 <= |w| && forall i | 0 <= i < |w| :: w[i] == 0xFF
    ensures ScanInBounds(w)
  {
    ScanInBoundsExactly(w);
    forall s: nat | s + 8 <= |w|
      ensures !SyncAt(w, s)
    {
      assert w[s..s + 8][0] == 0xFF;
    }
  }
}
