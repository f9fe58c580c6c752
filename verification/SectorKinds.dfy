/** Which sectors are blocks, for which chip, and what ends a call: on the words and bytes of the sectors themselves. */
module SectorKinds {
  import opened Bytes
  import opened Uf2
  import opened Uf2Sectors
  import opened UploadSpec
  import opened UploadRuns

  /** The words of a sector, whatever they are, around 476 data bytes. */
  function Header32(m0: u32, m1: u32, flags: u32, target: u32, size: u32, n: u32, count: u32, id: u32): seq<u32> {
    [m0, m1, flags, target, size, n, count, id]
  }

  function AnySector(head: seq<u32>, data: seq<byte>, end: u32): Sector
    requires |head| == 8 && |data| == 476
  {
    Words(head) + (data + Le32Bytes(end))
  }

  lemma HeadWord(head: seq<u32>, data: seq<byte>, end: u32, i: nat)
    requires |head| == 8 && |data| == 476 && i < 8
    ensures Le32(AnySector(head, data, end), 4 * i) == head[i]
  {
    WordAt(head, data + Le32Bytes(end), i);
  }

  lemma LastWord(head: seq<u32>, data: seq<byte>, end: u32)
    requires |head| == 8 && |data| == 476
    ensures Le32(AnySector(head, data, end), 508) == end
  {
    Le32Shift(Words(head), data + Le32Bytes(end), 476);
    Le32Shift(data, Le32Bytes(end), 0);
    WordOfBytes(end);
  }

  lemma SectorIsUf2(head: seq<u32>, data: seq<byte>, end: u32)
    requires |head| == 8 && |data| == 476
    ensures IsUf2(AnySector(head, data, end)) <==> head[0] == 0x0A324655 && head[1] == 0x9E5D5157 && end == 0x0AB16F30
  {
    HeadWord(head, data, end, 0);
    HeadWord(head, data, end, 1);
    LastWord(head, data, end);
  }

  lemma SectorFields(head: seq<u32>, data: seq<byte>, end: u32)
    requires |head| == 8 && |data| == 476
    ensures Fields(AnySector(head, data, end)) == Block(head[3], head[4], head[5], head[6], head[7], [])
  {
    HeadWord(head, data, end, 3);
    HeadWord(head, data, end, 4);
    HeadWord(head, data, end, 5);
    HeadWord(head, data, end, 6);
    HeadWord(head, data, end, 7);
  }

  /**
   What a sector is taken for, for all words: nothing unless all three magics are right; then a block of the
   bitstream or of the firmware by its file id, and a block of unknown id for every other id.
   */
  lemma SectorDecoded(m0: u32, m1: u32, flags: u32, target: u32, size: u32, n: u32, count: u32, id: u32,
                      data: seq<byte>, end: u32, behind: seq<byte>)
    requires |data| == 476
    ensures var it := ItemOf(AnySector(Header32(m0, m1, flags, target, size, n, count, id), data, end), behind);
            var b := Block(target, size, n, count, id, data + Le32Bytes(end) + behind);
            it == if m0 != 0x0A324655 || m1 != 0x9E5D5157 || end != 0x0AB16F30 then Skipped
                  else if id == 0x6CE29E6B then Data(Bitstreams, b)
                  else if id == 0x6CE29E60 then Data(Firmware, b)
                  else Unknown(id)
  {
    var head := Header32(m0, m1, flags, target, size, n, count, id);
    var s := AnySector(head, data, end);
    SectorIsUf2(head, data, end);
    SectorFields(head, data, end);
    assert s[32..] == data + Le32Bytes(end);
  }

  // ---------------------------------------------------------------- what ends a call

  /** Sector i is the first of the buffer with an unknown file id. */
  predicate FirstUnknown(ss: seq<Sector>, i: nat) {
    i < |ss| && ItemOf(ss[i], []).Unknown? && forall j | 0 <= j < i :: !ItemOf(ss[j], []).Unknown?
  }

  lemma KindAlone(s: Sector, behind: seq<byte>)
    ensures ItemOf(s, behind).Unknown? <==> ItemOf(s, []).Unknown?
    ensures ItemOf(s, behind).Unknown? ==> ItemOf(s, behind) == ItemOf(s, [])
  {}

  lemma {:induction false} NoUnknownBefore(ss: seq<Sector>)
    requires forall j | 0 <= j < |ss| :: !ItemOf(ss[j], []).Unknown?
    ensures !HasUnknown(Items(ss))
    decreases ss
  {
    if ss != [] {
      KindAlone(ss[0], Flat(ss[1..]));
      assert forall j | 0 <= j < |ss[1..]| :: ss[1..][j] == ss[j + 1];
      NoUnknownBefore(ss[1..]);
      assert Items(ss)[1..] == Items(ss[1..]);
    }
  }

  /** A buffer ends its call early exactly when it has such a sector. */
  lemma {:induction false} UnknownExactly(ss: seq<Sector>)
    ensures HasUnknown(Items(ss)) <==> exists j :: 0 <= j < |ss| && ItemOf(ss[j], []).Unknown?
    decreases ss
  {
    if ss != [] {
      KindAlone(ss[0], Flat(ss[1..]));
      UnknownExactly(ss[1..]);
      assert Items(ss)[1..] == Items(ss[1..]);
      assert forall j | 0 <= j < |ss[1..]| :: ss[1..][j] == ss[j + 1];
      if j :| 0 <= j < |ss| && ItemOf(ss[j], []).Unknown? {
        assert j == 0 || ss[j] == ss[1..][j - 1];
      }
    }
  }

  /** A call that starts with a sector of unknown id does nothing but report it. */
  lemma UnknownFirst(d: Dev, ss: seq<Sector>)
    requires ss != [] && ItemOf(ss[0], []).Unknown?
    ensures RunCall(d, Items(ss)) == d.(reports := d.reports + [UnknownFile(ItemOf(ss[0], []).id)])
    ensures HasUnknown(Items(ss))
  {
    KindAlone(ss[0], Flat(ss[1..]));
  }

  /**
   The first sector of unknown id ends the call: what is left is what the sectors before it leave by
   themselves, and one report of that id.
   */
  lemma UnknownEndsCall(d: Dev, ss: seq<Sector>, i: nat)
    requires FirstUnknown(ss, i) && Admissible(d, Items(ss[..i]))
    ensures var d1 := RunCall(d, Items(ss[..i]));
            RunCall(d, Items(ss)) == d1.(reports := d1.reports + [UnknownFile(ItemOf(ss[i], []).id)])
    ensures HasUnknown(Items(ss))
  {
    var a, b := ss[..i], ss[i..];
    assert ss == a + b && b[0] == ss[i];
    NoUnknownBefore(a);
    CutBuffer(d, a, b);
    UnknownFirst(RunCall(d, Items(a)), b);
    ItemsConcat(a, b);
    UnknownConcat(AllBehind(Items(a), Flat(b)), Items(b));
  }

  function Reported(d: Dev, id: u32): Dev {
    d.(reports := d.reports + [UnknownFile(id)])
  }

  /** From d to d', a call got as far as its first sector of unknown id, if it has one. */
  ghost predicate EndsAtUnknown(d: Dev, d': Dev, ss: seq<Sector>) {
    forall i: nat | FirstUnknown(ss, i) && Admissible(d, Items(ss[..i])) ::
      d' == Reported(RunCall(d, Items(ss[..i])), ItemOf(ss[i], []).id)
  }

  lemma CallEndsAtUnknown(d: Dev, ss: seq<Sector>)
    ensures EndsAtUnknown(d, RunCall(d, Items(ss)), ss)
  {
    forall i: nat | FirstUnknown(ss, i) && Admissible(d, Items(ss[..i]))
      ensures RunCall(d, Items(ss)) == Reported(RunCall(d, Items(ss[..i])), ItemOf(ss[i], []).id)
    {
      UnknownEndsCall(d, ss, i);
    }
  }
}
