/** Sectors as they come from the host: a UF2 block for given header fields and data, and sectors that are no blocks. */
module Uf2Sectors {
  import opened Bytes
  import opened Uf2
  import opened UploadSpec

  function FileId(fam: Family): u32 {
    if fam.Bitstreams? then BITSTREAM_ID else FIRMWARE_ID
  }

  /** Start magics, and the flag that says a file id is there. */
  const START_BYTES: seq<byte> := [0x55, 0x46, 0x32, 0x0A, 0x57, 0x51, 0x5D, 0x9E, 0x00, 0x20, 0x00, 0x00]

  const END_BYTES: seq<byte> := [0x30, 0x6F, 0xB1, 0x0A]

  function IdBytes(fam: Family): (r: seq<byte>)
    ensures |r| == 4
  {
    if fam.Bitstreams? then [0x6B, 0x9E, 0xE2, 0x6C] else [0x60, 0x9E, 0xE2, 0x6C]
  }

  function Words(ws: seq<u32>): (r: seq<byte>)
    ensures |r| == 4 * |ws|
    decreases ws
  {
    if ws == [] then [] else Le32Bytes(ws[0]) + Words(ws[1..])
  }

  /** A block with the given header fields and its 476 data bytes. */
  function MakeSector(target: u32, size: u32, n: u32, count: u32, fam: Family, data: seq<byte>): Sector
    requires |data| == 476
  {
    START_BYTES + (Words([target, size, n, count]) + (IdBytes(fam) + (data + END_BYTES)))
  }

  /** A sector that is no block: 512 times the same byte. */
  function FillSector(x: byte): Sector {
    seq(512, k => x)
  }

  // ---------------------------------------------------------------- reading them back

  lemma WordOfBytes(x: u32)
    ensures var b := Le32Bytes(x); Word(b[0], b[1], b[2], b[3]) == x
  {
    Digits(x);
  }

  lemma ConstantWords()
    ensures Word(0x55, 0x46, 0x32, 0x0A) == MAGIC_START_0 && Word(0x57, 0x51, 0x5D, 0x9E) == MAGIC_START_1
    ensures Word(0x30, 0x6F, 0xB1, 0x0A) == MAGIC_END
    ensures Word(0x6B, 0x9E, 0xE2, 0x6C) == BITSTREAM_ID && Word(0x60, 0x9E, 0xE2, 0x6C) == FIRMWARE_ID
  {}

  lemma Le32Shift(a: seq<byte>, s: seq<byte>, i: nat)
    requires i + 4 <= |s|
    ensures Le32(a + s, |a| + i) == Le32(s, i)
  {}

  lemma {:induction false} WordAt(ws: seq<u32>, rest: seq<byte>, i: nat)
    requires i < |ws|
    ensures Le32(Words(ws) + rest, 4 * i) == ws[i]
    decreases ws
  {
    var first, tail := Le32Bytes(ws[0]), Words(ws[1..]) + rest;
    assert Words(ws) + rest == first + tail;
    if i == 0 {
      WordOfBytes(ws[0]);
      assert forall k | 0 <= k < 4 :: (first + tail)[k] == first[k];
    } else {
      Le32Shift(first, tail, 4 * (i - 1));
      WordAt(ws[1..], rest, i - 1);
    }
  }

  lemma StartWords(s: Sector)
    requires s[..12] == START_BYTES
    ensures Le32(s, 0) == MAGIC_START_0 && Le32(s, 4) == MAGIC_START_1
  {
    ConstantWords();
    assert forall i | 0 <= i < 12 :: s[i] == s[..12][i];
  }

  lemma EndWord(front: seq<byte>)
    ensures Le32(front + END_BYTES, |front|) == MAGIC_END
  {
    ConstantWords();
    Le32Shift(front, END_BYTES, 0);
  }

  lemma IdWord(fam: Family, rest: seq<byte>)
    ensures Le32(IdBytes(fam) + rest, 0) == FileId(fam)
  {
    ConstantWords();
  }

  lemma MadeIsUf2(target: u32, size: u32, n: u32, count: u32, fam: Family, data: seq<byte>)
    requires |data| == 476
    ensures IsUf2(MakeSector(target, size, n, count, fam, data))
  {
    var s := MakeSector(target, size, n, count, fam, data);
    StartWords(s);
    var front := START_BYTES + (Words([target, size, n, count]) + (IdBytes(fam) + data));
    assert s == front + END_BYTES;
    EndWord(front);
  }

  lemma MadeFields(target: u32, size: u32, n: u32, count: u32, fam: Family, data: seq<byte>)
    requires |data| == 476
    ensures Fields(MakeSector(target, size, n, count, fam, data)) == Block(target, size, n, count, FileId(fam), [])
  {
    var ws, rest := [target, size, n, count], IdBytes(fam) + (data + END_BYTES);
    WordAt(ws, rest, 0);
    WordAt(ws, rest, 1);
    WordAt(ws, rest, 2);
    WordAt(ws, rest, 3);
    Le32Shift(START_BYTES, Words(ws) + rest, 0);
    Le32Shift(START_BYTES, Words(ws) + rest, 4);
    Le32Shift(START_BYTES, Words(ws) + rest, 8);
    Le32Shift(START_BYTES, Words(ws) + rest, 12);
    Le32Shift(START_BYTES, Words(ws) + rest, 16);
    Le32Shift(Words(ws), rest, 0);
    IdWord(fam, data + END_BYTES);
  }

  /** What the handler makes of such a block. */
  lemma MadeItem(target: u32, size: u32, n: u32, count: u32, fam: Family, data: seq<byte>, behind: seq<byte>)
    requires |data| == 476
    ensures ItemOf(MakeSector(target, size, n, count, fam, data), behind)
         == Data(fam, Block(target, size, n, count, FileId(fam), data + END_BYTES + behind))
  {
    var s := MakeSector(target, size, n, count, fam, data);
    MadeIsUf2(target, size, n, count, fam, data);
    MadeFields(target, size, n, count, fam, data);
    assert s[32..] == data + END_BYTES;
    assert Parse(s, behind) == Block(target, size, n, count, FileId(fam), data + END_BYTES + behind);
  }

  lemma FillSkipped(x: byte, behind: seq<byte>)
    requires x == 0x00 || x == 0xFF
    ensures ItemOf(FillSector(x), behind) == Skipped
  {
    assert Le32(FillSector(x), 0) == Word(x, x, x, x);
    FillWord(x);
  }

  lemma FillWord(x: byte)
    requires x == 0x00 || x == 0xFF
    ensures Word(x, x, x, x) != MAGIC_START_0
  {
    if x == 0x00 {
      assert Word(0x00, 0x00, 0x00, 0x00) == 0;
    } else {
      assert Word(0xFF, 0xFF, 0xFF, 0xFF) == 0xFFFF_FFFF;
    }
  }
}
