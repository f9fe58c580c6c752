/** The 512-byte UF2 block of usb_msc/uf2.h and the helpers of usb_msc/uf2.c. */
module Uf2 {
  import opened Bytes

  const MAGIC_START_0: u32 := 0x0A324655
  const MAGIC_START_1: u32 := 0x9E5D5157
  const MAGIC_END: u32 := 0x0AB16F30
  const BITSTREAM_ID: u32 := 0x6CE29E6B
  const FIRMWARE_ID: u32 := 0x6CE29E60

  type Sector = s: seq<byte> | |s| == 512 witness seq(512, _ => 0)

  /** A word from its bytes, the lowest first. */
  function Word(a: byte, b: byte, c: byte, d: byte): u32 {
    (a as int) + 0x100 * (b as int) + 0x1_0000 * (c as int) + 0x100_0000 * (d as int)
  }

  function Le32(s: seq<byte>, i: nat): u32
    requires i + 4 <= |s|
  {
    Word(s[i], s[i + 1], s[i + 2], s[i + 3])
  }

  /**
   The fields the firmware uses. `src` is what lies behind the header in the buffer: 476 data bytes, the
   end magic, and the sectors that follow, for the handler's reads do not stop at the end of the sector.
   */
  datatype Block = Block(targetAddr: u32, payloadSize: u32, blockNo: u32, numBlocks: u32, family: u32, src: seq<byte>)

  function IsUf2(s: Sector): bool {
    Le32(s, 0) == MAGIC_START_0 && Le32(s, 4) == MAGIC_START_1 && Le32(s, 508) == MAGIC_END
  }

  function Fields(s: Sector): Block {
    Block(Le32(s, 12), Le32(s, 16), Le32(s, 20), Le32(s, 24), Le32(s, 28), [])
  }

  function Parse(s: Sector, behind: seq<byte>): (b: Block)
    ensures |b.src| == 480 + |behind|
  {
    Fields(s).(src := s[32..] + behind)
  }

  /** A buffer as the bytes it consists of. */
  function Flat(ss: seq<Sector>): (r: seq<byte>)
    ensures |r| == 512 * |ss|
    decreases ss
  {
    if ss == [] then [] else ss[0] + Flat(ss[1..])
  }

  /** Image size as the header of one block gives it, in 32 bits. */
  function FileSize(b: Block): u32 {
    Wrap(b.payloadSize * b.numBlocks)
  }

  // ---------------------------------------------------------------- flash slots

  /** Three slots, 10 MiB apart (usb_msc/main.c). */
  const SLOTS: seq<u32> := [0, 0xA0_0000, 0x140_0000]

  /** The top nibble of the target address names the slot; anything but 0, 1, 2 is slot 0. */
  function SlotOffset(targetAddr: u32): u32 {
    var slot := targetAddr / 0x1000_0000;
    if slot > 2 then 0 else SLOTS[slot]
  }
}
