/** Bytes, 32-bit words and their C arithmetic. Words are unbounded integers, so every wrap-around is written out. */
module Bytes {

  type byte = bv8

  type u32 = x: int | 0 <= x < 0x1_0000_0000

  /** The value a C `uint32_t` holds after the exact result x is stored in it. */
  function Wrap(x: int): u32 { x % 0x1_0000_0000 }

  lemma WrapTwice(x: int, y: int)
    ensures Wrap(Wrap(x) + y) == Wrap(x + y)
  {
    var q := x / 0x1_0000_0000;
    assert Wrap(x) == x - q * 0x1_0000_0000;
  }

  /** The word n above a, going round at the top. */
  function Above(a: u32, n: nat): u32
    requires n <= 0x1_0000_0000
  {
    if a + n >= 0x1_0000_0000 then a + n - 0x1_0000_0000 else a + n
  }

  /** The byte with value x: 0 counted up x times. */
  function ByteOf(x: nat): (b: byte)
    requires x < 0x100
    ensures b as int == x
  {
    if x == 0 then 0 else ByteOf(x - 1) + 1
  }

  /** The bytes of a word, the lowest first. */
  function Le32Bytes(x: u32): (r: seq<byte>)
    ensures |r| == 4
  {
    [ByteOf(x % 0x100), ByteOf(x / 0x100 % 0x100), ByteOf(x / 0x1_0000 % 0x100), ByteOf(x / 0x100_0000)]
  }

  /** The bytes of a word, the highest first. */
  function Be32Bytes(x: u32): (r: seq<byte>)
    ensures |r| == 4
    ensures r[0] as int == x / 0x100_0000 && r[1] as int == x / 0x1_0000 % 0x100
    ensures r[2] as int == x / 0x100 % 0x100 && r[3] as int == x % 0x100
  {
    [ByteOf(x / 0x100_0000), ByteOf(x / 0x1_0000 % 0x100), ByteOf(x / 0x100 % 0x100), ByteOf(x % 0x100)]
  }

  function Min(a: int, b: int): int { if a < b then a else b }

  /** A word is its four bytes. */
  lemma Digits(x: u32)
    ensures x == 0x100_0000 * (x / 0x100_0000) + 0x1_0000 * (x / 0x1_0000 % 0x100)
                 + 0x100 * (x / 0x100 % 0x100) + x % 0x100
  {
    var a, b := x / 0x100, x / 0x1_0000;
    assert b == a / 0x100 && x / 0x100_0000 == b / 0x100;
  }
}
