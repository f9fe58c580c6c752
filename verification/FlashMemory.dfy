/**
 Contents of a NOR flash as a value: one byte for each 4-byte address. Addresses go round at the
 top, so a range is described by the distance travelled upwards from its first address.
 */
module FlashMemory {
  import opened Bytes

  type Memory = m: seq<byte> | |m| == 0x1_0000_0000 ghost witness seq(0x1_0000_0000, i => 0xFF)

  /** How far above a the address i lies. */
  function Dist(a: u32, i: u32): u32 {
    if i >= a then i - a else i - a + 0x1_0000_0000
  }

  /** Programming can only clear bits: each byte is combined with what is already there. */
  ghost function Program(m: Memory, addr: u32, data: seq<byte>): (r: Memory)
    ensures forall i {:trigger r[i]} | 0 <= i < 0x1_0000_0000 ::
              r[i] == if Dist(addr, i) < |data| then m[i] & data[Dist(addr, i)] else m[i]
  {
    seq(0x1_0000_0000, i requires 0 <= i < 0x1_0000_0000 =>
      if Dist(addr, i) < |data| then m[i] & data[Dist(addr, i)] else m[i])
  }

  /** Erasing sets n bytes from addr on to 0xFF. */
  ghost function Erase(m: Memory, addr: u32, n: nat): (r: Memory)
    ensures forall i {:trigger r[i]} | 0 <= i < 0x1_0000_0000 :: r[i] == if Dist(addr, i) < n then 0xFF else m[i]
  {
    seq(0x1_0000_0000, i requires 0 <= i < 0x1_0000_0000 => if Dist(addr, i) < n then 0xFF else m[i])
  }

  ghost function Read(m: Memory, addr: u32, n: nat): (r: seq<byte>)
    requires n <= 0x1_0000_0000
    ensures |r| == n
    ensures forall k {:trigger r[k]} | 0 <= k < n :: r[k] == m[Above(addr, k)]
  {
    seq(n, k requires 0 <= k < n => m[Above(addr, k)])
  }

  lemma ProgramNothing(m: Memory, addr: u32)
    ensures Program(m, addr, []) == m
  {}

  /** Two programs of adjacent ranges are one program. */
  lemma ProgramConcat(m: Memory, addr: u32, a: seq<byte>, b: seq<byte>)
    requires |a| + |b| <= 0x1_0000_0000
    ensures Program(Program(m, addr, a), Above(addr, |a|), b) == Program(m, addr, a + b)
  {
    var l, r := Program(Program(m, addr, a), Above(addr, |a|), b), Program(m, addr, a + b);
    assert forall i {:trigger l[i]} | 0 <= i < 0x1_0000_0000 :: l[i] == r[i];
  }

  lemma EraseConcat(m: Memory, addr: u32, n: nat, k: nat)
    requires n + k <= 0x1_0000_0000
    ensures Erase(Erase(m, addr, n), Above(addr, n), k) == Erase(m, addr, n + k)
  {
    var l, r := Erase(Erase(m, addr, n), Above(addr, n), k), Erase(m, addr, n + k);
    assert forall i {:trigger l[i]} | 0 <= i < 0x1_0000_0000 :: l[i] == r[i];
  }

  lemma ReadConcat(m: Memory, addr: u32, n: nat, k: nat)
    requires n + k <= 0x1_0000_0000
    ensures Read(m, addr, n) + Read(m, Above(addr, n), k) == Read(m, addr, n + k)
  {}
}
