/**
 The CRC-32C of usb_msc/crc32.c. The table-driven loop is proved against the bit-at-a-time
 register, which is proved against the division register of section 12.1 of RFC 3720
 (polynomial 0x1EDC6F41, bits of each byte reflected). Chunks compose, and every burst of
 at most 32 bits changes the value.
 */
module Castagnoli {
  import opened Bytes

  /** The source's table, sixteen entries to a row. */
  const TABLE: seq<seq<bv32>> := [
    [0x00000000, 0xF26B8303, 0xE13B70F7, 0x1350F3F4, 0xC79A971F, 0x35F1141C, 0x26A1E7E8, 0xD4CA64EB,
     0x8AD958CF, 0x78B2DBCC, 0x6BE22838, 0x9989AB3B, 0x4D43CFD0, 0xBF284CD3, 0xAC78BF27, 0x5E133C24],
    [0x105EC76F, 0xE235446C, 0xF165B798, 0x030E349B, 0xD7C45070, 0x25AFD373, 0x36FF2087, 0xC494A384,
     0x9A879FA0, 0x68EC1CA3, 0x7BBCEF57, 0x89D76C54, 0x5D1D08BF, 0xAF768BBC, 0xBC267848, 0x4E4DFB4B],
    [0x20BD8EDE, 0xD2D60DDD, 0xC186FE29, 0x33ED7D2A, 0xE72719C1, 0x154C9AC2, 0x061C6936, 0xF477EA35,
     0xAA64D611, 0x580F5512, 0x4B5FA6E6, 0xB93425E5, 0x6DFE410E, 0x9F95C20D, 0x8CC531F9, 0x7EAEB2FA],
    [0x30E349B1, 0xC288CAB2, 0xD1D83946, 0x23B3BA45, 0xF779DEAE, 0x05125DAD, 0x1642AE59, 0xE4292D5A,
     0xBA3A117E, 0x4851927D, 0x5B016189, 0xA96AE28A, 0x7DA08661, 0x8FCB0562, 0x9C9BF696, 0x6EF07595],
    [0x417B1DBC, 0xB3109EBF, 0xA0406D4B, 0x522BEE48, 0x86E18AA3, 0x748A09A0, 0x67DAFA54, 0x95B17957,
     0xCBA24573, 0x39C9C670, 0x2A993584, 0xD8F2B687, 0x0C38D26C, 0xFE53516F, 0xED03A29B, 0x1F682198],
    [0x5125DAD3, 0xA34E59D0, 0xB01EAA24, 0x42752927, 0x96BF4DCC, 0x64D4CECF, 0x77843D3B, 0x85EFBE38,
     0xDBFC821C, 0x2997011F, 0x3AC7F2EB, 0xC8AC71E8, 0x1C661503, 0xEE0D9600, 0xFD5D65F4, 0x0F36E6F7],
    [0x61C69362, 0x93AD1061, 0x80FDE395, 0x72966096, 0xA65C047D, 0x5437877E, 0x4767748A, 0xB50CF789,
     0xEB1FCBAD, 0x197448AE, 0x0A24BB5A, 0xF84F3859, 0x2C855CB2, 0xDEEEDFB1, 0xCDBE2C45, 0x3FD5AF46],
    [0x7198540D, 0x83F3D70E, 0x90A324FA, 0x62C8A7F9, 0xB602C312, 0x44694011, 0x5739B3E5, 0xA55230E6,
     0xFB410CC2, 0x092A8FC1, 0x1A7A7C35, 0xE811FF36, 0x3CDB9BDD, 0xCEB018DE, 0xDDE0EB2A, 0x2F8B6829],
    [0x82F63B78, 0x709DB87B, 0x63CD4B8F, 0x91A6C88C, 0x456CAC67, 0xB7072F64, 0xA457DC90, 0x563C5F93,
     0x082F63B7, 0xFA44E0B4, 0xE9141340, 0x1B7F9043, 0xCFB5F4A8, 0x3DDE77AB, 0x2E8E845F, 0xDCE5075C],
    [0x92A8FC17, 0x60C37F14, 0x73938CE0, 0x81F80FE3, 0x55326B08, 0xA759E80B, 0xB4091BFF, 0x466298FC,
     0x1871A4D8, 0xEA1A27DB, 0xF94AD42F, 0x0B21572C, 0xDFEB33C7, 0x2D80B0C4, 0x3ED04330, 0xCCBBC033],
    [0xA24BB5A6, 0x502036A5, 0x4370C551, 0xB11B4652, 0x65D122B9, 0x97BAA1BA, 0x84EA524E, 0x7681D14D,
     0x2892ED69, 0xDAF96E6A, 0xC9A99D9E, 0x3BC21E9D, 0xEF087A76, 0x1D63F975, 0x0E330A81, 0xFC588982],
    [0xB21572C9, 0x407EF1CA, 0x532E023E, 0xA145813D, 0x758FE5D6, 0x87E466D5, 0x94B49521, 0x66DF1622,
     0x38CC2A06, 0xCAA7A905, 0xD9F75AF1, 0x2B9CD9F2, 0xFF56BD19, 0x0D3D3E1A, 0x1E6DCDEE, 0xEC064EED],
    [0xC38D26C4, 0x31E6A5C7, 0x22B65633, 0xD0DDD530, 0x0417B1DB, 0xF67C32D8, 0xE52CC12C, 0x1747422F,
     0x49547E0B, 0xBB3FFD08, 0xA86F0EFC, 0x5A048DFF, 0x8ECEE914, 0x7CA56A17, 0x6FF599E3, 0x9D9E1AE0],
    [0xD3D3E1AB, 0x21B862A8, 0x32E8915C, 0xC083125F, 0x144976B4, 0xE622F5B7, 0xF5720643, 0x07198540,
     0x590AB964, 0xAB613A67, 0xB831C993, 0x4A5A4A90, 0x9E902E7B, 0x6CFBAD78, 0x7FAB5E8C, 0x8DC0DD8F],
    [0xE330A81A, 0x115B2B19, 0x020BD8ED, 0xF0605BEE, 0x24AA3F05, 0xD6C1BC06, 0xC5914FF2, 0x37FACCF1,
     0x69E9F0D5, 0x9B8273D6, 0x88D28022, 0x7AB90321, 0xAE7367CA, 0x5C18E4C9, 0x4F48173D, 0xBD23943E],
    [0xF36E6F75, 0x0105EC76, 0x12551F82, 0xE03E9C81, 0x34F4F86A, 0xC69F7B69, 0xD5CF889D, 0x27A40B9E,
     0x79B737BA, 0x8BDCB4B9, 0x988C474D, 0x6AE7C44E, 0xBE2DA0A5, 0x4C4623A6, 0x5F16D052, 0xAD7D5351]
  ]

  function Entry(i: bv8): bv32 {
    TABLE[(i >> 4) as int][(i & 15) as int]
  }

  // ---------------------------------------------------------------- the register

  // The word operations have names so that proofs can treat them as symbols.
  function Xor(a: bv32, b: bv32): bv32 { a ^ b }
  function Up(a: bv32): bv32 { a << 1 }
  function Down(a: bv32): bv32 { a >> 1 }
  function Bit(b: bool): bv32 { if b then 1 else 0 }
  function Invert(a: bv32): bv32 { a ^ 0xFFFFFFFF }

  /** One shift of the reflected register; 0x82F63B78 is 0x1EDC6F41 reversed. */
  function Shift(x: bv32): bv32 {
    if x & 1 == 1 then (x >> 1) ^ 0x82F63B78 else x >> 1
  }

  function Shift4(x: bv32): bv32 {
    Shift(Shift(Shift(Shift(x))))
  }

  function Shifts(n: nat, x: bv32): bv32 {
    if n == 0 then x else Shifts(n - 1, Shift(x))
  }

  /** The reflected register fed bit by bit. */
  function Serial(c: bv32, bits: seq<bool>): bv32
    decreases bits
  {
    if bits == [] then c else Serial(Shift(Xor(c, Bit(bits[0]))), bits[1..])
  }

  /** The bits of a byte, least significant first. */
  function ByteBits(d: byte): seq<bool> {
    [d & 1 == 1, d & 2 == 2, d & 4 == 4, d & 8 == 8, d & 16 == 16, d & 32 == 32, d & 64 == 64, d & 128 == 128]
  }

  function Bits(data: seq<byte>): (r: seq<bool>)
    ensures |r| == 8 * |data|
  {
    if data == [] then [] else ByteBits(data[0]) + Bits(data[1..])
  }

  /** CRC-32C of data, continued from the CRC `seed` of what came before. */
  function Crc(seed: bv32, data: seq<byte>): bv32 {
    Invert(Serial(Invert(seed), Bits(data)))
  }

  // ---------------------------------------------------------------- facts about one shift

  /** Bits that have not reached the low end yet just move down. */
  lemma ShiftPending(x: bv32, p: bv32)
    requires p < 0x80000000
    ensures Shift(Xor(x, Up(p))) == Xor(Shift(x), p)
  {
    if x & 1 == 1 { assert (x ^ (p << 1)) & 1 == 1; } else { assert (x ^ (p << 1)) & 1 == 0; }
  }

  lemma ShiftInjective(x: bv32, y: bv32)
    requires Shift(x) == Shift(y)
    ensures x == y
  {}

  /** A shift can be undone when the top bits agree. */
  lemma ShiftBack(x: bv32, y: bv32, p: bv32, q: bv32)
    requires Xor(Shift(x), p) == Xor(Shift(y), q)
    requires p < 0x80000000 && q < 0x80000000
    ensures Xor(x, Up(p)) == Xor(y, Up(q))
  {
    ShiftPending(x, p);
    ShiftPending(y, q);
    ShiftInjective(Xor(x, Up(p)), Xor(y, Up(q)));
  }

  lemma XorAssociative(t: bv32, b: bv32, q: bv32)
    ensures Xor(Xor(t, b), q) == Xor(t, Xor(b, q))
  {
    assert (t ^ b) ^ q == t ^ (b ^ q);
  }

  lemma XorCancel(t: bv32, b: bv32, q: bv32)
    ensures Xor(Xor(t, Xor(b, q)), b) == Xor(t, q)
  {
    XorAssociative(t, Xor(b, q), b);
    XorUndo(b, q);
  }

  lemma XorUndo(b: bv32, q: bv32)
    ensures Xor(Xor(b, q), b) == q
  {}

  // ---------------------------------------------------------------- packing bits into a register

  /** The bits placed below p, first bit lowest. */
  function Pack(bits: seq<bool>, p: bv32): bv32
    decreases bits
  {
    if bits == [] then p else Xor(Bit(bits[0]), Up(Pack(bits[1..], p)))
  }

  /** 2 to the power k. */
  function Power(k: nat): bv32
    requires k <= 31
    decreases 31 - k
  {
    if k == 31 then 0x80000000 else Down(Power(k + 1))
  }

  predicate Below(a: bv32, b: bv32) { a < b }

  lemma PackBoundStep(b: bool, q: bv32, m: bv32)
    requires Below(q, Down(m))
    ensures Below(Xor(Bit(b), Up(q)), m)
  {}

  lemma {:induction false} PackBound(bits: seq<bool>, p: bv32, k: nat)
    requires k + |bits| <= 31 && Below(p, Power(k))
    ensures Below(Pack(bits, p), Power(k + |bits|))
    decreases bits
  {
    if bits != [] {
      PackBound(bits[1..], p, k);
      PackBoundStep(bits[0], Pack(bits[1..], p), Power(k + |bits|));
    }
  }

  lemma {:induction false} PowerAtMost(k: nat)
    requires k <= 31
    ensures Power(k) <= 0x80000000
    decreases 31 - k
  {
    if k < 31 { PowerAtMost(k + 1); }
  }

  lemma PackSmall(bits: seq<bool>, p: bv32, k: nat)
    requires k + |bits| <= 31 && Below(p, Power(k))
    ensures Pack(bits, p) < 0x80000000
  {
    PackBound(bits, p, k);
    PowerAtMost(k + |bits|);
  }

  lemma SerialPeel(t: bv32, bits: seq<bool>, p: bv32)
    requires bits != [] && Pack(bits[1..], p) < 0x80000000
    ensures Serial(Xor(t, Pack(bits, p)), bits) == Serial(Xor(Shift(t), Pack(bits[1..], p)), bits[1..])
  {
    var b, q := Bit(bits[0]), Pack(bits[1..], p);
    XorCancel(t, b, Up(q));
    ShiftPending(t, q);
  }

  /** Feeding bits that are also in the low end of the register just shifts them out. */
  lemma {:induction false} SerialOfPacked(t: bv32, bits: seq<bool>, p: bv32, k: nat)
    requires k <= 31 && k + |bits| <= 32 && Below(p, Power(k))
    ensures Serial(Xor(t, Pack(bits, p)), bits) == Xor(Shifts(|bits|, t), p)
    decreases bits
  {
    if bits != [] {
      PackSmall(bits[1..], p, k);
      SerialPeel(t, bits, p);
      SerialOfPacked(Shift(t), bits[1..], p, k);
    }
  }

  /** The two low bits of e placed below q. */
  function Join(e: bv8, q: bv32): bv32 { ((e & 3) as bv32) ^ (q << 2) }

  lemma JoinIsPack(b: seq<bool>, i: nat, p: bv32, e: bv8)
    requires i + 2 <= |b| && Pair(b, i, e)
    ensures Pack(b[i..], p) == Join(e, Pack(b[i + 2..], p))
  {
    assert b[i..][1..] == b[i + 1..] && b[i + 1..][1..] == b[i + 2..];
    JoinOfBits(e, Pack(b[i + 2..], p));
  }

  lemma JoinOfBits(e: bv8, q: bv32)
    ensures Xor(Bit(e & 1 == 1), Up(Xor(Bit(e & 2 == 2), Up(q)))) == Join(e, q)
  {}

  lemma JoinPairs(d: byte, p: bv32)
    ensures Join(d, Join(d >> 2, Join(d >> 4, Join(d >> 6, p)))) == Xor(d as bv32, p << 8)
  {}

  /** Bits i and i+1 of b are the two low bits of e. */
  predicate Pair(b: seq<bool>, i: nat, e: bv8)
    requires i + 2 <= |b|
  {
    b[i] == (e & 1 == 1) && b[i + 1] == (e & 2 == 2)
  }

  lemma PairsOfByte(d: byte)
    ensures var b := ByteBits(d); Pair(b, 0, d) && Pair(b, 2, d >> 2) && Pair(b, 4, d >> 4) && Pair(b, 6, d >> 6)
  {}

  lemma PackPairs(b: seq<bool>, d: byte, p: bv32)
    requires |b| == 8 && Pair(b, 0, d) && Pair(b, 2, d >> 2) && Pair(b, 4, d >> 4) && Pair(b, 6, d >> 6)
    ensures Pack(b, p) == Xor(d as bv32, p << 8)
  {
    JoinIsPack(b, 6, p, d >> 6);
    JoinIsPack(b, 4, p, d >> 4);
    JoinIsPack(b, 2, p, d >> 2);
    JoinIsPack(b, 0, p, d);
    assert b[8..] == [] && b[0..] == b;
    JoinPairs(d, p);
  }

  lemma PackByte(d: byte, p: bv32)
    ensures Pack(ByteBits(d), p) == Xor(d as bv32, p << 8)
  {
    PairsOfByte(d);
    PackPairs(ByteBits(d), d, p);
  }

  lemma Powers()
    ensures Power(24) == 0x1000000
    ensures Power(0) == 1
  {
    assert Power(16) == 0x10000;
    assert Power(8) == 0x100;
  }

  // ---------------------------------------------------------------- the table

  lemma EntryLow(i: bv8)
    requires i < 128
    ensures Entry(i) == Shift4(Shift4(i as bv32))
  {
    var half, e := Shift4(i as bv32), TABLE[(i >> 4) as int][(i & 15) as int];
    assert e == Shift4(half);
  }

  lemma EntryHigh(i: bv8)
    requires i >= 128
    ensures Entry(i) == Shift4(Shift4(i as bv32))
  {
    var half, e := Shift4(i as bv32), TABLE[(i >> 4) as int][(i & 15) as int];
    assert e == Shift4(half);
  }

  lemma ShiftsFour(n: nat, x: bv32)
    ensures Shifts(n + 4, x) == Shifts(n, Shift4(x))
  {
    var x1 := Shift(x);
    var x2 := Shift(x1);
    var x3 := Shift(x2);
    assert Shifts(n + 4, x) == Shifts(n + 3, x1) == Shifts(n + 2, x2) == Shifts(n + 1, x3);
  }

  /** Every one of the 256 entries is its index shifted eight times. */
  lemma EntryCorrect(i: bv8)
    ensures Entry(i) == Shifts(8, i as bv32)
  {
    var x := i as bv32;
    if i < 128 { EntryLow(i); } else { EntryHigh(i); }
    ShiftsEight(x, 0);
  }

  lemma ShiftsEight(x: bv32, n: nat)
    ensures Shifts(n + 8, x) == Shifts(n, Shift4(Shift4(x)))
  {
    ShiftsFour(n + 4, x);
    ShiftsFour(n, Shift4(x));
  }

  function Index(c: bv32, d: byte): bv8 { ((c ^ (d as bv32)) & 0xFF) as bv8 }

  lemma SplitRegister(c: bv32, d: byte)
    ensures Xor(Index(c, d) as bv32, Xor(d as bv32, (c >> 8) << 8)) == c
    ensures c >> 8 < 0x1000000
  {}

  /** One step of the table loop is eight steps of the bit-serial register. */
  lemma TableStep(c: bv32, d: byte)
    ensures Serial(c, ByteBits(d)) == Xor(Entry(Index(c, d)), c >> 8)
  {
    var i, p := Index(c, d), c >> 8;
    SplitRegister(c, d);
    PackByte(d, p);
    Powers();
    SerialOfPacked(i as bv32, ByteBits(d), p, 24);
    EntryCorrect(i);
  }

  lemma {:induction false} SerialConcat(c: bv32, a: seq<bool>, b: seq<bool>)
    ensures Serial(c, a + b) == Serial(Serial(c, a), b)
    decreases a
  {
    if a == [] {
      assert a + b == b;
    } else {
      assert (a + b)[0] == a[0] && (a + b)[1..] == a[1..] + b;
      SerialConcat(Shift(Xor(c, Bit(a[0]))), a[1..], b);
    }
  }

  lemma TableStepIn(c: bv32, data: seq<byte>, i: nat)
    requires i < |data|
    ensures Serial(c, Bits(data[i..])) == Serial(Xor(Entry(Index(c, data[i])), c >> 8), Bits(data[i + 1..]))
  {
    assert data[i..][0] == data[i] && data[i..][1..] == data[i + 1..];
    TableStep(c, data[i]);
    SerialConcat(c, ByteBits(data[i]), Bits(data[i + 1..]));
  }

  /** The source's loop; the seed is the CRC of what came before. */
  method Crc32c(seed: bv32, data: seq<byte>) returns (crc: bv32)
    ensures crc == Crc(seed, data)
  {
    crc := Invert(seed);
    var i := 0;
    while i < |data|
      invariant i <= |data|
      invariant Serial(crc, Bits(data[i..])) == Serial(Invert(seed), Bits(data))
    {
      TableStepIn(crc, data, i);
      crc := Xor(Entry(Index(crc, data[i])), crc >> 8);
      i := i + 1;
    }
    crc := Invert(crc);
  }

  // ---------------------------------------------------------------- chunks

  lemma {:induction false} BitsConcat(a: seq<byte>, b: seq<byte>)
    ensures Bits(a + b) == Bits(a) + Bits(b)
  {
    if a == [] {
      assert a + b == b;
    } else {
      assert (a + b)[0] == a[0] && (a + b)[1..] == a[1..] + b;
      BitsConcat(a[1..], b);
    }
  }

  /** Continuing from the CRC of a first chunk gives the CRC of both chunks together. */
  lemma CrcConcat(seed: bv32, a: seq<byte>, b: seq<byte>)
    ensures Crc(Crc(seed, a), b) == Crc(seed, a + b)
  {
    BitsConcat(a, b);
    SerialConcat(Invert(seed), Bits(a), Bits(b));
    InvertTwice(Serial(Invert(seed), Bits(a)));
  }

  lemma InvertTwice(c: bv32)
    ensures Invert(Invert(c)) == c
  {}

  // ---------------------------------------------------------------- error detection

  lemma {:induction false} SerialInjective(x: bv32, y: bv32, bits: seq<bool>)
    requires Serial(x, bits) == Serial(y, bits)
    ensures x == y
    decreases bits
  {
    if bits != [] {
      var b := Bit(bits[0]);
      SerialInjective(Shift(Xor(x, b)), Shift(Xor(y, b)), bits[1..]);
      ShiftInjective(Xor(x, b), Xor(y, b));
      XorRightInjective(x, y, b);
    }
  }

  lemma XorRightInjective(x: bv32, y: bv32, b: bv32)
    requires Xor(x, b) == Xor(y, b)
    ensures x == y
  {
    assert (x ^ b) ^ b == x && (y ^ b) ^ b == y;
  }

  /** Two runs of at most 32 bits that meet had the same register-and-input mixture. */
  lemma {:induction false} SerialMeet(x: bv32, y: bv32, a: seq<bool>, b: seq<bool>)
    requires |a| == |b| <= 32 && Serial(x, a) == Serial(y, b)
    ensures Xor(x, Pack(a, 0)) == Xor(y, Pack(b, 0))
    decreases a
  {
    if a != [] {
      var p, q := Pack(a[1..], 0), Pack(b[1..], 0);
      var x1, y1 := Xor(x, Bit(a[0])), Xor(y, Bit(b[0]));
      SerialMeet(Shift(x1), Shift(y1), a[1..], b[1..]);
      Powers();
      PackSmall(a[1..], 0, 0);
      PackSmall(b[1..], 0, 0);
      ShiftBack(x1, y1, p, q);
      XorAssociative(x, Bit(a[0]), Up(p));
      XorAssociative(y, Bit(b[0]), Up(q));
    }
  }

  lemma XorLeftInjective(t: bv32, x: bv32, y: bv32)
    requires Xor(t, x) == Xor(t, y)
    ensures x == y
  {
    assert t ^ (t ^ x) == x && t ^ (t ^ y) == y;
  }

  lemma {:induction false} PackInjective(a: seq<bool>, b: seq<bool>)
    requires |a| == |b| <= 32 && Pack(a, 0) == Pack(b, 0)
    ensures a == b
  {
    if a != [] {
      var p, q := Pack(a[1..], 0), Pack(b[1..], 0);
      Powers();
      PackSmall(a[1..], 0, 0);
      PackSmall(b[1..], 0, 0);
      LowBitAndRest(a[0], b[0], p, q);
      PackInjective(a[1..], b[1..]);
      assert a == [a[0]] + a[1..] && b == [b[0]] + b[1..];
    }
  }

  lemma LowBitAndRest(a: bool, b: bool, p: bv32, q: bv32)
    requires Xor(Bit(a), Up(p)) == Xor(Bit(b), Up(q)) && p < 0x80000000 && q < 0x80000000
    ensures a == b && p == q
  {
    if a { if b {} else {} } else { if b {} else {} }
  }

  lemma {:induction false} BitsInjective(a: seq<byte>, b: seq<byte>)
    requires |a| == |b| && Bits(a) == Bits(b)
    ensures a == b
  {
    if a != [] {
      var x, y := Bits(a), Bits(b);
      assert x[..8] == ByteBits(a[0]) && y[..8] == ByteBits(b[0]);
      assert x[8..] == Bits(a[1..]) && y[8..] == Bits(b[1..]);
      ByteBitsInjective(a[0], b[0]);
      BitsInjective(a[1..], b[1..]);
      assert a == [a[0]] + a[1..] && b == [b[0]] + b[1..];
    }
  }

  lemma ByteBitsInjective(a: byte, b: byte)
    requires ByteBits(a) == ByteBits(b)
    ensures a == b
  {
    PackByte(a, 0);
    PackByte(b, 0);
    assert (a as bv32) ^ (0 << 8) == a as bv32;
    assert (b as bv32) ^ (0 << 8) == b as bv32;
  }

  /**
   Burst detection: two different messages of equal length whose bits differ only inside one
   window of 32 consecutive bits have different CRCs, whatever the seed.
   */
  lemma {:induction false} BurstDetected(seed: bv32, a: seq<byte>, b: seq<byte>, from: nat, to: nat)
    requires |a| == |b| && a != b
    requires from <= to <= 8 * |a| && to - from <= 32
    requires Bits(a)[..from] == Bits(b)[..from] && Bits(a)[to..] == Bits(b)[to..]
    ensures Crc(seed, a) != Crc(seed, b)
  {
    var x, y, c := Bits(a), Bits(b), Invert(seed);
    if Crc(seed, a) == Crc(seed, b) {
      InvertInjective(Serial(c, x), Serial(c, y));
      SameWindow(c, x, y, from, to);
      BitsInjective(a, b);
    }
  }

  lemma InvertInjective(x: bv32, y: bv32)
    requires Invert(x) == Invert(y)
    ensures x == y
  {
    InvertTwice(x);
    InvertTwice(y);
  }

  /** Runs that agree outside a window of 32 bits and end alike agree inside it. */
  lemma SameWindow(c: bv32, x: seq<bool>, y: seq<bool>, from: nat, to: nat)
    requires |x| == |y| && from <= to <= |x| && to - from <= 32
    requires x[..from] == y[..from] && x[to..] == y[to..]
    requires Serial(c, x) == Serial(c, y)
    ensures x == y
  {
    var u, v, tail := x[from..to], y[from..to], x[to..];
    var s := Serial(c, x[..from]);
    SerialInThree(c, x, from, to);
    SerialInThree(c, y, from, to);
    SerialInjective(Serial(s, u), Serial(s, v), tail);
    SerialMeet(s, s, u, v);
    XorLeftInjective(s, Pack(u, 0), Pack(v, 0));
    PackInjective(u, v);
    assert x == x[..from] + u + tail && y == y[..from] + v + tail;
  }

  lemma SerialInThree(c: bv32, x: seq<bool>, from: nat, to: nat)
    requires from <= to <= |x|
    ensures Serial(c, x) == Serial(Serial(Serial(c, x[..from]), x[from..to]), x[to..])
  {
    assert x == x[..from] + x[from..] && x[from..] == x[from..to] + x[to..];
    SerialConcat(c, x[..from], x[from..]);
    SerialConcat(Serial(c, x[..from]), x[from..to], x[to..]);
  }

  // ---------------------------------------------------------------- the RFC's division register

  /** The register of RFC 3720, section 12.1: most significant bit first, polynomial 0x1EDC6F41. */
  function Divide(r: bv32, bits: seq<bool>): bv32
    decreases bits
  {
    if bits == [] then r else Divide(DivideStep(r, bits[0]), bits[1..])
  }

  function DivideStep(r: bv32, b: bool): bv32 {
    if Top(r) != b then Xor(Up(r), 0x1EDC6F41) else Up(r)
  }

  predicate Top(r: bv32) { r >> 31 == 1 }

  /** The bits of a word in reverse order. */
  function Reverse(x: bv32): bv32 {
    var a := ((x & 0x55555555) << 1) | ((x >> 1) & 0x55555555);
    var b := ((a & 0x33333333) << 2) | ((a >> 2) & 0x33333333);
    var c := ((b & 0x0F0F0F0F) << 4) | ((b >> 4) & 0x0F0F0F0F);
    var d := ((c & 0x00FF00FF) << 8) | ((c >> 8) & 0x00FF00FF);
    (d << 16) | (d >> 16)
  }

  lemma ReverseOfHalf(x: bv32)
    ensures Reverse(x >> 1) == Reverse(x) << 1
  {}

  lemma ReverseOfFlip(x: bv32)
    ensures Reverse(x ^ 1) == Reverse(x) ^ 0x80000000
  {}

  lemma ReverseOfPolynomial(x: bv32)
    ensures Reverse(x ^ 0x82F63B78) == Reverse(x) ^ 0x1EDC6F41
  {}

  lemma ReverseDown(x: bv32)
    ensures Reverse(Down(x)) == Up(Reverse(x))
  {
    ReverseOfHalf(x);
  }

  lemma ReverseFlip(x: bv32)
    ensures Reverse(Xor(x, 1)) == Xor(Reverse(x), 0x80000000)
  {
    ReverseOfFlip(x);
  }

  lemma ReversePolynomial(x: bv32)
    ensures Reverse(Xor(x, 0x82F63B78)) == Xor(Reverse(x), 0x1EDC6F41)
  {
    ReverseOfPolynomial(x);
  }

  lemma ReverseTop(x: bv32)
    ensures Top(Reverse(x)) <==> x & 1 == 1
  {}

  lemma UpDropsTop(r: bv32)
    ensures Up(Xor(r, 0x80000000)) == Up(r)
  {}

  lemma ReverseShift(x: bv32)
    ensures Reverse(Shift(x)) == DivideStep(Reverse(x), false)
  {
    ReverseTop(x);
    ReverseDown(x);
    ReversePolynomial(Down(x));
    assert Shift(x) == if x & 1 == 1 then Xor(Down(x), 0x82F63B78) else Down(x);
  }

  lemma FlipIsBit(x: bv32, r: bv32)
    ensures Xor(x, Bit(true)) == Xor(x, 1) && Xor(x, Bit(false)) == x
    ensures DivideStep(Xor(r, 0x80000000), false) == DivideStep(r, true)
  {
    UpDropsTop(r);
    assert (r ^ 0x80000000) >> 31 == 1 <==> r >> 31 != 1;
  }

  lemma ReverseStep(x: bv32, b: bool)
    ensures Reverse(Shift(Xor(x, Bit(b)))) == DivideStep(Reverse(x), b)
  {
    FlipIsBit(x, Reverse(x));
    ReverseShift(Xor(x, Bit(b)));
    ReverseFlip(x);
  }

  lemma ReverseTwice(x: bv32)
    ensures Reverse(Reverse(x)) == x
  {}

  lemma {:induction false} SerialIsDivision(c: bv32, bits: seq<bool>)
    ensures Reverse(Serial(c, bits)) == Divide(Reverse(c), bits)
    decreases bits
  {
    if bits != [] {
      ReverseStep(c, bits[0]);
      SerialIsDivision(Shift(Xor(c, Bit(bits[0]))), bits[1..]);
    }
  }

  /** Crc is the RFC's: divide from the reversed, inverted seed, then reverse and invert the remainder. */
  lemma CrcIsRfc3720(seed: bv32, data: seq<byte>)
    ensures Crc(seed, data) == Invert(Reverse(Divide(Reverse(Invert(seed)), Bits(data))))
  {
    SerialIsDivision(Invert(seed), Bits(data));
    ReverseTwice(Serial(Invert(seed), Bits(data)));
  }
}
