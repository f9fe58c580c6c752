/**
 The OPTIONS text of usb_msc/config.c: what the hand-written parser makes of a text, what the
 printer writes, and how the two fit together. A text is the bytes of a C string without its NUL;
 a pointer into it is the text that is left.
 */
module ConfigText {
  import opened Bytes

  datatype Option<+T> = None | Some(value: T)

  datatype Options = Options(fpgaSpeed: u32, flashSpeed: u32, progFlash: bool, dirty: bool)

  datatype Key = FpgaSpeed | FlashSpeed | ProgFlash

  const SPACE: byte := 32
  const LF: byte := 10
  const CR: byte := 13
  const EQUALS: byte := 61

  // "SPI_FPGA_SPEED", "SPI_FLASH_SPEED", "PROG_SPI_FLASH", "YES", "NO"
  const FPGA_SPEED: seq<byte> := [83, 80, 73, 95, 70, 80, 71, 65, 95, 83, 80, 69, 69, 68]
  const FLASH_SPEED: seq<byte> := [83, 80, 73, 95, 70, 76, 65, 83, 72, 95, 83, 80, 69, 69, 68]
  const PROG_FLASH: seq<byte> := [80, 82, 79, 71, 95, 83, 80, 73, 95, 70, 76, 65, 83, 72]
  const YES: seq<byte> := [89, 69, 83]
  const NO: seq<byte> := [78, 79]

  function NameOf(k: Key): seq<byte> {
    match k
    case FpgaSpeed => FPGA_SPEED
    case FlashSpeed => FLASH_SPEED
    case ProgFlash => PROG_FLASH
  }

  // ---------------------------------------------------------------- scanning

  predicate IsDigit(c: byte) { 48 <= c <= 57 }

  function DropSpaces(t: seq<byte>): (r: seq<byte>)
    ensures |r| <= |t|
  {
    if t != [] && t[0] == SPACE then DropSpaces(t[1..]) else t
  }

  function DropDigits(t: seq<byte>): (r: seq<byte>)
    ensures |r| <= |t|
  {
    if t != [] && IsDigit(t[0]) then DropDigits(t[1..]) else t
  }

  predicate StartsWith(t: seq<byte>, c: byte) { t != [] && t[0] == c }

  /** `str_is_valid_integer` */
  predicate ValidInteger(t: seq<byte>) {
    var a := DropSpaces(t);
    var b := DropSpaces(DropDigits(a));
    !StartsWith(a, 48) && StartsWith(if StartsWith(b, CR) then b[1..] else b, LF)
  }

  /** The first place where a key begins; spaces and line ends are passed over, and so is anything else. */
  function FindKey(t: seq<byte>): (r: Option<(Key, seq<byte>)>)
    ensures r.Some? ==> |r.value.1| <= |t| && NameOf(r.value.0) <= r.value.1
  {
    if t == [] then None
    else if t[0] == SPACE || t[0] == LF || t[0] == CR then FindKey(t[1..])
    else if FPGA_SPEED <= t then Some((FpgaSpeed, t))
    else if FLASH_SPEED <= t then Some((FlashSpeed, t))
    else if PROG_FLASH <= t then Some((ProgFlash, t))
    else FindKey(t[1..])
  }

  /** `strchr` */
  function FindChar(t: seq<byte>, c: byte): (r: Option<seq<byte>>)
    ensures r.Some? ==> 0 < |r.value| <= |t| && r.value[0] == c
  {
    if t == [] then None else if t[0] == c then Some(t) else FindChar(t[1..], c)
  }

  /** `strpbrk(..., "\r\n")` */
  function LineEnd(t: seq<byte>): (r: Option<seq<byte>>)
    ensures r.Some? ==> 0 < |r.value| <= |t|
  {
    if t == [] then None else if t[0] == CR || t[0] == LF then Some(t) else LineEnd(t[1..])
  }

  // ---------------------------------------------------------------- strtoul(..., 0), 32 bits

  function DropWhite(t: seq<byte>): seq<byte> {
    if t != [] && (t[0] == SPACE || 9 <= t[0] <= 13) then DropWhite(t[1..]) else t
  }

  function DigitOf(c: byte): nat {
    if 48 <= c <= 57 then (c - 48) as int
    else if 97 <= c <= 122 then (c - 97) as int + 10
    else if 65 <= c <= 90 then (c - 65) as int + 10
    else 36
  }

  /** The number whose digits t begins with, after digits worth acc. */
  function DigitsValue(t: seq<byte>, base: nat, acc: nat): nat {
    if t != [] && DigitOf(t[0]) < base then DigitsValue(t[1..], base, acc * base + DigitOf(t[0])) else acc
  }

  function Saturate(n: nat): u32 {
    if n > 0xFFFF_FFFF then 0xFFFF_FFFF else n
  }

  function Strtoul(t: seq<byte>): u32 {
    var a := DropWhite(t);
    var negative := StartsWith(a, 45);
    var b := if negative || StartsWith(a, 43) then a[1..] else a;
    var n :=
      if |b| > 2 && b[0] == 48 && (b[1] == 120 || b[1] == 88) && DigitOf(b[2]) < 16 then DigitsValue(b[2..], 16, 0)
      else if StartsWith(b, 48) then DigitsValue(b, 8, 0)
      else DigitsValue(b, 10, 0);
    if negative && n <= 0xFFFF_FFFF then Wrap(-n) else Saturate(n)
  }

  // ---------------------------------------------------------------- the parser

  datatype Outcome = Outcome(ok: bool, opts: Options)

  /** The value of a key, read from the text behind its equals sign; None if it is not acceptable. */
  function ReadValue(k: Key, v: seq<byte>, o: Options): Option<Options> {
    match k
    case FpgaSpeed => if ValidInteger(v) then Some(o.(fpgaSpeed := Strtoul(v))) else None
    case FlashSpeed => if ValidInteger(v) then Some(o.(flashSpeed := Strtoul(v))) else None
    case ProgFlash =>
      var w := DropSpaces(v);
      if YES <= w then Some(o.(progFlash := true))
      else if NO <= w then Some(o.(progFlash := false))
      else None
  }

  /** The parsing loop; the text that is left gets shorter in every round. */
  function ParseText(t: seq<byte>, o: Options): Outcome
    decreases |t|
  {
    match FindKey(t)
    case None => Outcome(true, o.(dirty := false))
    case Some((k, s)) =>
      match FindChar(s, EQUALS)
      case None => Outcome(true, o.(dirty := false))
      case Some(e) =>
        match ReadValue(k, e[1..], o)
        case None => Outcome(false, o)
        case Some(o') =>
          match LineEnd(e[1..])
          case None => Outcome(true, o'.(dirty := false))
          case Some(rest) => ParseText(rest, o')
  }

  // ---------------------------------------------------------------- the printer

  const DIGITS: seq<byte> := [48, 49, 50, 51, 52, 53, 54, 55, 56, 57]

  /** `%lu` */
  function Decimal(n: nat): (r: seq<byte>)
    ensures |r| > 0
  {
    if n < 10 then [DIGITS[n]] else Decimal(n / 10) + [DIGITS[n % 10]]
  }

  function Spaces(n: nat): seq<byte> { seq(n, _ => SPACE) }

  /** A well-formed line: KEY=value, with spaces allowed around the value. */
  datatype Setting = Fpga(n: nat) | Flash(n: nat) | Prog(on: bool)
  datatype Line = Line(s: Setting, before: nat, after: nat, cr: bool)

  function KeyOf(s: Setting): Key {
    match s case Fpga(_) => FpgaSpeed case Flash(_) => FlashSpeed case Prog(_) => ProgFlash
  }

  function ValueText(s: Setting): seq<byte> {
    match s case Fpga(n) => Decimal(n) case Flash(n) => Decimal(n) case Prog(on) => if on then YES else NO
  }

  function EndText(cr: bool): seq<byte> { if cr then [CR, LF] else [LF] }

  function BehindEquals(l: Line): seq<byte> {
    Spaces(l.before) + ValueText(l.s) + Spaces(l.after) + EndText(l.cr)
  }

  function Render(l: Line): seq<byte> {
    NameOf(KeyOf(l.s)) + [EQUALS] + BehindEquals(l)
  }

  function RenderAll(ls: seq<Line>): seq<byte> {
    if ls == [] then [] else Render(ls[0]) + RenderAll(ls[1..])
  }

  /** What `write_config_to_file` prints. */
  function ConfigLines(o: Options): seq<Line> {
    [Line(Fpga(o.fpgaSpeed), 0, 0, true), Line(Flash(o.flashSpeed), 0, 0, true), Line(Prog(o.progFlash), 0, 0, true)]
  }

  // ---------------------------------------------------------------- what well-formed lines mean

  function Set(s: Setting, o: Options): Option<Options> {
    match s
    case Fpga(n) => if n == 0 then None else Some(o.(fpgaSpeed := Saturate(n)))
    case Flash(n) => if n == 0 then None else Some(o.(flashSpeed := Saturate(n)))
    case Prog(on) => Some(o.(progFlash := on))
  }

  /** The lines applied in order: the last assignment to each option wins; a speed of 0 is an error. */
  function Apply(ls: seq<Line>, o: Options): Outcome {
    if ls == [] then Outcome(true, o.(dirty := false))
    else match Set(ls[0].s, o)
      case None => Outcome(false, o)
      case Some(o') => Apply(ls[1..], o')
  }
}
