/** What the OPTIONS parser accepts, and that it reads back what the printer writes. */
module ConfigProofs {
  import opened Bytes
  import opened ConfigText

  // ---------------------------------------------------------------- scanning over known text

  lemma {:induction false} DropSpacesOver(n: nat, r: seq<byte>)
    ensures DropSpaces(Spaces(n) + r) == DropSpaces(r)
    ensures DropWhite(Spaces(n) + r) == DropWhite(r)
  {
    if n == 0 {
      assert Spaces(n) + r == r;
    } else {
      assert (Spaces(n) + r)[1..] == Spaces(n - 1) + r;
      DropSpacesOver(n - 1, r);
    }
  }

  lemma DigitByte(d: nat)
    requires d < 10
    ensures var c := DIGITS[d]; IsDigit(c) && DigitOf(c) == d && (c == 48 <==> d == 0)
  {}

  lemma OneDigit(d: nat, r: seq<byte>, acc: nat)
    requires d < 10
    ensures var t := [DIGITS[d]] + r;
            DropDigits(t) == DropDigits(r) && DigitsValue(t, 10, acc) == DigitsValue(r, 10, acc * 10 + d)
  {
    DigitByte(d);
    assert ([DIGITS[d]] + r)[1..] == r;
  }

  lemma DecimalSplit(n: nat, r: seq<byte>)
    requires n >= 10
    ensures Decimal(n) + r == Decimal(n / 10) + ([DIGITS[n % 10]] + r)
    ensures Decimal(n)[0] == Decimal(n / 10)[0]
  {
    var a, c := Decimal(n / 10), [DIGITS[n % 10]];
    assert Decimal(n) == a + c;
    Associate(a, c, r);
  }

  lemma Associate(a: seq<byte>, b: seq<byte>, c: seq<byte>)
    ensures (a + b) + c == a + (b + c)
  {}

  /** The printed number is passed over as digits, has its value, and starts with 0 only if it is 0. */
  lemma {:induction false} DecimalScan(n: nat, r: seq<byte>)
    ensures DropDigits(Decimal(n) + r) == DropDigits(r)
    ensures DigitsValue(Decimal(n) + r, 10, 0) == DigitsValue(r, 10, n)
    ensures IsDigit(Decimal(n)[0]) && (Decimal(n)[0] == 48 <==> n == 0)
    decreases n
  {
    if n < 10 {
      DigitByte(n);
      OneDigit(n, r, 0);
    } else {
      DecimalSplit(n, r);
      assert n / 10 * 10 + n % 10 == n && 0 < n / 10;
      DecimalScan(n / 10, [DIGITS[n % 10]] + r);
      OneDigit(n % 10, r, n / 10);
    }
  }

  predicate OnOneLine(a: seq<byte>) {
    forall c | c in a :: c != CR && c != LF
  }

  lemma {:induction false} LineEndOver(a: seq<byte>, r: seq<byte>)
    requires OnOneLine(a)
    ensures LineEnd(a + r) == LineEnd(r)
  {
    if a == [] {
      assert a + r == r;
    } else {
      assert (a + r)[0] == a[0] && (a + r)[1..] == a[1..] + r;
      assert a[0] in a && forall c | c in a[1..] :: c in a;
      LineEndOver(a[1..], r);
    }
  }

  lemma {:induction false} FindCharOver(a: seq<byte>, r: seq<byte>, c: byte)
    requires c !in a
    ensures FindChar(a + r, c) == FindChar(r, c)
  {
    if a == [] {
      assert a + r == r;
    } else {
      assert (a + r)[0] == a[0] && (a + r)[1..] == a[1..] + r;
      FindCharOver(a[1..], r, c);
    }
  }

  lemma {:induction false} DecimalOnOneLine(n: nat)
    ensures OnOneLine(Decimal(n))
  {
    DigitByte(n % 10);
    if n >= 10 { DecimalOnOneLine(n / 10); }
  }

  // ---------------------------------------------------------------- the integer recogniser

  /** Digits without a leading zero, or no digits at all. */
  predicate PlainDigits(ds: seq<byte>) {
    (forall c | c in ds :: IsDigit(c)) && !StartsWith(ds, 48)
  }

  lemma {:induction false} SplitSpaces(t: seq<byte>) returns (n: nat)
    ensures t == Spaces(n) + DropSpaces(t)
  {
    if t != [] && t[0] == SPACE {
      n := SplitSpaces(t[1..]);
      n := n + 1;
      assert t == [SPACE] + t[1..];
      assert Spaces(n) == [SPACE] + Spaces(n - 1);
    } else {
      n := 0;
    }
  }

  lemma {:induction false} SplitDigits(t: seq<byte>) returns (ds: seq<byte>)
    ensures t == ds + DropDigits(t) && forall c | c in ds :: IsDigit(c)
  {
    if t != [] && IsDigit(t[0]) {
      ds := SplitDigits(t[1..]);
      ds := [t[0]] + ds;
    } else {
      ds := [];
    }
  }

  lemma {:induction false} DropDigitsOver(ds: seq<byte>, r: seq<byte>)
    requires forall c | c in ds :: IsDigit(c)
    ensures DropDigits(ds + r) == DropDigits(r)
  {
    if ds == [] {
      assert ds + r == r;
    } else {
      assert (ds + r)[0] == ds[0] && (ds + r)[1..] == ds[1..] + r;
      DropDigitsOver(ds[1..], r);
    }
  }

  function IntegerText(i: nat, ds: seq<byte>, j: nat, cr: bool, rest: seq<byte>): seq<byte> {
    Spaces(i) + (ds + (Spaces(j) + (EndText(cr) + rest)))
  }

  lemma EndStops(cr: bool, rest: seq<byte>)
    ensures var e := EndText(cr) + rest;
            && DropSpaces(e) == DropDigits(e) == e
            && StartsWith(if StartsWith(e, CR) then e[1..] else e, LF)
  {
    var e := EndText(cr) + rest;
    assert e[0] == if cr then CR else LF;
    if cr { assert e[1] == LF; }
  }

  lemma SpacesThenEnd(j: nat, cr: bool, rest: seq<byte>)
    ensures var s := Spaces(j) + (EndText(cr) + rest);
            DropSpaces(s) == EndText(cr) + rest && DropDigits(s) == s && !StartsWith(s, 48)
  {
    DropSpacesOver(j, EndText(cr) + rest);
    EndStops(cr, rest);
  }

  lemma IntegerTextScan(i: nat, ds: seq<byte>, j: nat, cr: bool, rest: seq<byte>)
    requires forall c | c in ds :: IsDigit(c)
    ensures ValidInteger(IntegerText(i, ds, j, cr, rest)) == !StartsWith(ds, 48)
  {
    var s := Spaces(j) + (EndText(cr) + rest);
    SpacesThenEnd(j, cr, rest);
    EndStops(cr, rest);
    DropSpacesOver(i, ds + s);
    DropDigitsOver(ds, s);
    if ds == [] {
      assert ds + s == s;
    } else {
      assert (ds + s)[0] == ds[0] && ds[0] in ds;
    }
  }

  /**
   The exact language of `str_is_valid_integer`: spaces, plain digits or none, spaces, an optional CR, LF,
   and then anything.
   */
  lemma ValidIntegerLanguage(t: seq<byte>)
    ensures ValidInteger(t) <==>
            exists i: nat, ds: seq<byte>, j: nat, cr: bool, rest: seq<byte> ::
              PlainDigits(ds) && t == IntegerText(i, ds, j, cr, rest)
  {
    if ValidInteger(t) {
      var a := DropSpaces(t);
      var b := DropDigits(a);
      var e := DropSpaces(b);
      var i := SplitSpaces(t);
      var ds := SplitDigits(a);
      var j := SplitSpaces(b);
      var cr := StartsWith(e, CR);
      var rest := if cr then e[2..] else e[1..];
      assert e == EndText(cr) + rest;
      assert StartsWith(ds, 48) ==> StartsWith(a, 48);
      assert PlainDigits(ds) && t == IntegerText(i, ds, j, cr, rest);
    }
    if i: nat, ds: seq<byte>, j: nat, cr: bool, rest: seq<byte> :|
      PlainDigits(ds) && t == IntegerText(i, ds, j, cr, rest)
    {
      IntegerTextScan(i, ds, j, cr, rest);
    }
  }

  // ---------------------------------------------------------------- one well-formed line

  lemma BehindEqualsForm(l: Line, rest: seq<byte>)
    ensures BehindEquals(l) + rest == Spaces(l.before) + (ValueText(l.s) + (Spaces(l.after) + (EndText(l.cr) + rest)))
  {
    var a, b, c, d := Spaces(l.before), ValueText(l.s), Spaces(l.after), EndText(l.cr);
    Associate(a + b + c, d, rest);
    Associate(a + b, c, d + rest);
    Associate(a, b, c + (d + rest));
  }

  lemma IntegerValue(i: nat, n: nat, s: seq<byte>)
    requires s != [] && !IsDigit(s[0]) && DigitOf(s[0]) >= 10
    ensures n > 0 ==> Strtoul(Spaces(i) + (Decimal(n) + s)) == Saturate(n)
  {
    var t := Decimal(n) + s;
    DropSpacesOver(i, t);
    DecimalScan(n, s);
    assert t[0] == Decimal(n)[0];
  }

  lemma {:induction false} DecimalDigits(n: nat)
    ensures forall c | c in Decimal(n) :: IsDigit(c)
  {
    DigitByte(n % 10);
    if n >= 10 { DecimalDigits(n / 10); }
  }

  /** The text behind the equals sign of a well-formed line is read as the line means it. */
  lemma ValueRead(l: Line, rest: seq<byte>, o: Options)
    ensures ReadValue(KeyOf(l.s), BehindEquals(l) + rest, o) == Set(l.s, o)
  {
    BehindEqualsForm(l, rest);
    var s := Spaces(l.after) + (EndText(l.cr) + rest);
    match l.s
    case Prog(on) =>
      var v := ValueText(l.s);
      DropSpacesOver(l.before, v + s);
      assert (v + s)[..|v|] == v;
    case Fpga(n) => IntegerRead(l, n, rest);
    case Flash(n) => IntegerRead(l, n, rest);
  }

  lemma IntegerRead(l: Line, n: nat, rest: seq<byte>)
    requires ValueText(l.s) == Decimal(n)
    ensures ValidInteger(BehindEquals(l) + rest) <==> n != 0
    ensures n != 0 ==> Strtoul(BehindEquals(l) + rest) == Saturate(n)
  {
    var s := Spaces(l.after) + (EndText(l.cr) + rest);
    BehindEqualsForm(l, rest);
    DecimalDigits(n);
    DecimalScan(n, s);
    IntegerTextScan(l.before, Decimal(n), l.after, l.cr, rest);
    assert s[0] == if l.after > 0 then SPACE else if l.cr then CR else LF;
    IntegerValue(l.before, n, s);
  }

  lemma ValueOnOneLine(l: Line)
    ensures OnOneLine(Spaces(l.before) + (ValueText(l.s) + Spaces(l.after)))
  {
    match l.s
    case Prog(_) =>
    case Fpga(n) => DecimalOnOneLine(n);
    case Flash(n) => DecimalOnOneLine(n);
  }

  lemma LineEndOfLine(l: Line, rest: seq<byte>)
    ensures LineEnd(BehindEquals(l) + rest) == Some(EndText(l.cr) + rest)
  {
    var a, b, c, e := Spaces(l.before), ValueText(l.s), Spaces(l.after), EndText(l.cr) + rest;
    BehindEqualsForm(l, rest);
    ValueOnOneLine(l);
    Associate(b, c, e);
    Associate(a, b + c, e);
    LineEndOver(a + (b + c), e);
    assert e[0] == if l.cr then CR else LF;
  }

  lemma KeyFound(k: Key, r: seq<byte>)
    ensures FindKey(NameOf(k) + r) == Some((k, NameOf(k) + r))
    ensures FindChar(NameOf(k) + r, EQUALS) == FindChar(r, EQUALS)
  {
    var t := NameOf(k) + r;
    FindCharOver(NameOf(k), r, EQUALS);
    assert t[..|NameOf(k)|] == NameOf(k);
    assert t[0] == NameOf(k)[0] && t[5] == NameOf(k)[5];
  }

  lemma EndSkipped(cr: bool, rest: seq<byte>, o: Options)
    ensures FindKey(EndText(cr) + rest) == FindKey(rest)
  {
    var t := EndText(cr) + rest;
    if cr {
      assert t[0] == CR && t[1..] == [LF] + rest;
      assert ([LF] + rest)[1..] == rest;
    } else {
      assert t[0] == LF && t[1..] == rest;
    }
  }

  // ---------------------------------------------------------------- whole texts

  lemma ParseLine(l: Line, rest: seq<byte>, o: Options)
    ensures ParseText(Render(l) + rest, o) ==
            match Set(l.s, o) case None => Outcome(false, o) case Some(o') => ParseText(rest, o')
  {
    var k, v := KeyOf(l.s), BehindEquals(l) + rest;
    var t := Render(l) + rest;
    Associate(NameOf(k) + [EQUALS], BehindEquals(l), rest);
    Associate(NameOf(k), [EQUALS], v);
    assert t == NameOf(k) + ([EQUALS] + v);
    KeyFound(k, [EQUALS] + v);
    assert FindChar(t, EQUALS) == Some([EQUALS] + v);
    assert ([EQUALS] + v)[1..] == v;
    ValueRead(l, rest, o);
    LineEndOfLine(l, rest);
    EndSkipped(l.cr, rest, o);
    if Set(l.s, o).Some? { SameKeySameParse(EndText(l.cr) + rest, rest, Set(l.s, o).value); }
  }

  lemma SameKeySameParse(a: seq<byte>, b: seq<byte>, o: Options)
    requires FindKey(a) == FindKey(b)
    ensures ParseText(a, o) == ParseText(b, o)
  {}

  /** Parser meaning: well-formed lines, in any order and with repeats, are applied one after the other. */
  lemma {:induction false} ParseMeansApply(ls: seq<Line>, o: Options)
    ensures ParseText(RenderAll(ls), o) == Apply(ls, o)
    decreases ls
  {
    if ls != [] {
      ParseLine(ls[0], RenderAll(ls[1..]), o);
      if Set(ls[0].s, o).Some? { ParseMeansApply(ls[1..], Set(ls[0].s, o).value); }
    }
  }

  /**
   Config round trip: what is printed for two speeds and a flag is parsed back to exactly these, with
   dirty cleared, when both speeds are positive; otherwise the parse fails.
   */
  lemma ConfigRoundTrip(c: Options, o: Options)
    ensures ParseText(RenderAll(ConfigLines(c)), o).ok <==> c.fpgaSpeed > 0 && c.flashSpeed > 0
    ensures c.fpgaSpeed > 0 && c.flashSpeed > 0 ==>
              ParseText(RenderAll(ConfigLines(c)), o) == Outcome(true, c.(dirty := false))
  {
    ParseMeansApply(ConfigLines(c), o);
    var a, b, d := ConfigLines(c)[0], ConfigLines(c)[1], ConfigLines(c)[2];
    assert ConfigLines(c)[1..] == [b, d] && [b, d][1..] == [d] && [d][1..] == [];
    if c.fpgaSpeed > 0 {
      var o1 := o.(fpgaSpeed := c.fpgaSpeed);
      assert Apply(ConfigLines(c), o) == Apply([b, d], o1);
      if c.flashSpeed > 0 {
        var o2 := o1.(flashSpeed := c.flashSpeed);
        assert Apply([b, d], o1) == Apply([d], o2);
        assert Apply([d], o2) == Apply([], o2.(progFlash := c.progFlash));
      }
    }
  }
}
