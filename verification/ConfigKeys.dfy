/** The OPTIONS parser on any text: where it finds keys, what it passes over, and what it refuses. */
module ConfigKeys {
  import opened Bytes
  import opened ConfigText
  import opened ConfigProofs

  // ---------------------------------------------------------------- the names

  /** The bytes are those of the string. */
  predicate Spells(t: seq<byte>, s: string) {
    |t| == |s| && forall i | 0 <= i < |s| :: t[i] as int == s[i] as int
  }

  lemma KeyNames()
    ensures Spells(NameOf(FpgaSpeed), "SPI_FPGA_SPEED")
    ensures Spells(NameOf(FlashSpeed), "SPI_FLASH_SPEED")
    ensures Spells(NameOf(ProgFlash), "PROG_SPI_FLASH")
  {
    FpgaSpeedName();
    FlashSpeedName();
    ProgFlashName();
  }

  lemma FpgaSpeedName()
    ensures Spells(FPGA_SPEED, "SPI_FPGA_SPEED")
  {}

  lemma FlashSpeedName()
    ensures Spells(FLASH_SPEED, "SPI_FLASH_SPEED")
  {}

  lemma ProgFlashName()
    ensures Spells(PROG_FLASH, "PROG_SPI_FLASH")
  {}

  lemma OtherNames()
    ensures Spells(YES, "YES") && Spells(NO, "NO") && Spells(DIGITS, "0123456789")
    ensures Spells([SPACE, LF, CR, EQUALS], " \n\r=")
  {}

  // ---------------------------------------------------------------- finding a key

  /** The name of k stands at index i. */
  predicate KeyAt(t: seq<byte>, i: nat, k: Key) {
    i <= |t| && NameOf(k) <= t[i..]
  }

  /** No name stands at i. */
  predicate NoKeyAt(t: seq<byte>, i: nat) {
    !KeyAt(t, i, FpgaSpeed) && !KeyAt(t, i, FlashSpeed) && !KeyAt(t, i, ProgFlash)
  }

  ghost predicate FirstKey(t: seq<byte>, i: nat, k: Key) {
    KeyAt(t, i, k) && forall j: nat | j < i :: NoKeyAt(t, j)
  }

  lemma OneKey(t: seq<byte>, k: Key, k': Key)
    requires NameOf(k) <= t && NameOf(k') <= t
    ensures k == k' && t[0] != SPACE && t[0] != LF && t[0] != CR
  {
    assert t[0] == NameOf(k)[0] == NameOf(k')[0];
    assert t[5] == NameOf(k)[5] == NameOf(k')[5];
  }

  lemma KeyHere(t: seq<byte>, k: Key)
    requires NameOf(k) <= t
    ensures FindKey(t) == Some((k, t))
  {
    OneKey(t, k, k);
    if FPGA_SPEED <= t {
      OneKey(t, k, FpgaSpeed);
    } else if FLASH_SPEED <= t {
      OneKey(t, k, FlashSpeed);
    }
  }

  lemma NoKeyHere(t: seq<byte>)
    requires t != [] && NoKeyAt(t, 0)
    ensures FindKey(t) == FindKey(t[1..])
  {
    assert t[0..] == t;
  }

  lemma {:induction false} FirstKeyFound(t: seq<byte>, i: nat, k: Key)
    requires FirstKey(t, i, k)
    ensures FindKey(t) == Some((k, t[i..]))
    decreases i
  {
    if i == 0 {
      assert t[0..] == t;
      KeyHere(t, k);
    } else {
      assert NoKeyAt(t, 0);
      NoKeyHere(t);
      Shifted(t, i, k);
      FirstKeyFound(t[1..], i - 1, k);
      assert t[1..][i - 1..] == t[i..];
    }
  }

  lemma Shifted(t: seq<byte>, i: nat, k: Key)
    requires FirstKey(t, i, k) && 0 < i
    ensures FirstKey(t[1..], i - 1, k)
  {
    assert t[1..][i - 1..] == t[i..];
    forall j: nat | j < i - 1
      ensures NoKeyAt(t[1..], j)
    {
      assert NoKeyAt(t, j + 1);
      assert t[1..][j..] == t[j + 1..];
    }
  }

  lemma {:induction false} NoKeyFound(t: seq<byte>)
    requires forall j: nat | j <= |t| :: NoKeyAt(t, j)
    ensures FindKey(t) == None
    decreases t
  {
    if t != [] {
      assert NoKeyAt(t, 0);
      NoKeyHere(t);
      forall j: nat | j <= |t[1..]|
        ensures NoKeyAt(t[1..], j)
      {
        assert NoKeyAt(t, j + 1);
        assert t[1..][j..] == t[j + 1..];
      }
      NoKeyFound(t[1..]);
    }
  }

  /** The least index at which a name stands, if there is one. */
  lemma {:induction false} LeastKey(t: seq<byte>, n: nat) returns (i: nat, k: Key)
    requires n <= |t| + 1 && exists j: nat :: j < n && !NoKeyAt(t, j)
    ensures FirstKey(t, i, k)
    decreases n
  {
    if j: nat :| j < n - 1 && !NoKeyAt(t, j) {
      i, k := LeastKey(t, n - 1);
    } else {
      i := n - 1;
      k := if KeyAt(t, i, FpgaSpeed) then FpgaSpeed else if KeyAt(t, i, FlashSpeed) then FlashSpeed else ProgFlash;
    }
  }

  /**
   The key scan, exactly: it finds key k and the text from index i on if and only if i is the least index
   at which any of the three names stands and k's name stands there; and nothing if and only if none does.
   */
  lemma FindKeyExactly(t: seq<byte>, k: Key, rest: seq<byte>)
    ensures FindKey(t) == Some((k, rest)) <==> exists i: nat :: FirstKey(t, i, k) && rest == t[i..]
    ensures FindKey(t) == None <==> forall j: nat | j <= |t| :: NoKeyAt(t, j)
  {
    if forall j: nat | j <= |t| :: NoKeyAt(t, j) {
      NoKeyFound(t);
    } else {
      assert exists j: nat :: j < |t| + 1 && !NoKeyAt(t, j);
      var i, k' := LeastKey(t, |t| + 1);
      FirstKeyFound(t, i, k');
      if FindKey(t) == Some((k, rest)) { assert FirstKey(t, i, k) && rest == t[i..]; }
    }
    if i: nat :| FirstKey(t, i, k) && rest == t[i..] { FirstKeyFound(t, i, k); }
  }

  // ---------------------------------------------------------------- text that is passed over

  /** No name begins in this text, followed by that. */
  ghost predicate KeyFree(text: seq<byte>, rest: seq<byte>) {
    forall j: nat | j < |text| :: NoKeyAt(text + rest, j)
  }

  lemma {:induction false} FreeTextSkipped(text: seq<byte>, rest: seq<byte>)
    requires KeyFree(text, rest)
    ensures FindKey(text + rest) == FindKey(rest)
    decreases text
  {
    if text == [] {
      assert text + rest == rest;
    } else {
      FirstIsFree(text, rest);
      RestIsFree(text, rest);
      FreeTextSkipped(text[1..], rest);
    }
  }

  lemma FirstIsFree(text: seq<byte>, rest: seq<byte>)
    requires KeyFree(text, rest) && text != []
    ensures FindKey(text + rest) == FindKey(text[1..] + rest)
  {
    assert NoKeyAt(text + rest, 0);
    NoKeyHere(text + rest);
    assert (text + rest)[1..] == text[1..] + rest;
  }

  lemma RestIsFree(text: seq<byte>, rest: seq<byte>)
    requires KeyFree(text, rest) && text != []
    ensures KeyFree(text[1..], rest)
  {
    var s, t := text + rest, text[1..] + rest;
    assert s[1..] == t;
    forall j: nat | j < |text[1..]|
      ensures NoKeyAt(t, j)
    {
      assert NoKeyAt(s, j + 1);
      SameTextBehind(s, t, j);
    }
  }

  lemma SameTextBehind(s: seq<byte>, t: seq<byte>, j: nat)
    requires s != [] && s[1..] == t && j <= |t| && NoKeyAt(s, j + 1)
    ensures NoKeyAt(t, j)
  {
    assert s[j + 1..] == t[j..];
  }

  /** Whole lines without names, such as comments, are such text whatever follows. */
  lemma CommentIsFree(text: seq<byte>, rest: seq<byte>)
    requires text != [] && text[|text| - 1] == LF && forall j: nat | j < |text| :: NoKeyAt(text, j)
    ensures KeyFree(text, rest)
  {
    forall j: nat | j < |text|
      ensures NoKeyAt(text + rest, j)
    {
      assert NoKeyAt(text, j);
      forall k: Key
        ensures !KeyAt(text + rest, j, k)
      {
        if KeyAt(text + rest, j, k) { NameInside(text, rest, j, k); }
      }
    }
  }

  lemma NameInside(text: seq<byte>, rest: seq<byte>, j: nat, k: Key)
    requires j < |text| && text[|text| - 1] == LF && KeyAt(text + rest, j, k)
    ensures KeyAt(text, j, k)
  {
    var t, name := text + rest, NameOf(k);
    assert name == t[j..][..|name|];
    if j + |name| >= |text| {
      assert t[j..][|text| - 1 - j] == LF;
      if |text| - 1 - j < |name| {
        assert name[|text| - 1 - j] == LF;
        NameWithoutLineEnd(k);
        assert false;
      }
    }
    assert t[j..][..|name|] == text[j..][..|name|];
  }

  lemma NameWithoutLineEnd(k: Key)
    ensures LF !in NameOf(k)
  {}

  // ---------------------------------------------------------------- lines and other text

  /** Lines with other text before, between and behind them. */
  function RenderMixed(texts: seq<seq<byte>>, ls: seq<Line>): seq<byte>
    requires |texts| == |ls| + 1
    decreases ls
  {
    if ls == [] then texts[0] else texts[0] + (Render(ls[0]) + RenderMixed(texts[1..], ls[1..]))
  }

  /** No name begins in the other text. */
  ghost predicate NamesOnlyInLines(texts: seq<seq<byte>>, ls: seq<Line>)
    requires |texts| == |ls| + 1
    decreases ls
  {
    if ls == [] then KeyFree(texts[0], [])
    else KeyFree(texts[0], Render(ls[0]) + RenderMixed(texts[1..], ls[1..])) && NamesOnlyInLines(texts[1..], ls[1..])
  }

  /**
   Parser meaning with other text: well-formed lines are applied one after the other, whatever stands before,
   between and behind them, as long as no name of a key begins there.
   */
  lemma {:induction false} MixedMeansApply(texts: seq<seq<byte>>, ls: seq<Line>, o: Options)
    requires |texts| == |ls| + 1 && NamesOnlyInLines(texts, ls)
    ensures ParseText(RenderMixed(texts, ls), o) == Apply(ls, o)
    decreases ls
  {
    if ls == [] {
      FreeTextSkipped(texts[0], []);
      assert texts[0] + [] == texts[0];
    } else {
      var rest := RenderMixed(texts[1..], ls[1..]);
      FreeTextSkipped(texts[0], Render(ls[0]) + rest);
      SameKeySameParse(texts[0] + (Render(ls[0]) + rest), Render(ls[0]) + rest, o);
      ParseLine(ls[0], rest, o);
      if Set(ls[0].s, o).Some? { MixedMeansApply(texts[1..], ls[1..], Set(ls[0].s, o).value); }
    }
  }

  /** What applying a line means: the option of its key, at most 2^32 - 1, the others as they were; no speed of 0. */
  lemma SetMeans(n: nat, on: bool, o: Options)
    ensures Set(Fpga(n), o) == if n == 0 then None
                               else Some(Options(Min(n, 4294967295), o.flashSpeed, o.progFlash, o.dirty))
    ensures Set(Flash(n), o) == if n == 0 then None
                                else Some(Options(o.fpgaSpeed, Min(n, 4294967295), o.progFlash, o.dirty))
    ensures Set(Prog(on), o) == Some(Options(o.fpgaSpeed, o.flashSpeed, on, o.dirty))
  {}

  // ---------------------------------------------------------------- searching for a character

  /** `strchr` finds the first place of the character, if there is one. */
  lemma {:induction false} FindCharExactly(t: seq<byte>, c: byte)
    ensures FindChar(t, c) == None <==> c !in t
    ensures forall i: nat | i < |t| && t[i] == c && c !in t[..i] :: FindChar(t, c) == Some(t[i..])
    decreases t
  {
    if t != [] {
      FindCharExactly(t[1..], c);
      forall i: nat | i < |t| && t[i] == c && c !in t[..i]
        ensures FindChar(t, c) == Some(t[i..])
      {
        if i > 0 {
          assert t[..i][0] == t[0];
          assert t[1..][..i - 1] == t[..i][1..];
          assert t[1..][i - 1] == c && t[1..][i - 1..] == t[i..];
        }
      }
      assert t == [t[0]] + t[1..];
    }
  }

  /** `strpbrk` finds the first CR or LF. */
  lemma {:induction false} LineEndExactly(t: seq<byte>)
    ensures LineEnd(t) == None <==> OnOneLine(t)
    ensures forall i: nat | i < |t| && (t[i] == CR || t[i] == LF) && OnOneLine(t[..i]) :: LineEnd(t) == Some(t[i..])
    decreases t
  {
    if t != [] {
      LineEndExactly(t[1..]);
      OneLineStep(t);
      forall i: nat | i < |t| && (t[i] == CR || t[i] == LF) && OnOneLine(t[..i])
        ensures LineEnd(t) == Some(t[i..])
      {
        if i > 0 { LineEndBehind(t, i); }
      }
    }
  }

  lemma LineEndBehind(t: seq<byte>, i: nat)
    requires 0 < i < |t| && OnOneLine(t[..i])
    ensures t[0] != CR && t[0] != LF && OnOneLine(t[1..][..i - 1])
    ensures t[1..][i - 1] == t[i] && t[1..][i - 1..] == t[i..]
  {
    OneLineStep(t[..i]);
    assert t[1..][..i - 1] == t[..i][1..];
  }

  lemma OneLineStep(t: seq<byte>)
    requires t != []
    ensures OnOneLine(t) <==> t[0] != CR && t[0] != LF && OnOneLine(t[1..])
  {
    assert t[0] in t && forall c | c in t[1..] :: c in t;
    assert forall c | c in t :: c == t[0] || c in t[1..];
  }

  // ---------------------------------------------------------------- what is refused, and what ends the parse

  /** The text behind the spaces decides a flag: it begins with YES, or with NO, or is refused. */
  lemma FlagRead(n: nat, x: seq<byte>, o: Options)
    requires !StartsWith(x, SPACE)
    ensures ReadValue(ProgFlash, Spaces(n) + x, o)
         == if |x| >= 3 && x[0] == 89 && x[1] == 69 && x[2] == 83 then Some(o.(progFlash := true))
            else if |x| >= 2 && x[0] == 78 && x[1] == 79 then Some(o.(progFlash := false))
            else None
  {
    DropSpacesOver(n, x);
    assert DropSpaces(x) == x;
  }

  /**
   A speed without digits is accepted, and is the number that the text behind its line begins with: 0 where
   none does.
   */
  lemma DigitlessSpeed(i: nat, j: nat, cr: bool, rest: seq<byte>)
    ensures ValidInteger(IntegerText(i, [], j, cr, rest))
    ensures Strtoul(IntegerText(i, [], j, cr, rest)) == Strtoul(rest)
    ensures NoNumber(rest) ==> Strtoul(rest) == 0
  {
    if NoNumber(rest) { NoNumberIsZero(rest); }
    IntegerTextScan(i, [], j, cr, rest);
    WhiteBefore(i, j, cr, rest);
    SameNumber(IntegerText(i, [], j, cr, rest), rest);
  }

  lemma SameNumber(a: seq<byte>, b: seq<byte>)
    requires DropWhite(a) == DropWhite(b)
    ensures Strtoul(a) == Strtoul(b)
  {}

  lemma WhiteBefore(i: nat, j: nat, cr: bool, rest: seq<byte>)
    ensures DropWhite(IntegerText(i, [], j, cr, rest)) == DropWhite(rest)
  {
    var e := EndText(cr) + rest;
    assert [] + (Spaces(j) + e) == Spaces(j) + e;
    DropSpacesOver(i, Spaces(j) + e);
    DropSpacesOver(j, e);
    LineEndIsWhite(cr, rest);
  }

  lemma LineEndIsWhite(cr: bool, rest: seq<byte>)
    ensures DropWhite(EndText(cr) + rest) == DropWhite(rest)
  {
    var e := EndText(cr) + rest;
    if cr {
      assert e[0] == CR && e[1..] == [LF] + rest;
      assert ([LF] + rest)[1..] == rest;
    } else {
      assert e[0] == LF && e[1..] == rest;
    }
  }

  /** No number begins here: the end, or a character that is no digit, sign or white space. */
  predicate NoNumber(t: seq<byte>) {
    t == [] || (DigitOf(t[0]) >= 10 && t[0] != 43 && t[0] != 45 && t[0] != SPACE && !(9 <= t[0] <= 13))
  }

  lemma NoNumberIsZero(t: seq<byte>)
    requires NoNumber(t)
    ensures Strtoul(t) == 0
  {}

  /** A value that is refused ends the parse with an error, and sets nothing. */
  lemma ValueRefused(k: Key, v: seq<byte>, o: Options)
    requires ReadValue(k, v, o) == None
    ensures ParseText(NameOf(k) + ([EQUALS] + v), o) == Outcome(false, o)
  {
    KeyFound(k, [EQUALS] + v);
    assert FindChar([EQUALS] + v, EQUALS) == Some([EQUALS] + v);
    assert ([EQUALS] + v)[1..] == v;
  }

  /** A key with no equals sign behind it ends the parse without an error; so does text without a key. */
  lemma NothingToSet(k: Key, t: seq<byte>, o: Options)
    ensures EQUALS !in t ==> ParseText(NameOf(k) + t, o) == Outcome(true, o.(dirty := false))
    ensures (forall j: nat | j <= |t| :: NoKeyAt(t, j)) ==> ParseText(t, o) == Outcome(true, o.(dirty := false))
  {
    KeyFound(k, t);
    FindCharExactly(t, EQUALS);
    FindKeyExactly(t, k, t);
  }

  /** A flag at the end of the text needs no line end. */
  lemma LastFlag(n: nat, on: bool, tail: seq<byte>, o: Options)
    requires OnOneLine(tail)
    ensures ParseText(NameOf(ProgFlash) + ([EQUALS] + (Spaces(n) + (ValueText(Prog(on)) + tail))), o)
         == Outcome(true, Options(o.fpgaSpeed, o.flashSpeed, on, false))
  {
    var x := ValueText(Prog(on)) + tail;
    FlagText(on, tail);
    FlagRead(n, x, o);
    assert OnOneLine(Spaces(n) + x);
    LineEndExactly(Spaces(n) + x);
    LastValue(ProgFlash, Spaces(n) + x, o);
  }

  lemma FlagText(on: bool, tail: seq<byte>)
    ensures var x := ValueText(Prog(on)) + tail;
            && !StartsWith(x, SPACE) && (OnOneLine(tail) ==> OnOneLine(x))
            && if on then |x| >= 3 && x[0] == 89 && x[1] == 69 && x[2] == 83
               else |x| >= 2 && x[0] == 78 && x[1] == 79
  {}

  lemma LastValue(k: Key, v: seq<byte>, o: Options)
    requires ReadValue(k, v, o).Some? && LineEnd(v) == None
    ensures ParseText(NameOf(k) + ([EQUALS] + v), o) == Outcome(true, ReadValue(k, v, o).value.(dirty := false))
  {
    KeyFound(k, [EQUALS] + v);
    assert FindChar([EQUALS] + v, EQUALS) == Some([EQUALS] + v);
    assert ([EQUALS] + v)[1..] == v;
  }

  // ---------------------------------------------------------------- what is printed

  /** The options file as printed, byte for byte. */
  lemma PrintedText(o: Options)
    ensures RenderAll(ConfigLines(o))
         == (FPGA_SPEED + [EQUALS] + Decimal(o.fpgaSpeed) + [CR, LF])
          + ((FLASH_SPEED + [EQUALS] + Decimal(o.flashSpeed) + [CR, LF])
             + (PROG_FLASH + [EQUALS] + (if o.progFlash then YES else NO) + [CR, LF]))
  {
    var a, b, c := ConfigLines(o)[0], ConfigLines(o)[1], ConfigLines(o)[2];
    ThreeLines(a, b, c);
    NoSpaces(a);
    NoSpaces(b);
    NoSpaces(c);
  }

  lemma ThreeLines(a: Line, b: Line, c: Line)
    ensures RenderAll([a, b, c]) == Render(a) + (Render(b) + Render(c))
  {
    assert [a, b, c][1..] == [b, c] && [b, c][1..] == [c] && [c][1..] == [];
    assert RenderAll([c]) == Render(c) + [];
  }

  lemma NoSpaces(l: Line)
    requires l.before == l.after == 0 && l.cr
    ensures Render(l) == NameOf(KeyOf(l.s)) + [EQUALS] + ValueText(l.s) + [CR, LF]
  {
    assert Spaces(0) == [];
  }

  /** The printed digits are the number's, with no leading zero. */
  lemma PrintedNumber(n: nat)
    ensures DigitsValue(Decimal(n), 10, 0) == n && (forall c | c in Decimal(n) :: IsDigit(c))
    ensures Decimal(n)[0] == 48 <==> n == 0
  {
    DecimalDigits(n);
    DecimalScan(n, []);
    assert Decimal(n) + [] == Decimal(n);
  }
}
