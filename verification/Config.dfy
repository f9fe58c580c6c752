/** The pointer-advancing loops of usb_msc/config.c, over a buffer that holds a C string. */
module Config {
  import opened Bytes
  import opened ConfigText
  import opened DiskSpec

  /** `struct config_options` */
  class ConfigOptions {
    var fpgaProgSpeed: u32
    var flashProgSpeed: u32
    var progFlash: bool
    var dirty: bool

    ghost function Value(): Options
      reads this
    {
      Options(fpgaProgSpeed, flashProgSpeed, progFlash, dirty)
    }

    constructor ()
      ensures Value() == Options(20_000_000, 20_000_000, true, true)
    {
      fpgaProgSpeed, flashProgSpeed, progFlash, dirty := 20_000_000, 20_000_000, true, true;
    }

    method SetDefaultConfig()
      modifies this
      ensures Value() == DEFAULTS
    {
      dirty := false;
      flashProgSpeed := 20_000_000;
      fpgaProgSpeed := 20_000_000;
      progFlash := true;
    }
  }

  /** There is a NUL at or after i. */
  ghost predicate Terminated(s: seq<byte>, i: nat) {
    exists k :: i <= k < |s| && s[k] == 0
  }

  /** `strncmp(..., n) == 0` for a key of n bytes */
  predicate Matches(s: seq<byte>, i: nat, key: seq<byte>) {
    i + |key| <= |s| && s[i..i + |key|] == key
  }

  lemma CTextStep(s: seq<byte>, i: nat)
    requires i < |s| && s[i] != 0
    ensures CText(s, i) == [s[i]] + CText(s, i + 1) && CText(s, i)[1..] == CText(s, i + 1)
  {}

  lemma {:induction false} MatchesIsPrefix(s: seq<byte>, i: nat, key: seq<byte>)
    requires i <= |s| && 0 !in key
    ensures Matches(s, i, key) <==> key <= CText(s, i)
    decreases key
  {
    if key == [] { return; }
    assert i + |key| <= |s| ==> s[i..i + |key|][0] == s[i];
    if i < |s| && s[i] != 0 {
      MatchesIsPrefix(s, i + 1, key[1..]);
      CTextStep(s, i);
      assert key == [key[0]] + key[1..];
      if Matches(s, i, key) { assert s[i..i + |key|][1..] == s[i + 1..i + |key|]; }
      if s[i] == key[0] && Matches(s, i + 1, key[1..]) { assert s[i..i + |key|] == [s[i]] + s[i + 1..i + |key|]; }
    } else {
      assert key[0] in key;
    }
  }

  /** `strchr`: -1 for NULL */
  method StrChr(s: seq<byte>, i: nat, c: byte) returns (p: int)
    requires Terminated(s, i) && c != 0
    ensures p < 0 ==> FindChar(CText(s, i), c) == None
    ensures p >= 0 ==> i <= p < |s| && s[p] == c && Terminated(s, p + 1)
    ensures p >= 0 ==> FindChar(CText(s, i), c) == Some(CText(s, p))
  {
    p := i;
    while s[p] != 0
      invariant i <= p < |s| && Terminated(s, p)
      invariant FindChar(CText(s, p), c) == FindChar(CText(s, i), c)
      decreases |s| - p
    {
      CTextStep(s, p);
      if s[p] == c { return; }
      p := p + 1;
    }
    return -1;
  }

  /** `strpbrk(..., "\r\n")`: -1 for NULL */
  method StrPbrkLineEnd(s: seq<byte>, i: nat) returns (p: int)
    requires Terminated(s, i)
    ensures p < 0 ==> LineEnd(CText(s, i)) == None
    ensures p >= 0 ==> i <= p < |s| && Terminated(s, p) && LineEnd(CText(s, i)) == Some(CText(s, p))
  {
    p := i;
    while s[p] != 0
      invariant i <= p < |s| && Terminated(s, p)
      invariant LineEnd(CText(s, p)) == LineEnd(CText(s, i))
      decreases |s| - p
    {
      CTextStep(s, p);
      if s[p] == CR || s[p] == LF { return; }
      p := p + 1;
    }
    return -1;
  }

  lemma KeysMatch(s: seq<byte>, i: nat)
    requires i <= |s|
    ensures Matches(s, i, FPGA_SPEED) <==> FPGA_SPEED <= CText(s, i)
    ensures Matches(s, i, FLASH_SPEED) <==> FLASH_SPEED <= CText(s, i)
    ensures Matches(s, i, PROG_FLASH) <==> PROG_FLASH <= CText(s, i)
  {
    MatchesIsPrefix(s, i, FPGA_SPEED);
    MatchesIsPrefix(s, i, FLASH_SPEED);
    MatchesIsPrefix(s, i, PROG_FLASH);
  }

  /** Finds the next key and the equals sign behind it; -1 for NULL. */
  method GetConfigOptInt(s: seq<byte>, start: nat) returns (p: int, key: Key)
    requires Terminated(s, start)
    ensures p < 0 ==> FindKey(CText(s, start)) == None ||
                      (var k := FindKey(CText(s, start)).value; FindChar(k.1, EQUALS) == None)
    ensures p >= 0 ==> start <= p < |s| && s[p] == EQUALS && Terminated(s, p + 1) && FindKey(CText(s, start)).Some? &&
                       (var k := FindKey(CText(s, start)).value;
                        k.0 == key && FindChar(k.1, EQUALS) == Some(CText(s, p)))
  {
    var i := start;
    key := ProgFlash;
    while s[i] != 0
      invariant start <= i < |s| && Terminated(s, i)
      invariant FindKey(CText(s, i)) == FindKey(CText(s, start))
      decreases |s| - i
    {
      CTextStep(s, i);
      if s[i] == SPACE || s[i] == LF || s[i] == CR { i := i + 1; continue; }
      KeysMatch(s, i);
      if Matches(s, i, FPGA_SPEED) {
        p := StrChr(s, i, EQUALS);
        return p, FpgaSpeed;
      }
      if Matches(s, i, FLASH_SPEED) {
        p := StrChr(s, i, EQUALS);
        return p, FlashSpeed;
      }
      if Matches(s, i, PROG_FLASH) {
        p := StrChr(s, i, EQUALS);
        return p, ProgFlash;
      }
      i := i + 1;
    }
    return -1, key;
  }

  method SkipSpaces(s: seq<byte>, i: nat) returns (p: nat)
    requires Terminated(s, i)
    ensures i <= p < |s| && Terminated(s, p) && CText(s, p) == DropSpaces(CText(s, i))
  {
    p := i;
    while s[p] == SPACE
      invariant i <= p < |s| && Terminated(s, p)
      invariant DropSpaces(CText(s, p)) == DropSpaces(CText(s, i))
      decreases |s| - p
    {
      CTextStep(s, p);
      p := p + 1;
    }
  }

  method SkipDigits(s: seq<byte>, i: nat) returns (p: nat)
    requires Terminated(s, i)
    ensures i <= p < |s| && Terminated(s, p) && CText(s, p) == DropDigits(CText(s, i))
  {
    p := i;
    while 48 <= s[p] <= 57
      invariant i <= p < |s| && Terminated(s, p)
      invariant DropDigits(CText(s, p)) == DropDigits(CText(s, i))
      decreases |s| - p
    {
      CTextStep(s, p);
      p := p + 1;
    }
  }

  lemma HeadOfText(s: seq<byte>, i: nat, c: byte)
    requires i < |s| && c != 0
    ensures StartsWith(CText(s, i), c) <==> s[i] == c
  {}

  /** A leading 0 leads to rejection on every path, the hexadecimal prefix included. */
  method StrIsValidInteger(s: seq<byte>, i: nat) returns (valid: bool)
    requires Terminated(s, i)
    ensures valid == ValidInteger(CText(s, i))
  {
    var x := SkipSpaces(s, i);
    HeadOfText(s, x, 48);
    if s[x] == 48 {
      x := x + 1;
      if s[x] <= 49 || s[x] >= 57 {
        if s[x] != 120 && s[x] != 88 { return false; }
      } else {
        return false;
      }
      // at the x of a prefix: no digit, no space, no line end
      return s[x] == LF;
    }
    x := SkipDigits(s, x);
    x := SkipSpaces(s, x);
    HeadOfText(s, x, CR);
    if s[x] == CR {
      CTextStep(s, x);
      x := x + 1;
    }
    HeadOfText(s, x, LF);
    return s[x] == LF;
  }

  lemma ValueMatch(s: seq<byte>, i: nat)
    requires i <= |s|
    ensures Matches(s, i, YES) <==> YES <= CText(s, i)
    ensures Matches(s, i, NO) <==> NO <= CText(s, i)
  {
    MatchesIsPrefix(s, i, YES);
    MatchesIsPrefix(s, i, NO);
  }

  /** The value of one key; -1 if it is not acceptable. */
  method ReadOption(s: seq<byte>, i: nat, key: Key, opts: ConfigOptions) returns (rtn: int, p: nat)
    requires Terminated(s, i)
    modifies opts
    ensures i <= p < |s| && Terminated(s, p) && LineEnd(CText(s, p)) == LineEnd(CText(s, i))
    ensures var r := ReadValue(key, CText(s, i), old(opts.Value()));
            if r.Some? then rtn == 0 && opts.Value() == r.value else rtn == -1 && opts.Value() == old(opts.Value())
  {
    rtn, p := 0, i;
    match key {
      case FpgaSpeed =>
        var valid := StrIsValidInteger(s, i);
        if !valid { return -1, p; }
        opts.fpgaProgSpeed := Strtoul(CText(s, i));
      case FlashSpeed =>
        var valid := StrIsValidInteger(s, i);
        if !valid { return -1, p; }
        opts.flashProgSpeed := Strtoul(CText(s, i));
      case ProgFlash =>
        p := SkipSpaces(s, i);
        LineEndBehindSpaces(CText(s, i));
        ValueMatch(s, p);
        if Matches(s, p, YES) {
          opts.progFlash := true;
        } else if Matches(s, p, NO) {
          opts.progFlash := false;
        } else {
          return -1, p;
        }
    }
  }

  lemma {:induction false} LineEndBehindSpaces(t: seq<byte>)
    ensures LineEnd(DropSpaces(t)) == LineEnd(t)
  {
    if t != [] && t[0] == SPACE { LineEndBehindSpaces(t[1..]); }
  }

  /** One round of the parsing loop: one key and its value. `next` is -1 when there is nothing more to parse. */
  method ParseNext(s: seq<byte>, cur: nat, opts: ConfigOptions) returns (err: int, next: int)
    requires Terminated(s, cur)
    modifies opts
    ensures next < |s| && (next >= 0 ==> cur < next && Terminated(s, next))
    ensures ParseText(CText(s, cur), old(opts.Value())) ==
              if err != 0 then Outcome(false, opts.Value())
              else if next < 0 then Outcome(true, opts.Value().(dirty := false))
              else ParseText(CText(s, next), opts.Value())
  {
    var key;
    next, key := GetConfigOptInt(s, cur);
    if next < 0 { return 0, -1; }
    CTextStep(s, next);
    err, next := ReadOption(s, next + 1, key, opts);
    if err != 0 { return; }
    next := StrPbrkLineEnd(s, next);
  }

  /** The parsing loop of `parse_config`. */
  method ParseLines(s: seq<byte>, opts: ConfigOptions) returns (rtn: int)
    requires Terminated(s, 0)
    modifies opts
    ensures var out := ParseText(CText(s, 0), old(opts.Value()));
            rtn == (if out.ok then 0 else -1) && opts.Value() == out.opts
  {
    var cur: int := 0;
    ghost var out := ParseText(CText(s, 0), opts.Value());
    while cur >= 0
      invariant cur < |s|
      invariant cur >= 0 ==> Terminated(s, cur) && ParseText(CText(s, cur), opts.Value()) == out
      invariant cur < 0 ==> Outcome(true, opts.Value().(dirty := false)) == out
      decreases if cur >= 0 then |s| - cur else 0
    {
      var err;
      err, cur := ParseNext(s, cur, opts);
      if err != 0 { return -1; }
    }
    opts.dirty := false;
    return 0;
  }
}
