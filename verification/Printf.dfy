/** printf of lib.c, against a renderer over a typed argument list. */
module Printf {
  import opened Bytes
  import opened CString
  import opened Digits

  const PERCENT: byte := 37
  const HASH: byte := 35
  const CH_C: byte := 99
  const CH_D: byte := 100
  const CH_S: byte := 115
  const CH_U: byte := 117
  const CH_X: byte := 120
  const MINUS: byte := 45
  const ZERO: byte := 48

  /** A stack word: a number, or the address of a string. */
  datatype Arg = Word(v: uint32) | Text(s: seq<byte>)

  function Hashes(f: seq<byte>, at: nat): (n: nat)
    requires at <= |f|
    ensures at + n <= |f| && (at + n < |f| ==> f[at + n] != HASH)
    decreases |f| - at
  {
    if at == |f| || f[at] != HASH then 0 else 1 + Hashes(f, at + 1)
  }

  predicate TakesWord(c: byte) { c == CH_X || c == CH_U || c == CH_D || c == CH_C }

  predicate Takes(c: byte) { TakesWord(c) || c == CH_S }

  predicate Suits(c: byte, a: Arg) { if TakesWord(c) then a.Word? else c == CH_S && a.Text? && NulFree(a.s) }

  /** Signed value of a 32-bit word. */
  function Signed(v: uint32): int { if v < 0x8000_0000 then v else v - 0x1_0000_0000 }

  function Conversion(c: byte, alternate: bool, a: Arg): seq<byte>
    requires Takes(c) && Suits(c, a)
  {
    if c == CH_X then
      var n := Numeral(a.v, 16);
      if alternate then seq(Max(8 - |n|, 0), _ => ZERO) + n else n
    else if c == CH_U then Numeral(a.v, 10)
    else if c == CH_D then (if Signed(a.v) < 0 then [MINUS] + Numeral(-Signed(a.v), 10) else Numeral(a.v, 10))
    else if c == CH_C then [a.v % 0x100]
    else a.s
  }

  /** Position of the conversion character behind a percent sign at `at`. */
  function Spec(f: seq<byte>, at: nat): (p: nat)
    requires at < |f|
    ensures at < p <= |f|
  {
    at + 1 + Hashes(f, at + 1)
  }

  /** Arguments that the item at a position takes. */
  function Uses(f: seq<byte>, at: nat): nat
    requires at < |f|
  {
    if f[at] == PERCENT && Spec(f, at) < |f| && Takes(f[Spec(f, at)]) then 1 else 0
  }

  /** The position behind the item. */
  function After(f: seq<byte>, at: nat): (n: nat)
    requires at < |f|
    ensures at < n <= |f|
  {
    if f[at] == PERCENT then Min(Spec(f, at) + 1, |f|) else at + 1
  }

  /** The item is a character or a whole conversion with an argument it can print. */
  predicate ItemOk(f: seq<byte>, at: nat, args: seq<Arg>)
    requires at < |f|
  {
    f[at] == PERCENT ==> Spec(f, at) < |f| && (Uses(f, at) == 1 ==> args != [] && Suits(f[Spec(f, at)], args[0]))
  }

  function Piece(f: seq<byte>, at: nat, args: seq<Arg>): seq<byte>
    requires at < |f| && ItemOk(f, at, args)
  {
    if f[at] != PERCENT then [f[at]]
    else var p := Spec(f, at);
      if Takes(f[p]) then Conversion(f[p], p > at + 1, args[0]) else if f[p] == PERCENT then [PERCENT] else []
  }

  /** From a position on, the format does not end inside a conversion and its arguments are
      what its conversions ask for. */
  predicate Typed(f: seq<byte>, at: nat, args: seq<Arg>)
    requires at <= |f|
    decreases |f| - at
  {
    at == |f| || (ItemOk(f, at, args) && Typed(f, After(f, at), args[Uses(f, at)..]))
  }

  function Rendered(f: seq<byte>, at: nat, args: seq<Arg>): seq<byte>
    requires at <= |f| && Typed(f, at, args)
    decreases |f| - at
  {
    if at == |f| then [] else Piece(f, at, args) + Rendered(f, After(f, at), args[Uses(f, at)..])
  }

  /** The number of arguments that are used. */
  function Used(f: seq<byte>, at: nat): nat
    requires at <= |f|
    decreases |f| - at
  {
    if at == |f| then 0 else Uses(f, at) + Used(f, After(f, at))
  }

  /** puts */
  method Puts(s: array<byte>, at: nat) returns (out: seq<byte>)
    requires Terminated(s[..], at)
    ensures out == CStr(s[..], at)
  {
    out := [];
    var index: nat := 0;
    while s[at + index] != NUL
      invariant index <= |CStr(s[..], at)| && out == CStr(s[..], at)[..index]
      decreases |CStr(s[..], at)| - index
    {
      out := out + [s[at + index]];
      index := index + 1;
    }
  }

  lemma PatchedString(m: seq<byte>, at: nat, w: seq<byte>)
    requires NulFree(w) && at + |w| < |m|
    ensures var p := Patch(m, at, w + [NUL]); Terminated(p, at) && CStr(p, at) == w
  {
    var p := Patch(m, at, w + [NUL]);
    assert p[at..at + |w|] == w;
    CStrIs(p, at, at + |w|);
  }

  method PrintNumber(v: uint32, radix: nat) returns (out: seq<byte>)
    requires 2 <= radix <= 36
    ensures out == Numeral(v, radix)
  {
    WordLength(v, radix);
    var convBuf := new byte[64](_ => 0);
    PatchedString(convBuf[..], 0, Numeral(v, radix));
    Itoa(v, convBuf, 0, radix);
    out := Puts(convBuf, 0);
  }

  lemma SignedString(m: seq<byte>, n: seq<byte>)
    requires NulFree(n) && 1 + |n| < |m| && m[0] == MINUS
    ensures var p := Patch(m, 1, n + [NUL]); Terminated(p, 0) && CStr(p, 0) == [MINUS] + n
  {
    var p := Patch(m, 1, n + [NUL]);
    assert p[0..1 + |n|] == [MINUS] + n;
    CStrIs(p, 0, 1 + |n|);
  }

  method PrintSigned(v: uint32) returns (out: seq<byte>)
    ensures out == Conversion(CH_D, false, Word(v))
  {
    var value := Signed(v);
    if value >= 0 {
      out := PrintNumber(v, 10);
      return;
    }
    WordLength(-value, 10);
    var convBuf := new byte[36](_ => 0);
    convBuf[0] := MINUS;
    SignedString(convBuf[..], Numeral(-value, 10));
    Itoa(-value, convBuf, 1, 10);
    out := Puts(convBuf, 0);
  }

  /** %#x: the digits go to position 8, and zeros in front of them up to eight digits. */
  method PrintPadded(v: uint32) returns (out: seq<byte>)
    ensures out == Conversion(CH_X, true, Word(v))
  {
    ghost var n := Numeral(v, 16);
    HexLength(v);
    var convBuf := new byte[64](_ => 0);
    PatchedString(convBuf[..], 8, n);
    Itoa(v, convBuf, 8, 16);
    var start := Strlen(convBuf, 8);
    PadZeros(convBuf, start, convBuf[..], n);
    out := Puts(convBuf, start);
  }

  /** Zeros from `start` up to position 8, in front of the string that is there. */
  method PadZeros(convBuf: array<byte>, start: nat, ghost mid: seq<byte>, ghost n: seq<byte>)
    requires convBuf.Length == 64 && convBuf[..] == mid && start == |n| <= 8
    requires Terminated(mid, 8) && CStr(mid, 8) == n
    modifies convBuf
    ensures Terminated(convBuf[..], start) && CStr(convBuf[..], start) == seq(8 - |n|, _ => ZERO) + n
  {
    var i := start;
    while i < 8
      invariant start <= i <= 8
      invariant forall k :: 0 <= k < 64 ==> convBuf[k] == if start <= k < i then ZERO else mid[k]
    {
      convBuf[i] := ZERO;
      i := i + 1;
    }
    PaddedString(mid, n, convBuf[..]);
  }

  lemma PaddedString(mid: seq<byte>, n: seq<byte>, p: seq<byte>)
    requires |mid| == |p| == 64 && |n| <= 8 && Terminated(mid, 8) && CStr(mid, 8) == n
    requires forall k :: 0 <= k < 64 ==> p[k] == if |n| <= k < 8 then ZERO else mid[k]
    ensures Terminated(p, |n|) && CStr(p, |n|) == seq(8 - |n|, _ => ZERO) + n
  {
    hide CStr, Terminated;
    var end := 8 + |n|;
    TextAt(mid, 8, n);
    assert p[8..end] == mid[8..end];
    assert p[|n|..8] == seq(8 - |n|, _ => ZERO);
    Joined(p, |n|, 8, end);
    CStrIs(p, |n|, end);
  }

  lemma TextAt(m: seq<byte>, at: nat, w: seq<byte>)
    requires Terminated(m, at) && CStr(m, at) == w
    ensures at + |w| < |m| && m[at..at + |w|] == w && m[at + |w|] == NUL && NulFree(w)
  {
  }

  lemma Joined(p: seq<byte>, a: nat, b: nat, c: nat)
    requires a <= b <= c <= |p|
    ensures p[a..c] == p[a..b] + p[b..c]
  {
  }

  lemma HexLength(v: uint32)
    ensures |Numeral(v, 16)| <= 8
  {
    assert Pow(16, 4) == 0x1_0000;
    assert Pow(16, 8) == 0x1_0000_0000;
    NumeralLength(v, 16, 8);
  }

  method PrintConversion(c: byte, alternate: bool, a: Arg) returns (out: seq<byte>)
    requires Takes(c) && Suits(c, a)
    ensures out == Conversion(c, alternate, a)
  {
    if c == CH_X {
      if !alternate {
        out := PrintNumber(a.v, 16);
      } else {
        out := PrintPadded(a.v);
      }
    } else if c == CH_U {
      out := PrintNumber(a.v, 10);
    } else if c == CH_D {
      out := PrintSigned(a.v);
    } else if c == CH_C {
      out := [a.v % 0x100];
    } else {
      out := a.s;
    }
  }

  /** One pass of the outer switch: a character, or a conversion with its # flags. */
  method PrintItem(f: seq<byte>, at: nat, args: seq<Arg>, esp: nat) returns (buf: nat, esp': nat, text: seq<byte>)
    requires at < |f| && esp <= |args| && ItemOk(f, at, args[esp..])
    ensures buf == After(f, at) && esp' == esp + Uses(f, at) <= |args| && text == Piece(f, at, args[esp..])
  {
    buf, esp', text := at, esp, [];
    if f[buf] == PERCENT {
      var alternate := false;
      buf := buf + 1;
      while f[buf] == HASH
        invariant at < buf < |f| && buf + Hashes(f, buf) == Spec(f, at)
        invariant alternate == (buf > at + 1)
        decreases |f| - buf
      {
        alternate := true;
        buf := buf + 1;
      }
      if Takes(f[buf]) {
        text := PrintConversion(f[buf], alternate, args[esp]);
        esp' := esp + 1;
      } else if f[buf] == PERCENT {
        text := [PERCENT];
      }
    } else {
      text := [f[buf]];
    }
    buf := buf + 1;
  }

  /** printf. `esp` counts the stack words that were used, and the result is the distance
      that the format pointer moved. */
  method Printf(f: seq<byte>, args: seq<Arg>) returns (r: nat, esp: nat, out: seq<byte>)
    requires Typed(f, 0, args)
    ensures out == Rendered(f, 0, args) && r == |f| && esp == Used(f, 0) <= |args|
  {
    hide ItemOk, Piece, After, Uses;
    var buf := 0;
    esp, out := 0, [];
    while buf < |f|
      invariant buf <= |f| && esp <= |args| && Typed(f, buf, args[esp..])
      invariant out + Rendered(f, buf, args[esp..]) == Rendered(f, 0, args)
      invariant esp + Used(f, buf) == Used(f, 0)
      decreases |f| - buf
    {
      ghost var at, left := buf, args[esp..];
      var text;
      buf, esp, text := PrintItem(f, buf, args, esp);
      assert args[esp..] == left[Uses(f, at)..];
      assert out + (text + Rendered(f, buf, args[esp..])) == (out + text) + Rendered(f, buf, args[esp..]);
      out := out + text;
    }
    return buf, esp, out;
  }

  // ----- what the output means

  /** One conversion, with any number of # flags in front of its character. */
  function Format(n: nat, c: byte): (f: seq<byte>)
    ensures |f| == n + 2
  {
    [37] + seq(n, _ => 35) + [c]
  }

  lemma {:induction false} HashesBefore(n: nat, c: byte, at: nat)
    requires c != 35 && 1 <= at <= n + 1
    ensures Hashes(Format(n, c), at) == n + 1 - at
    decreases n + 1 - at
  {
    if at <= n {
      assert Format(n, c)[at] == 35;
      HashesBefore(n, c, at + 1);
    } else {
      assert Format(n, c)[at] == c;
    }
  }

  /** A format of one conversion: an argument is used and printed exactly for x, u, d, c
      and s, a percent sign prints itself, and any other character prints nothing. */
  lemma OneConversion(n: nat, c: byte, a: Arg)
    requires c != 35
    ensures var f := Format(n, c);
      if c in {120, 117, 100, 99, 115}
      then Used(f, 0) == 1 && (Suits(c, a) ==> Typed(f, 0, [a]) && Rendered(f, 0, [a]) == Conversion(c, n > 0, a))
      else Used(f, 0) == 0 && Typed(f, 0, []) && Rendered(f, 0, []) == if c == 37 then [37] else []
  {
    var f := Format(n, c);
    HashesBefore(n, c, 1);
    assert f[0] == 37 && f[n + 1] == c;
    hide Format, Hashes, Conversion;
    OneItem(f, c, a);
  }

  lemma OneItem(f: seq<byte>, c: byte, a: Arg)
    requires |f| >= 2 && f[0] == 37 && f[|f| - 1] == c && Hashes(f, 1) == |f| - 2
    ensures if c in {120, 117, 100, 99, 115}
      then Used(f, 0) == 1 && (Suits(c, a) ==> Typed(f, 0, [a]) && Rendered(f, 0, [a]) == Conversion(c, |f| > 2, a))
      else Used(f, 0) == 0 && Typed(f, 0, []) && Rendered(f, 0, []) == if c == 37 then [37] else []
  {
    hide Conversion, Hashes;
    assert After(f, 0) == |f| && Used(f, |f|) == 0;
    assert [a][1..] == [] && [a][0..] == [a];
  }

  ghost predicate DecimalDigits(s: seq<byte>) { forall i :: 0 <= i < |s| ==> 48 <= s[i] <= 57 }

  ghost predicate HexDigits(s: seq<byte>) { forall i :: 0 <= i < |s| ==> 48 <= s[i] <= 57 || 65 <= s[i] <= 70 }

  /** %u: decimal digits that read back as the word, with no leading zero but for 0. */
  lemma UnsignedPrints(n: nat, v: uint32)
    ensures Typed(Format(n, 117), 0, [Word(v)])
    ensures var s := Rendered(Format(n, 117), 0, [Word(v)]);
      && DecimalDigits(s) && |s| > 0 && (v == 0 ==> s == [48]) && (v > 0 ==> s[0] != 48) && Value(s, 10) == v
  {
    hide Format, Typed, Rendered;
    OneConversion(n, 117, Word(v));
    DecimalNumeral(v);
  }

  /** %x: the same in radix 16, with capital letters and without padding. */
  lemma HexPrints(v: uint32)
    ensures Typed(Format(0, 120), 0, [Word(v)])
    ensures var s := Rendered(Format(0, 120), 0, [Word(v)]);
      && HexDigits(s) && |s| > 0 && (v == 0 ==> s == [48]) && (v > 0 ==> s[0] != 48) && Value(s, 16) == v
  {
    hide Format, Typed, Rendered;
    OneConversion(0, 120, Word(v));
    NumeralIsCanonical(v, 16);
    ReadBack(v, 16);
  }

  /** %#x: eight digits that read back as the word. */
  lemma PaddedPrints(n: nat, v: uint32)
    requires n > 0
    ensures Typed(Format(n, 120), 0, [Word(v)])
    ensures var s := Rendered(Format(n, 120), 0, [Word(v)]); |s| == 8 && HexDigits(s) && Value(s, 16) == v
  {
    hide Format, Typed, Rendered;
    OneConversion(n, 120, Word(v));
    PaddedHexReadsBack(v);
    NumeralIsCanonical(v, 16);
  }

  /** %d: a minus sign exactly for negative words, then decimal digits without a leading
      zero, that read back as the signed value. */
  lemma SignedPrints(n: nat, v: uint32)
    ensures Typed(Format(n, 100), 0, [Word(v)])
    ensures var s := Rendered(Format(n, 100), 0, [Word(v)]);
      && |s| > 0 && (s[0] == 45 <==> v >= 0x8000_0000)
      && var digits := if s[0] == 45 then s[1..] else s;
      && DecimalDigits(digits) && |digits| > 0 && (v > 0 ==> digits[0] != 48)
      && Value(digits, 10) == if s[0] == 45 then 0x1_0000_0000 - v else v
  {
    hide Format, Typed, Rendered, Numeral, Conversion, DecimalDigits, Value;
    OneConversion(n, 100, Word(v));
    var magnitude := if v >= 0x8000_0000 then 0x1_0000_0000 - v else v;
    SignedConversion(v);
    DecimalNumeral(magnitude);
    assert v >= 0x8000_0000 ==> ([MINUS] + Numeral(magnitude, 10))[1..] == Numeral(magnitude, 10);
  }

  lemma SignedConversion(v: uint32)
    ensures Conversion(100, false, Word(v)) == Conversion(100, true, Word(v))
    ensures Conversion(100, true, Word(v)) ==
      if v >= 0x8000_0000 then [45] + Numeral(0x1_0000_0000 - v, 10) else Numeral(v, 10)
  {
    hide Numeral;
  }

  lemma DecimalNumeral(v: nat)
    ensures var s := Numeral(v, 10);
      && DecimalDigits(s) && |s| > 0 && s[0] != 45 && (v == 0 ==> s == [48]) && (v > 0 ==> s[0] != 48)
      && Value(s, 10) == v
  {
    NumeralIsCanonical(v, 10);
    ReadBack(v, 10);
  }

  /** %c: the low byte of the word. %s: the string. %%: one percent sign and no argument. */
  lemma OthersPrint(n: nat, v: uint32, s: seq<byte>)
    requires NulFree(s)
    ensures Typed(Format(n, 99), 0, [Word(v)]) && Rendered(Format(n, 99), 0, [Word(v)]) == [v % 256]
    ensures Typed(Format(n, 115), 0, [Text(s)]) && Rendered(Format(n, 115), 0, [Text(s)]) == s
    ensures Typed(Format(n, 37), 0, []) && Rendered(Format(n, 37), 0, []) == [37] && Used(Format(n, 37), 0) == 0
  {
    OneConversion(n, 99, Word(v));
    OneConversion(n, 115, Text(s));
    OneConversion(n, 37, Word(v));
  }

  /** %#x always gives eight digits, which read back as the word. */
  lemma PaddedHexReadsBack(v: uint32)
    ensures var s := Conversion(CH_X, true, Word(v)); |s| == 8 && Value(s, 16) == v
  {
    HexLength(v);
    ReadBack(v, 16);
    LeadingZeros(8 - |Numeral(v, 16)|, Numeral(v, 16), 16);
  }

  lemma {:induction false} LeadingZeros(k: nat, s: seq<byte>, radix: nat)
    ensures Value(seq(k, _ => ZERO) + s, radix) == Value(s, radix)
    decreases k + |s|
  {
    var z := seq(k, _ => ZERO);
    if s != [] {
      LeadingZeros(k, s[..|s| - 1], radix);
      assert (z + s)[..k + |s| - 1] == z + s[..|s| - 1];
    } else if k > 0 {
      LeadingZeros(k - 1, [], radix);
      assert (z + s)[..k - 1] == seq(k - 1, _ => ZERO) + [];
      assert 0 * radix == 0;
    }
  }

  function ReadSigned(s: seq<byte>): int {
    if s != [] && s[0] == MINUS then 0 - Value(s[1..], 10) as int else Value(s, 10)
  }

  /** %d reads back as the signed value of every word, the least one included. */
  lemma SignedReadsBack(v: uint32)
    ensures ReadSigned(Conversion(CH_D, false, Word(v))) == Signed(v)
  {
    if Signed(v) < 0 {
      ReadBack(-Signed(v), 10);
    } else {
      ReadBack(v, 10);
      NumeralIsCanonical(v, 10);
    }
  }

  /** An item stays what it is when text is put behind its format, or in front of it. */
  lemma ItemWithSuffix(f: seq<byte>, g: seq<byte>, at: nat, a: seq<Arg>, b: seq<Arg>)
    requires at < |f| && ItemOk(f, at, a)
    ensures After(f + g, at) == After(f, at) && Uses(f + g, at) == Uses(f, at)
    ensures ItemOk(f + g, at, a + b) && Piece(f + g, at, a + b) == Piece(f, at, a)
  {
    if f[at] == PERCENT {
      HashesPrefix(f, g, at + 1);
    }
  }

  lemma ItemWithPrefix(f: seq<byte>, g: seq<byte>, at: nat, b: seq<Arg>)
    requires at < |g| && ItemOk(g, at, b)
    ensures After(f + g, |f| + at) == |f| + After(g, at) && Uses(f + g, |f| + at) == Uses(g, at)
    ensures ItemOk(f + g, |f| + at, b) && Piece(f + g, |f| + at, b) == Piece(g, at, b)
  {
    HashesShifted(f, g, at + 1);
  }

  lemma {:induction false} HashesPrefix(f: seq<byte>, g: seq<byte>, at: nat)
    requires at <= |f| && at + Hashes(f, at) < |f|
    ensures Hashes(f + g, at) == Hashes(f, at)
    decreases |f| - at
  {
    if f[at] == HASH {
      HashesPrefix(f, g, at + 1);
    }
  }

  lemma {:induction false} HashesShifted(f: seq<byte>, g: seq<byte>, at: nat)
    requires at <= |g|
    ensures Hashes(f + g, |f| + at) == Hashes(g, at)
    decreases |g| - at
  {
    if at < |g| && g[at] == HASH {
      HashesShifted(f, g, at + 1);
    }
  }

  lemma {:induction false} Shifted(f: seq<byte>, g: seq<byte>, at: nat, b: seq<Arg>)
    requires at <= |g| && Typed(g, at, b)
    ensures Typed(f + g, |f| + at, b) && Rendered(f + g, |f| + at, b) == Rendered(g, at, b)
    decreases |g| - at
  {
    if at < |g| {
      ItemWithPrefix(f, g, at, b);
      hide ItemOk, Piece, After, Uses;
      Shifted(f, g, After(g, at), b[Uses(g, at)..]);
    }
  }

  /** A format is printed piece by piece, each with its own arguments. */
  lemma {:induction false} RenderedConcat(f: seq<byte>, g: seq<byte>, at: nat, a: seq<Arg>, b: seq<Arg>)
    requires at <= |f| && Typed(f, at, a) && |a| == Used(f, at) && Typed(g, 0, b)
    ensures Typed(f + g, at, a + b)
    ensures Rendered(f + g, at, a + b) == Rendered(f, at, a) + Rendered(g, 0, b)
    decreases |f| - at
  {
    hide ItemOk, Piece, After, Uses;
    if at == |f| {
      assert a == [] && a + b == b;
      Shifted(f, g, 0, b);
    } else {
      ItemWithSuffix(f, g, at, a, b);
      var n, u := After(f, at), Uses(f, at);
      assert (a + b)[u..] == a[u..] + b;
      RenderedConcat(f, g, n, a[u..], b);
      Regroup(Piece(f, at, a), Rendered(f, n, a[u..]), Rendered(g, 0, b));
    }
  }

  lemma Regroup(x: seq<byte>, y: seq<byte>, z: seq<byte>)
    ensures x + (y + z) == (x + y) + z
  {
  }

  /** Text without percent signs prints as it is. */
  lemma {:induction false} PlainText(f: seq<byte>, at: nat)
    requires at <= |f| && PERCENT !in f[at..]
    ensures Typed(f, at, []) && Rendered(f, at, []) == f[at..]
    decreases |f| - at
  {
    if at < |f| {
      assert f[at..][0] == f[at] && f[at..][1..] == f[at + 1..];
      PlainText(f, at + 1);
    }
  }
}
