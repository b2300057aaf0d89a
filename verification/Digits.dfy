/** itoa and strrev of lib.c and ece391support.c, against positional notation. */
module Digits {
  import opened Bytes
  import opened CString

  /** The d-th character of the lookup table: 0 to 9, then A to Z. */
  function Glyph(d: nat): (c: byte)
    requires d < 36
    ensures c != NUL
  {
    if d < 10 then 48 + d else 55 + d
  }

  lemma GlyphTable(d: nat)
    requires d < 36
    ensures Glyph(d) == "0123456789ABCDEFGHIJKLMNOPQRSTUVWXYZ"[d] as int && DigitOf(Glyph(d)) == d
  {
  }

  predicate IsGlyph(c: byte, radix: nat) { (48 <= c < 58 || 65 <= c < 91) && DigitOf(c) < radix }

  function DigitOf(c: byte): nat { if 48 <= c < 58 then c - 48 else if 65 <= c < 91 then c - 55 else 36 }

  function Quot(v: nat, d: nat): (q: nat)
    requires d >= 2
    ensures if v < d then q == 0 else 0 < q < v
  {
    DivMod(v, d);
    v / d
  }

  function Rem(v: nat, d: nat): (r: nat)
    requires d >= 2
    ensures r < d && (v < d ==> r == v) && v == Quot(v, d) * d + r
  {
    DivMod(v, d);
    v % d
  }

  lemma DivMod(v: nat, d: nat)
    requires d >= 2
    ensures v == v / d * d + v % d && 0 <= v / d && 0 <= v % d < d
    ensures if v < d then v / d == 0 && v % d == v else 0 < v / d < v
  {
    var q := v / d;
    assert v == q * d + v % d;
    Factor(q, d);
    if v >= d {
      assert q > 0;
      Times(d - 1, q);
      assert q * d == q + (d - 1) * q;
    }
  }

  /** A number in a radix, most significant digit first. */
  function Numeral(v: nat, radix: nat): (s: seq<byte>)
    requires 2 <= radix <= 36
    ensures |s| > 0 && NulFree(s)
  {
    if v < radix then [Glyph(v)] else Numeral(Quot(v, radix), radix) + [Glyph(Rem(v, radix))]
  }

  /** What a numeral stands for. */
  function Value(s: seq<byte>, radix: nat): nat {
    if s == [] then 0 else Value(s[..|s| - 1], radix) * radix + DigitOf(s[|s| - 1])
  }

  predicate Canonical(s: seq<byte>, radix: nat) {
    |s| > 0 && (forall i :: 0 <= i < |s| ==> IsGlyph(s[i], radix)) && (|s| > 1 ==> s[0] != 48)
  }

  /** Appending a digit. */
  lemma ValueStep(s: seq<byte>, r: nat, radix: nat)
    requires r < 36
    ensures Value(s + [Glyph(r)], radix) == Value(s, radix) * radix + r
  {
    assert (s + [Glyph(r)])[..|s|] == s;
  }

  /** Reading a numeral back gives the number. */
  lemma {:induction false} ReadBack(v: nat, radix: nat)
    requires 2 <= radix <= 36
    ensures Value(Numeral(v, radix), radix) == v
  {
    var q, r := Quot(v, radix), Rem(v, radix);
    hide Quot, Rem;
    if v < radix {
      assert [] + [Glyph(v)] == [Glyph(v)];
      ValueStep([], v, radix);
      assert 0 * radix == 0;
    } else {
      ReadBack(q, radix);
      ValueStep(Numeral(q, radix), r, radix);
      hide Value;
      assert Numeral(v, radix) == Numeral(q, radix) + [Glyph(r)];
    }
  }

  lemma {:induction false} NumeralIsCanonical(v: nat, radix: nat)
    requires 2 <= radix <= 36
    ensures Canonical(Numeral(v, radix), radix) && (v > 0 ==> Numeral(v, radix)[0] != 48)
  {
    if v >= radix {
      NumeralIsCanonical(Quot(v, radix), radix);
    }
  }

  lemma {:induction false} CanonicalIsPositive(s: seq<byte>, radix: nat)
    requires 2 <= radix <= 36 && Canonical(s, radix) && s[0] != 48
    ensures Value(s, radix) > 0
  {
    if |s| == 1 {
      assert s[..0] == [] && Value(s[..0], radix) * radix == 0;
    } else {
      CanonicalIsPositive(s[..|s| - 1], radix);
      Times(Value(s[..|s| - 1], radix), radix);
    }
  }

  lemma Times(a: nat, b: nat)
    requires a > 0 && b > 0
    ensures a * b >= b
  {
    assert a * b == b + (a - 1) * b;
  }

  lemma QuotRem(q: nat, r: nat, d: nat)
    requires r < d && d > 0
    ensures (q * d + r) / d == q && (q * d + r) % d == r
  {
    var n := q * d + r;
    var k := n / d - q;
    assert n == n / d * d + n % d;
    assert k * d == r - n % d;
    Factor(k, d);
  }

  lemma Factor(k: int, d: int)
    requires d > 0
    ensures k >= 1 ==> k * d >= d
    ensures k <= -1 ==> k * d <= -d
  {
    if k >= 1 {
      assert k * d == d + (k - 1) * d;
    } else if k <= -1 {
      assert k * d == -d + (k + 1) * d;
    }
  }

  /** A canonical digit string is the numeral of what it stands for, so no two numbers
      print alike and no number prints in two ways. */
  lemma {:induction false} CanonicalIsNumeral(s: seq<byte>, radix: nat)
    requires 2 <= radix <= 36 && Canonical(s, radix)
    ensures Numeral(Value(s, radix), radix) == s
  {
    var d := DigitOf(s[|s| - 1]);
    var front := s[..|s| - 1];
    var v := Value(front, radix);
    assert Glyph(d) == s[|s| - 1];
    if front == [] {
      assert v * radix == 0;
    } else {
      CanonicalIsNumeral(front, radix);
      CanonicalIsPositive(front, radix);
      Times(v, radix);
      QuotRem(v, d, radix);
      assert Quot(v * radix + d, radix) == v && Rem(v * radix + d, radix) == d;
      assert s == front + [s[|s| - 1]];
    }
  }

  function Pow(b: nat, n: nat): nat { if n == 0 then 1 else b * Pow(b, n - 1) }

  lemma Below(q: nat, d: nat, v: nat, p: nat)
    requires q * d <= v < d * p
    ensures q < p
  {
    Scaled(p, q, d);
  }

  lemma Scaled(p: nat, q: nat, d: nat)
    ensures p <= q ==> p * d <= q * d
  {
    if p <= q {
      Products(p, q, d, d);
    }
  }

  /** A number below radix to the n has at most n digits. */
  lemma {:induction false} NumeralLength(v: nat, radix: nat, n: nat)
    requires 2 <= radix <= 36 && n > 0 && v < Pow(radix, n)
    ensures |Numeral(v, radix)| <= n
  {
    if v >= radix {
      assert Pow(radix, 1) == radix * Pow(radix, 0) == radix;
      Below(Quot(v, radix), radix, v, Pow(radix, n - 1));
      NumeralLength(Quot(v, radix), radix, n - 1);
    }
  }

  lemma {:induction false} PowGrows(a: nat, b: nat, n: nat)
    requires a <= b
    ensures Pow(a, n) <= Pow(b, n)
  {
    if n > 0 {
      PowGrows(a, b, n - 1);
      Products(a, b, Pow(a, n - 1), Pow(b, n - 1));
    }
  }

  lemma Products(a: nat, b: nat, x: nat, y: nat)
    requires a <= b && x <= y
    ensures a * x <= b * y
  {
    assert b * y == a * x + a * (y - x) + (b - a) * y;
  }

  lemma Pow2Of32()
    ensures Pow(2, 32) == 0x1_0000_0000
  {
    assert Pow(2, 8) == 0x100;
    assert Pow(2, 16) == 0x1_0000 by { assert Pow(2, 12) == 0x1000; }
    assert Pow(2, 20) == 0x10_0000;
    assert Pow(2, 24) == 0x100_0000;
    assert Pow(2, 28) == 0x1000_0000;
  }

  /** Every 32-bit number fits 32 digits in any radix. */
  lemma WordLength(v: uint32, radix: nat)
    requires 2 <= radix <= 36
    ensures |Numeral(v, radix)| <= 32
  {
    Pow2Of32();
    PowGrows(2, radix, 32);
    NumeralLength(v, radix, 32);
  }

  // ----- reversal

  function Reversed(s: seq<byte>): (r: seq<byte>)
    ensures |r| == |s| && forall i :: 0 <= i < |s| ==> r[i] == s[|s| - 1 - i]
  {
    seq(|s|, i requires 0 <= i < |s| => s[|s| - 1 - i])
  }

  /** A string with its first and last `done` characters exchanged. */
  ghost function Flipped(s: seq<byte>, done: nat): (r: seq<byte>)
    ensures |r| == |s|
    ensures forall i :: 0 <= i < |s| ==> r[i] == if i < done || |s| - 1 - i < done then s[|s| - 1 - i] else s[i]
  {
    seq(|s|, i requires 0 <= i < |s| => if i < done || |s| - 1 - i < done then s[|s| - 1 - i] else s[i])
  }

  function Exchanged(m: seq<byte>, i: nat, j: nat): seq<byte>
    requires i < j < |m|
  {
    m[j := m[i]][i := m[j]]
  }

  lemma FlipInMemory(m: seq<byte>, at: nat, s: seq<byte>, done: nat)
    requires 2 * done + 1 < |s| && at + |s| <= |m|
    ensures var p, beg, end := Patch(m, at, Flipped(s, done)), at + done, at + |s| - 1 - done;
      Exchanged(p, beg, end) == Patch(m, at, Flipped(s, done + 1))
  {
    var p, beg, end := Patch(m, at, Flipped(s, done)), at + done, at + |s| - 1 - done;
    var x, y := Exchanged(p, beg, end), Patch(m, at, Flipped(s, done + 1));
    forall k | 0 <= k < |m|
      ensures x[k] == y[k]
    {
    }
  }

  method Swap(buf: array<byte>, i: nat, j: nat)
    requires i < j < buf.Length
    modifies buf
    ensures buf[..] == Exchanged(old(buf[..]), i, j)
  {
    var tmp := buf[j];
    buf[j] := buf[i];
    buf[i] := tmp;
  }

  /** The exchange loop of strrev, from both ends of the string to its middle. */
  method ExchangeEnds(buf: array<byte>, at: nat, len: nat, ghost was: seq<byte>, ghost s: seq<byte>)
    returns (ghost done: nat)
    requires len == |s| && at + len <= |was| == buf.Length && buf[..] == Patch(was, at, Flipped(s, 0))
    modifies buf
    ensures |s| - 1 <= 2 * done && buf[..] == Patch(was, at, Flipped(s, done))
  {
    hide Patch, Flipped, Exchanged;
    var beg: int, end: int := 0, len - 1;
    while beg < end
      invariant 0 <= beg && beg + end == len - 1
      invariant buf[..] == Patch(was, at, Flipped(s, beg))
    {
      FlipInMemory(was, at, s, beg);
      Swap(buf, at + beg, at + end);
      beg, end := beg + 1, end - 1;
    }
    done := beg;
  }

  /** strrev */
  method Strrev(buf: array<byte>, at: nat)
    requires Terminated(buf[..], at)
    modifies buf
    ensures buf[..] == Patch(old(buf[..]), at, Reversed(old(CStr(buf[..], at))))
  {
    ghost var was, w := buf[..], CStr(buf[..], at);
    var len := Strlen(buf, at);
    FlipEnds(was, at, w);
    ghost var done := ExchangeEnds(buf, at, len, was, w);
    FlipDone(w, done);
  }

  lemma FlipEnds(m: seq<byte>, at: nat, s: seq<byte>)
    requires at + |s| <= |m| && s == m[at..at + |s|]
    ensures Patch(m, at, Flipped(s, 0)) == m
  {
    assert Flipped(s, 0) == s;
  }

  lemma FlipDone(s: seq<byte>, done: nat)
    requires |s| - 1 <= 2 * done
    ensures Flipped(s, done) == Reversed(s)
  {
  }

  /** The digits in the order they are produced. */
  function LowFirst(v: nat, radix: nat): (s: seq<byte>)
    requires 2 <= radix <= 36
    ensures NulFree(s)
  {
    if v == 0 then [] else [Glyph(Rem(v, radix))] + LowFirst(Quot(v, radix), radix)
  }

  lemma {:induction false} LowFirstReversed(v: nat, radix: nat)
    requires 2 <= radix <= 36 && v > 0
    ensures Reversed(LowFirst(v, radix)) == Numeral(v, radix)
  {
    var q, r := Quot(v, radix), Rem(v, radix);
    if v >= radix {
      LowFirstReversed(q, radix);
      var low := LowFirst(q, radix);
      assert LowFirst(v, radix) == [Glyph(r)] + low;
      assert Reversed([Glyph(r)] + low) == Reversed(low) + [Glyph(r)];
    } else {
      assert q == 0 && LowFirst(v, radix) == [Glyph(v)];
    }
  }

  /** The digit loop: lowest digit first, then the terminator. */
  method PutDigits(value: uint32, buf: array<byte>, at: nat, radix: nat)
    requires 2 <= radix <= 36 && at + |LowFirst(value, radix)| < buf.Length
    modifies buf
    ensures buf[..] == Patch(old(buf[..]), at, LowFirst(value, radix) + [NUL])
  {
    ghost var was, low := buf[..], LowFirst(value, radix);
    ghost var put: seq<byte> := [];
    var newval: nat, i: nat := value, 0;
    while newval > 0
      invariant i == |put| <= |low| && put + LowFirst(newval, radix) == low
      invariant buf[..] == Patch(was, at, put)
      decreases newval
    {
      hide Quot, Rem;
      var c, q := Glyph(Rem(newval, radix)), Quot(newval, radix);
      PatchAppend(was, at, put, c);
      assert LowFirst(newval, radix) == [c] + LowFirst(q, radix);
      assert put + ([c] + LowFirst(q, radix)) == put + [c] + LowFirst(q, radix);
      Store(buf, at + i, c);
      put := put + [c];
      newval, i := q, i + 1;
    }
    assert put == low;
    PatchAppend(was, at, low, NUL);
    Store(buf, at + i, NUL);
  }

  lemma PatchTwice(m: seq<byte>, at: nat, x: seq<byte>, y: seq<byte>)
    requires |x| == |y| && at + |x| < |m| && NulFree(x)
    ensures var p := Patch(m, at, x + [NUL]);
      Terminated(p, at) && CStr(p, at) == x && Patch(p, at, y) == Patch(m, at, y + [NUL])
  {
    var p := Patch(m, at, x + [NUL]);
    assert p[at..at + |x|] == x;
    CStrIs(p, at, at + |x|);
  }

  /** itoa */
  method Itoa(value: uint32, buf: array<byte>, at: nat, radix: nat)
    requires 2 <= radix <= 36 && at + |Numeral(value, radix)| < buf.Length
    modifies buf
    ensures buf[..] == Patch(old(buf[..]), at, Numeral(value, radix) + [NUL])
  {
    ghost var was := buf[..];
    if value == 0 {
      PatchAppend(was, at, [], 48);
      PatchAppend(was, at, [48], NUL);
      buf[at] := 48;
      buf[at + 1] := NUL;
      return;
    }
    ghost var low := LowFirst(value, radix);
    LowFirstReversed(value, radix);
    PatchTwice(was, at, low, Numeral(value, radix));
    PutDigits(value, buf, at, radix);
    Strrev(buf, at);
  }
}
