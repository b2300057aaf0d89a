/** lib.c: memset, memcpy and memmove on byte-addressed memory. */
module Memory {
  import opened Bytes
  import opened CString

  // ----- 32-bit words, little end first

  function Dword(b0: byte, b1: byte, b2: byte, b3: byte): uint32 {
    b0 + 0x100 * b1 + 0x1_0000 * b2 + 0x100_0000 * b3
  }

  function ByteOf(v: uint32, k: nat): byte {
    if k == 0 then v % 0x100 else if k == 1 then v / 0x100 % 0x100
    else if k == 2 then v / 0x1_0000 % 0x100 else v / 0x100_0000
  }

  /** Dividing a low byte off. */
  lemma LowByte(b: byte, rest: nat)
    ensures (b + 0x100 * rest) % 0x100 == b && (b + 0x100 * rest) / 0x100 == rest
  {
  }

  lemma BytesOfDword(b0: byte, b1: byte, b2: byte, b3: byte)
    ensures var v := Dword(b0, b1, b2, b3);
      ByteOf(v, 0) == b0 && ByteOf(v, 1) == b1 && ByteOf(v, 2) == b2 && ByteOf(v, 3) == b3
  {
    var v := Dword(b0, b1, b2, b3);
    LowByte(b0, b1 + 0x100 * b2 + 0x1_0000 * b3);
    LowByte(b1, b2 + 0x100 * b3);
    LowByte(b2, b3);
    assert v / 0x1_0000 == v / 0x100 / 0x100;
    assert v / 0x100_0000 == v / 0x100 / 0x100 / 0x100;
  }

  method LoadDword(m: array<byte>, at: nat) returns (v: uint32)
    requires at + 4 <= m.Length
    ensures v == Dword(m[at], m[at + 1], m[at + 2], m[at + 3])
  {
    v := Dword(m[at], m[at + 1], m[at + 2], m[at + 3]);
  }

  method StoreDword(m: array<byte>, at: nat, v: uint32, ghost x: seq<byte>)
    requires at + 4 <= m.Length && |x| == 4 && v == Dword(x[0], x[1], x[2], x[3])
    modifies m
    ensures m[..] == Patch(old(m[..]), at, x)
  {
    BytesOfDword(x[0], x[1], x[2], x[3]);
    hide Dword, ByteOf;
    m[at] := ByteOf(v, 0);
    m[at + 1] := ByteOf(v, 1);
    m[at + 2] := ByteOf(v, 2);
    m[at + 3] := ByteOf(v, 3);
  }

  // ----- memset

  function Repeated(c: byte, n: nat): (s: seq<byte>)
    ensures |s| == n && forall i :: 0 <= i < n ==> s[i] == c
  {
    seq(n, _ => c)
  }

  /** The k bytes from `at` on are c, the others as they were. */
  ghost predicate Filled(now: seq<byte>, was: seq<byte>, at: nat, c: byte, k: nat) {
    at + k <= |was| && now == Patch(was, at, Repeated(c, k))
  }

  lemma FillMore(now: seq<byte>, was: seq<byte>, at: nat, c: byte, k: nat, j: nat)
    requires Filled(now, was, at, c, k) && at + k + j <= |now|
    ensures Filled(Patch(now, at + k, Repeated(c, j)), was, at, c, k + j)
  {
  }

  /** movb */
  method StoreByte(m: array<byte>, at: nat, c: byte)
    requires at < m.Length
    modifies m
    ensures m[..] == Patch(old(m[..]), at, Repeated(c, 1))
  {
    m[at] := c;
  }

  /** The bytes up to a four-byte boundary. */
  method FillToBoundary(m: array<byte>, s: nat, c: byte, n: nat, ghost was: seq<byte>) returns (edi: nat, ecx: nat)
    requires s + n <= m.Length && Filled(m[..], was, s, c, 0)
    modifies m
    ensures s <= edi && edi + ecx == s + n && Filled(m[..], was, s, c, edi - s)
    ensures ecx == 0 || edi % 4 == 0
  {
    hide Filled, Repeated, Patch;
    edi, ecx := s, n;
    while ecx != 0 && edi % 4 != 0
      invariant s <= edi && edi + ecx == s + n && Filled(m[..], was, s, c, edi - s)
    {
      FillMore(m[..], was, s, c, edi - s, 1);
      StoreByte(m, edi, c);
      edi, ecx := edi + 1, ecx - 1;
    }
  }

  /** rep stosl */
  method FillDwords(m: array<byte>, s: nat, c: byte, from: nat, count: nat, ghost was: seq<byte>) returns (edi: nat)
    requires s <= from && from + 4 * count <= m.Length && Filled(m[..], was, s, c, from - s)
    modifies m
    ensures edi == from + 4 * count && Filled(m[..], was, s, c, edi - s)
  {
    hide Filled, Repeated, Patch, Dword;
    var eax: uint32 := Dword(c, c, c, c);
    var ecx: nat := count;
    edi := from;
    while ecx != 0
      invariant ecx <= count && edi == from + 4 * (count - ecx) && Filled(m[..], was, s, c, edi - s)
    {
      FillMore(m[..], was, s, c, edi - s, 4);
      StoreDword(m, edi, eax, Repeated(c, 4));
      edi, ecx := edi + 4, ecx - 1;
    }
  }

  /** The bytes behind the last word. */
  method FillRest(m: array<byte>, s: nat, c: byte, from: nat, count: nat, ghost was: seq<byte>)
    requires s <= from && from + count <= m.Length && Filled(m[..], was, s, c, from - s)
    modifies m
    ensures Filled(m[..], was, s, c, from + count - s)
  {
    hide Filled, Repeated, Patch;
    var edi: nat, edx: nat := from, count;
    while edx != 0
      invariant from <= edi && edi + edx == from + count && Filled(m[..], was, s, c, edi - s)
    {
      FillMore(m[..], was, s, c, edi - s, 1);
      StoreByte(m, edi, c);
      edi, edx := edi + 1, edx - 1;
    }
  }

  /** n bytes from s on become the value's low byte, whatever the alignment of s. */
  method Memset(m: array<byte>, s: nat, value: int, n: nat)
    requires s + n <= m.Length
    modifies m
    ensures m[..] == Patch(old(m[..]), s, Repeated(value % 0x100, n))
  {
    var c: byte := value % 0x100;
    ghost var was := m[..];
    var edi, ecx := FillToBoundary(m, s, c, n, was);
    edi := FillDwords(m, s, c, edi, ecx / 4, was);
    FillRest(m, s, c, edi, ecx % 4, was);
  }

  // ----- memcpy

  /** Copying upwards is safe when the target is below the source or clear of it. */
  predicate Upwards(dest: nat, src: nat, n: nat) { dest <= src || src + n <= dest }

  /** The first k of n bytes at `dest` are those that were at `src`, all else is as it was. */
  ghost predicate CopiedUpTo(now: seq<byte>, was: seq<byte>, dest: nat, src: nat, n: nat, k: nat) {
    k <= n && src + n <= |was| && dest + n <= |was| && now == Patch(was, dest, was[src..src + k])
  }

  lemma CopyMore(now: seq<byte>, was: seq<byte>, dest: nat, src: nat, n: nat, k: nat, j: nat)
    requires CopiedUpTo(now, was, dest, src, n, k) && k + j <= n && Upwards(dest, src, n)
    ensures src + k + j <= |now| && dest + k + j <= |now|
    ensures CopiedUpTo(Patch(now, dest + k, now[src + k..src + k + j]), was, dest, src, n, k + j)
  {
    var x := now[src + k..src + k + j];
    assert x == was[src + k..src + k + j];
  }

  lemma CopyNone(was: seq<byte>, dest: nat, src: nat, n: nat)
    requires src + n <= |was| && dest + n <= |was|
    ensures CopiedUpTo(was, was, dest, src, n, 0)
  {
  }

  /** movb through al, or one step of movsb */
  method CopyByte(m: array<byte>, dest: nat, src: nat)
    requires src < m.Length && dest < m.Length
    modifies m
    ensures m[..] == Patch(old(m[..]), dest, old(m[..])[src..src + 1])
  {
    m[dest] := m[src];
  }

  /** One step of movsl */
  method CopyDword(m: array<byte>, dest: nat, src: nat)
    requires src + 4 <= m.Length && dest + 4 <= m.Length
    modifies m
    ensures m[..] == Patch(old(m[..]), dest, old(m[..])[src..src + 4])
  {
    var v := LoadDword(m, src);
    StoreDword(m, dest, v, m[..][src..src + 4]);
  }

  method CopyToBoundary(m: array<byte>, dest: nat, src: nat, n: nat, ghost was: seq<byte>) returns (k: nat)
    requires CopiedUpTo(m[..], was, dest, src, n, 0) && Upwards(dest, src, n)
    modifies m
    ensures CopiedUpTo(m[..], was, dest, src, n, k) && k <= n && (k == n || (dest + k) % 4 == 0)
  {
    hide CopiedUpTo, Upwards, Patch;
    var ecx: nat := n;
    k := 0;
    while ecx != 0 && (dest + k) % 4 != 0
      invariant k + ecx == n && CopiedUpTo(m[..], was, dest, src, n, k)
    {
      CopyMore(m[..], was, dest, src, n, k, 1);
      CopyByte(m, dest + k, src + k);
      k, ecx := k + 1, ecx - 1;
    }
  }

  /** rep movsl */
  method CopyDwords(m: array<byte>, dest: nat, src: nat, n: nat, from: nat, count: nat, ghost was: seq<byte>)
    requires CopiedUpTo(m[..], was, dest, src, n, from) && Upwards(dest, src, n) && from + 4 * count <= n
    modifies m
    ensures CopiedUpTo(m[..], was, dest, src, n, from + 4 * count)
  {
    hide CopiedUpTo, Upwards, Patch;
    var k: nat, ecx: nat := from, count;
    while ecx != 0
      invariant ecx <= count && k == from + 4 * (count - ecx) && CopiedUpTo(m[..], was, dest, src, n, k)
    {
      CopyMore(m[..], was, dest, src, n, k, 4);
      CopyDword(m, dest + k, src + k);
      k, ecx := k + 4, ecx - 1;
    }
  }

  /** Single bytes, upwards to the end: the rest of memcpy, and rep movsb. */
  method CopyRest(m: array<byte>, dest: nat, src: nat, n: nat, from: nat, ghost was: seq<byte>)
    requires CopiedUpTo(m[..], was, dest, src, n, from) && Upwards(dest, src, n) && from <= n
    modifies m
    ensures CopiedUpTo(m[..], was, dest, src, n, n)
  {
    hide CopiedUpTo, Upwards, Patch;
    var k: nat, edx: nat := from, n - from;
    while edx != 0
      invariant k + edx == n && CopiedUpTo(m[..], was, dest, src, n, k)
    {
      CopyMore(m[..], was, dest, src, n, k, 1);
      CopyByte(m, dest + k, src + k);
      k, edx := k + 1, edx - 1;
    }
  }

  lemma AllCopied(now: seq<byte>, was: seq<byte>, dest: nat, src: nat, n: nat)
    requires CopiedUpTo(now, was, dest, src, n, n)
    ensures src + n <= |was| && dest + n <= |was| && now == Patch(was, dest, was[src..src + n])
  {
  }

  /** For every alignment of the target n bytes are copied, and nothing else changes. */
  method Memcpy(m: array<byte>, dest: nat, src: nat, n: nat)
    requires src + n <= m.Length && dest + n <= m.Length && Upwards(dest, src, n)
    modifies m
    ensures m[..] == Patch(old(m[..]), dest, old(m[..])[src..src + n])
  {
    hide CopiedUpTo, Patch, Upwards;
    ghost var was := m[..];
    CopyNone(was, dest, src, n);
    var k := CopyToBoundary(m, dest, src, n, was);
    var words := (n - k) / 4;
    CopyDwords(m, dest, src, n, k, words, was);
    CopyRest(m, dest, src, n, k + 4 * words, was);
    AllCopied(m[..], was, dest, src, n);
  }

  // ----- memmove

  /** The last k of n bytes at `dest` are those that were at `src`, all else is as it was. */
  ghost predicate CopiedFrom(now: seq<byte>, was: seq<byte>, dest: nat, src: nat, n: nat, k: nat) {
    k <= n && src + n <= |was| && dest + n <= |was| && now == Patch(was, dest + n - k, was[src + n - k..src + n])
  }

  lemma CopyLess(now: seq<byte>, was: seq<byte>, dest: nat, src: nat, n: nat, k: nat)
    requires CopiedFrom(now, was, dest, src, n, k) && k < n && src < dest
    ensures src + n <= |now| && dest + n <= |now|
    ensures CopiedFrom(Patch(now, dest + n - k - 1, now[src + n - k - 1..src + n - k]), was, dest, src, n, k + 1)
  {
    assert now[src + n - k - 1] == was[src + n - k - 1];
  }

  lemma CopyNoneBack(was: seq<byte>, dest: nat, src: nat, n: nat)
    requires src + n <= |was| && dest + n <= |was|
    ensures CopiedFrom(was, was, dest, src, n, 0)
  {
  }

  /** rep movsb with the direction flag set. */
  method CopyBackwards(m: array<byte>, dest: nat, src: nat, n: nat, ghost was: seq<byte>)
    requires CopiedFrom(m[..], was, dest, src, n, 0) && src < dest
    modifies m
    ensures CopiedFrom(m[..], was, dest, src, n, n)
  {
    hide CopiedFrom, Patch;
    var ecx: nat := n;
    var esi, edi := src + ecx - 1, dest + ecx - 1;
    while ecx != 0
      invariant ecx <= n && esi == src + ecx - 1 && edi == dest + ecx - 1
      invariant CopiedFrom(m[..], was, dest, src, n, n - ecx)
    {
      CopyLess(m[..], was, dest, src, n, n - ecx);
      CopyByte(m, edi, esi);
      esi, edi, ecx := esi - 1, edi - 1, ecx - 1;
    }
  }

  /** However the two stretches overlap, the target ends up as the source was. */
  method Memmove(m: array<byte>, dest: nat, src: nat, n: nat)
    requires src + n <= m.Length && dest + n <= m.Length
    modifies m
    ensures m[..] == Patch(old(m[..]), dest, old(m[..])[src..src + n])
  {
    ghost var was := m[..];
    if src >= dest {
      CopyNone(was, dest, src, n);
      CopyRest(m, dest, src, n, 0, was);
    } else {
      CopyNoneBack(was, dest, src, n);
      CopyBackwards(m, dest, src, n, was);
    }
  }
}
