/** NUL-terminated strings in byte memory: ece391support.c and the string half of lib.c. */
module CString {
  import opened Bytes

  /** The characters of the string that starts at `at`, up to its terminator. */
  ghost function CStr(m: seq<byte>, at: nat): (s: seq<byte>)
    requires at <= |m|
    ensures at + |s| <= |m| && s == m[at..at + |s|] && NulFree(s)
    ensures at + |s| < |m| ==> m[at + |s|] == NUL
    decreases |m| - at
  {
    if at == |m| || m[at] == NUL then [] else [m[at]] + CStr(m, at + 1)
  }

  ghost predicate Terminated(m: seq<byte>, at: nat) {
    at <= |m| && at + |CStr(m, at)| < |m|
  }

  /** A NUL-free stretch followed by a NUL is the string that starts there. */
  lemma {:induction false} CStrIs(m: seq<byte>, at: nat, end: nat)
    requires at <= end < |m| && m[end] == NUL && NulFree(m[at..end])
    ensures CStr(m, at) == m[at..end] && Terminated(m, at)
  {
    var s := CStr(m, at);
    assert forall k :: at <= k < end ==> m[k] == m[at..end][k - at] && m[k] != NUL;
    assert forall k :: at <= k < at + |s| ==> m[k] == s[k - at] && m[k] != NUL;
  }

  /** Any NUL at or after `at` bounds the string. */
  lemma CStrWithin(m: seq<byte>, at: nat, end: nat)
    requires at <= end < |m| && m[end] == NUL
    ensures Terminated(m, at) && at + |CStr(m, at)| <= end
  {
    var s := CStr(m, at);
    assert forall k :: at <= k < at + |s| ==> m[k] == s[k - at] && m[k] != NUL;
  }

  ghost function Prefix(s: seq<byte>, n: nat): (p: seq<byte>)
    ensures |p| == Min(|s|, n) && p <= s
  {
    if |s| <= n then s else s[..n]
  }

  lemma StringBytes(m: seq<byte>, at: nat)
    requires Terminated(m, at)
    ensures forall i :: 0 <= i <= |CStr(m, at)| ==> m[at + i] == (CStr(m, at) + [NUL])[i]
  {
  }

  /** strncpy: at most n characters, the rest of the n bytes zero. */
  function CopyN(dest: seq<byte>, s: seq<byte>, n: nat): (d: seq<byte>)
    requires n <= |dest|
    ensures |d| == |dest| && d[n..] == dest[n..]
    ensures forall i :: 0 <= i < n ==> d[i] == if i < |s| then s[i] else NUL
  {
    s[..Min(|s|, n)] + Zeros(n - Min(|s|, n)) + dest[n..]
  }

  method Strncpy(dest: array<byte>, m: seq<byte>, src: nat, n: nat)
    requires Terminated(m, src) && n <= dest.Length
    modifies dest
    ensures dest[..] == CopyN(old(dest[..]), CStr(m, src), n)
  {
    ghost var w := CStr(m, src);
    StringBytes(m, src);
    hide CStr, Terminated;
    var i := 0;
    while m[src + i] != NUL && i < n
      invariant i <= |w| && i <= n
      invariant forall k :: 0 <= k < dest.Length ==> dest[k] == if k < i then w[k] else old(dest[k])
      decreases n - i
    {
      dest[i] := m[src + i];
      i := i + 1;
    }
    while i < n
      invariant i <= n && Min(|w|, n) <= i
      invariant forall k :: 0 <= k < dest.Length ==>
        dest[k] == if k < Min(|w|, i) then w[k] else if k < i then NUL else old(dest[k])
    {
      dest[i] := NUL;
      i := i + 1;
    }
  }

  method Strlen(m: array<byte>, at: nat) returns (len: nat)
    requires Terminated(m[..], at)
    ensures len == |CStr(m[..], at)|
  {
    len := 0;
    while m[at + len] != NUL
      invariant at + len < m.Length && len <= |CStr(m[..], at)|
      decreases m.Length - len
    {
      len := len + 1;
    }
  }

  /** Memory with the bytes x written at a position. */
  ghost function Patch(m: seq<byte>, at: nat, x: seq<byte>): (p: seq<byte>)
    requires at + |x| <= |m|
    ensures |p| == |m| && forall k :: 0 <= k < |m| ==> p[k] == if at <= k < at + |x| then x[k - at] else m[k]
  {
    m[..at] + x + m[at + |x|..]
  }

  /** Writing one byte of a patch. */
  lemma PatchSet(m: seq<byte>, at: nat, x: seq<byte>, i: nat, c: byte)
    requires at + |x| <= |m| && i < |x|
    ensures Patch(m, at, x)[at + i := c] == Patch(m, at, x[i := c]) && Patch(m, at, x)[at + i] == x[i]
  {
  }

  /** Writing the byte behind a patch. */
  lemma PatchAppend(m: seq<byte>, at: nat, x: seq<byte>, c: byte)
    requires at + |x| < |m|
    ensures Patch(m, at, x)[at + |x| := c] == Patch(m, at, x + [c])
  {
  }

  method Store(m: array<byte>, at: nat, c: byte)
    requires at < m.Length
    modifies m
    ensures m[..] == old(m[..])[at := c]
  {
    m[at] := c;
  }

  /** Copies up to and including the first NUL. */
  method CopyToNul(d: array<byte>, dst: nat, s: array<byte>, src: nat, ghost w: seq<byte>)
    requires w != [] && (forall i :: 0 <= i < |w| ==> (w[i] == NUL <==> i == |w| - 1))
    requires dst + |w| <= d.Length && src + |w| <= s.Length && (d != s || dst <= src)
    requires forall i :: src <= i < src + |w| ==> s[i] == w[i - src]
    modifies d
    ensures d[..] == Patch(old(d[..]), dst, w)
  {
    var k := 0;
    d[dst] := s[src];
    while d[dst + k] != NUL
      invariant k < |w| && d[dst + k] == w[k]
      invariant forall i :: 0 <= i < d.Length ==> d[i] == if dst <= i <= dst + k then w[i - dst] else old(d[i])
      invariant forall i :: src + k < i < src + |w| ==> s[i] == w[i - src]
      decreases |w| - k
    {
      k := k + 1;
      d[dst + k] := s[src + k];
    }
  }

  /** Copies a string with its terminator. The two strings may lie in one array and
      overlap, provided the copy moves towards lower addresses. */
  method Strcpy(d: array<byte>, dst: nat, s: array<byte>, src: nat)
    requires Terminated(s[..], src)
    requires dst + |CStr(s[..], src)| < d.Length
    requires d != s || dst <= src
    modifies d
    ensures d[..] == Patch(old(d[..]), dst, old(CStr(s[..], src)) + [NUL])
  {
    ghost var w := CStr(s[..], src) + [NUL];
    StringBytes(s[..], src);
    assert forall i :: src <= i < src + |w| ==> s[i] == s[..][src + (i - src)] == w[i - src];
    CopyToNul(d, dst, s, src, w);
  }

  /** Lexicographic order of byte strings. */
  ghost predicate Before(u: seq<byte>, v: seq<byte>) {
    v != [] && (u == [] || u[0] < v[0] || (u[0] == v[0] && Before(u[1..], v[1..])))
  }

  /** Compares at most n characters of two strings: zero means that they agree, a negative
      result that the first comes before the second. */
  method Strncmp(a: array<byte>, i: nat, b: array<byte>, j: nat, n: nat) returns (r: int)
    requires Terminated(a[..], i) && Terminated(b[..], j)
    ensures r == 0 <==> Prefix(CStr(a[..], i), n) == Prefix(CStr(b[..], j), n)
    ensures r < 0 <==> Before(Prefix(CStr(a[..], i), n), Prefix(CStr(b[..], j), n))
  {
    ghost var u, v := CStr(a[..], i), CStr(b[..], j);
    NotBeforeItself(Prefix(u, n));
    hide Prefix, Before, CStr, Terminated;
    if n == 0 {
      NoPrefix(u, v);
      return 0;
    }
    var k, left := 0, n;
    while a[i + k] == b[j + k]
      invariant k + left == n && left > 0
      invariant k <= |u| && k <= |v| && u[..k] == v[..k]
      decreases left
    {
      CharAt(a[..], i, k);
      CharAt(b[..], j, k);
      left := left - 1;
      if a[i + k] == NUL || left == 0 {
        SamePrefix(u, v, n, k);
        return 0;
      }
      AgreeFurther(u, v, k);
      k := k + 1;
    }
    CharAt(a[..], i, k);
    CharAt(b[..], j, k);
    OtherPrefix(u, v, n, k);
    r := a[i + k] as int - b[j + k] as int;
  }

  lemma NoPrefix(u: seq<byte>, v: seq<byte>)
    ensures Prefix(u, 0) == Prefix(v, 0)
  {
  }

  lemma AgreeFurther(u: seq<byte>, v: seq<byte>, k: nat)
    requires k < |u| && k < |v| && u[..k] == v[..k] && u[k] == v[k]
    ensures u[..k + 1] == v[..k + 1]
  {
    assert u[..k + 1] == u[..k] + [u[k]] && v[..k + 1] == v[..k] + [v[k]];
  }

  lemma {:induction false} NotBeforeItself(u: seq<byte>)
    ensures !Before(u, u)
  {
    if u != [] {
      NotBeforeItself(u[1..]);
    }
  }

  /** The first difference decides the order; a string that ends there comes first. */
  lemma {:induction false} FirstDifference(u: seq<byte>, v: seq<byte>, k: nat)
    requires NulFree(u) && NulFree(v) && k <= |u| && k <= |v| && u[..k] == v[..k]
    requires (u + [NUL])[k] != (v + [NUL])[k]
    ensures u != v && (Before(u, v) <==> (u + [NUL])[k] < (v + [NUL])[k])
    decreases k
  {
    if k > 0 {
      assert u[0] == u[..k][0] == v[..k][0] == v[0];
      assert u[1..][..k - 1] == u[..k][1..] == v[..k][1..] == v[1..][..k - 1];
      assert (u + [NUL])[k] == (u[1..] + [NUL])[k - 1] && (v + [NUL])[k] == (v[1..] + [NUL])[k - 1];
      FirstDifference(u[1..], v[1..], k - 1);
    }
  }

  /** Memory read through a string: its characters, then the terminator. */
  lemma CharAt(m: seq<byte>, at: nat, k: nat)
    requires Terminated(m, at) && k <= |CStr(m, at)|
    ensures m[at + k] == (CStr(m, at) + [NUL])[k]
    ensures m[at + k] == NUL <==> k == |CStr(m, at)|
  {
  }

  lemma SamePrefix(u: seq<byte>, v: seq<byte>, n: nat, k: nat)
    requires NulFree(u) && NulFree(v) && k <= |u| && k <= |v| && k < n
    requires u[..k] == v[..k] && (u + [NUL])[k] == (v + [NUL])[k]
    requires k + 1 == n || (u + [NUL])[k] == NUL
    ensures Prefix(u, n) == Prefix(v, n)
  {
    if (u + [NUL])[k] != NUL {
      assert u[..k + 1] == u[..k] + [u[k]] && v[..k + 1] == v[..k] + [v[k]];
    }
  }

  lemma OtherPrefix(u: seq<byte>, v: seq<byte>, n: nat, k: nat)
    requires NulFree(u) && NulFree(v) && k <= |u| && k <= |v| && k < n && u[..k] == v[..k]
    requires (u + [NUL])[k] != (v + [NUL])[k]
    ensures Prefix(u, n) != Prefix(v, n)
    ensures Before(Prefix(u, n), Prefix(v, n)) <==> (u + [NUL])[k] < (v + [NUL])[k]
  {
    var p, q := Prefix(u, n), Prefix(v, n);
    assert p[..k] == u[..k] && q[..k] == v[..k];
    assert (p + [NUL])[k] == (u + [NUL])[k] && (q + [NUL])[k] == (v + [NUL])[k];
    FirstDifference(p, q, k);
  }
}
