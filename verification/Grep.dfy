/** ece391grep.c: a search of one file through a 1024-byte sliding buffer. */
module Grep {
  import opened Bytes
  import opened CString
  import opened Text

  const BUFSIZE: nat := 1024

  /** What grep promises: the lines that hold the pattern. No line holds an empty one. */
  ghost predicate Matches(line: seq<byte>, s: seq<byte>) {
    s != [] && exists k: nat :: Occurs(line, s, k)
  }

  ghost predicate Occurs(line: seq<byte>, s: seq<byte>, k: nat) {
    k + |s| <= |line| && line[k..k + |s|] == s
  }

  ghost function Matching(ls: seq<seq<byte>>, s: seq<byte>): (ms: seq<seq<byte>>) {
    if ls == [] then []
    else (if Matches(ls[0], s) then [ls[0]] else []) + Matching(ls[1..], s)
  }

  /** The write calls that report one line, and a list of lines. */
  function Entry(fname: seq<byte>, line: seq<byte>): seq<seq<byte>> {
    [fname, [58], line, [NEWLINE]]
  }

  function Report(fname: seq<byte>, ls: seq<seq<byte>>): seq<seq<byte>> {
    if ls == [] then [] else Entry(fname, ls[0]) + Report(fname, ls[1..])
  }

  /** The length of a file's first piece: a line that does not fit in the buffer is cut. */
  function PieceLength(f: seq<byte>): (n: nat)
    ensures n <= |f| && n <= BUFSIZE
  {
    Min(LineLength(f), BUFSIZE)
  }

  /** Where the next piece starts: behind the newline, unless the line was cut or is the last. */
  function PieceNext(f: seq<byte>): (n: nat)
    requires f != []
    ensures 0 < n <= |f|
  {
    var k := LineLength(f);
    if k < BUFSIZE && k < |f| then k + 1 else Min(k, BUFSIZE)
  }

  /** What the buffer makes of a file. */
  function Pieces(f: seq<byte>): seq<seq<byte>>
    decreases |f|
  {
    if f == [] then [] else [f[..PieceLength(f)]] + Pieces(f[PieceNext(f)..])
  }

  /** The byte behind a full buffer is looked at before it is first written. When it
      happens to be a newline, the first full buffer that does not end in a newline is
      taken to end a line. The result is where that happens, 0 for nowhere. */
  function StaleCut(f: seq<byte>, from: nat): (cut: nat)
    ensures cut <= |f|
    ensures cut != 0 ==> from + BUFSIZE <= cut && f[cut - 1] != NEWLINE
    decreases |f| - from
  {
    if |f| < from + BUFSIZE then 0
    else if f[from + BUFSIZE - 1] == NEWLINE then StaleCut(f, from + BUFSIZE)
    else from + BUFSIZE
  }

  function Cut(f: seq<byte>, stale: byte): (cut: nat)
    ensures cut <= |f|
  {
    if stale == NEWLINE then StaleCut(f, 0) else 0
  }

  /** The pieces of f from a position on, when f is cut at `cut`. */
  function PiecesFrom(f: seq<byte>, from: nat, cut: nat): seq<seq<byte>>
    requires from <= |f| && cut <= |f|
  {
    if from < cut then Pieces(f[from..cut]) + Pieces(f[cut..]) else Pieces(f[from..])
  }

  ghost function Due(fname: seq<byte>, f: seq<byte>, from: nat, cut: nat, s: seq<byte>): seq<seq<byte>>
    requires from <= |f| && cut <= |f|
  {
    Report(fname, Matching(PiecesFrom(f, from, cut), s))
  }

  // ----- one step through the pieces

  ghost function Hit(fname: seq<byte>, line: seq<byte>, s: seq<byte>): seq<seq<byte>> {
    if Matches(line, s) then Entry(fname, line) else []
  }

  lemma ReportCons(fname: seq<byte>, line: seq<byte>, ls: seq<seq<byte>>, s: seq<byte>)
    ensures Report(fname, Matching([line] + ls, s)) == Hit(fname, line, s) + Report(fname, Matching(ls, s))
  {
    assert ([line] + ls)[1..] == ls;
    var ms := Matching(ls, s);
    assert Matching([line] + ls, s) == if Matches(line, s) then [line] + ms else ms;
    assert ([line] + ms)[1..] == ms;
  }

  /** Where the stretch that holds `from` ends: at the cut or at the end of the file. */
  function End(f: seq<byte>, from: nat, cut: nat): nat {
    if from < cut then cut else |f|
  }

  lemma PiecesHead(g: seq<byte>, m: nat, next: nat)
    requires m <= |g| && m <= BUFSIZE && NEWLINE !in g[..m]
    requires if m < BUFSIZE && m < |g| then g[m] == NEWLINE && next == m + 1 else 0 < m == next
    ensures Pieces(g) == [g[..m]] + Pieces(g[next..])
  {
    hide Pieces;
    PieceIs(g, m, next);
    PiecesStep(g);
  }

  lemma PieceIs(g: seq<byte>, m: nat, next: nat)
    requires m <= |g| && m <= BUFSIZE && NEWLINE !in g[..m]
    requires if m < BUFSIZE && m < |g| then g[m] == NEWLINE && next == m + 1 else 0 < m == next
    ensures g != [] && PieceLength(g) == m && PieceNext(g) == next
  {
    hide LineLength;
    if m < BUFSIZE && m < |g| {
      LineLengthIs(g, m);
    } else {
      NotShorter(g, m);
    }
  }

  lemma NotShorter(g: seq<byte>, m: nat)
    requires m <= |g| && NEWLINE !in g[..m]
    ensures LineLength(g) >= m
  {
    assert forall i :: 0 <= i < m ==> g[i] == g[..m][i] && g[i] != NEWLINE;
  }

  lemma PiecesStep(g: seq<byte>)
    requires g != []
    ensures Pieces(g) == [g[..PieceLength(g)]] + Pieces(g[PieceNext(g)..])
  {
    hide PieceLength, PieceNext;
  }

  lemma FromStep(f: seq<byte>, from: nat, cut: nat, line: seq<byte>, next: nat)
    requires cut <= |f| && from <= next <= End(f, from, cut)
    requires Pieces(f[from..End(f, from, cut)]) == [line] + Pieces(f[next..End(f, from, cut)])
    ensures PiecesFrom(f, from, cut) == [line] + PiecesFrom(f, next, cut)
  {
    NoPieces();
    hide Pieces;
    if from < cut {
      var ps, rest := Pieces(f[next..cut]), Pieces(f[cut..]);
      assert [line] + ps + rest == [line] + (ps + rest);
      if next == cut {
        assert f[next..cut] == [] && ps + rest == rest;
      }
    } else {
      assert f[from..|f|] == f[from..] && f[next..|f|] == f[next..];
    }
  }

  lemma NothingDue(fname: seq<byte>, f: seq<byte>, cut: nat, s: seq<byte>)
    requires cut <= |f|
    ensures Due(fname, f, |f|, cut, s) == []
  {
  }

  /** A line that ends in a newline, or a piece without newline that ends at a cut, at
      the end of the file, or after 1024 bytes. */
  lemma DueStep(fname: seq<byte>, f: seq<byte>, from: nat, cut: nat, s: seq<byte>, line: seq<byte>, next: nat)
    requires cut <= |f| && |line| <= BUFSIZE && NEWLINE !in line
    requires from + |line| <= End(f, from, cut) && f[from..from + |line|] == line
    requires if |line| < BUFSIZE && from + |line| < End(f, from, cut)
      then f[from + |line|] == NEWLINE && next == from + |line| + 1 else next == from + |line|
    ensures Due(fname, f, from, cut, s) == Hit(fname, line, s) + Due(fname, f, next, cut, s)
  {
    hide Pieces, PiecesFrom, Matching, Report, Matches, Entry;
    var end := End(f, from, cut);
    var g := f[from..end];
    if next == from {
      NothingMatches(s);
    } else {
      assert g[..|line|] == line && g[next - from..] == f[next..end];
      PiecesHead(g, |line|, next - from);
      FromStep(f, from, cut, line, next);
      ReportCons(fname, line, PiecesFrom(f, next, cut), s);
    }
  }

  lemma NothingMatches(s: seq<byte>)
    ensures !Matches([], s)
  {
  }

  // ----- the search

  /** Memory searched at `check` shows the pattern exactly when the line does. */
  lemma PatternAt(m: seq<byte>, check: nat, end: nat, s: seq<byte>)
    requires check < end < |m| && m[end] == NUL && NulFree(s) && s != []
    ensures Terminated(m, check)
    ensures Prefix(CStr(m, check), |s|) == s <==> check + |s| <= end && m[check..check + |s|] == s
  {
    CStrWithin(m, check, end);
    var w := CStr(m, check);
    if check + |s| <= end && m[check..check + |s|] == s {
      assert forall i :: 0 <= i < |s| ==> m[check + i] == s[i] && s[i] != NUL;
      assert w[..|s|] == s;
    }
  }

  lemma OccursHead(line: seq<byte>, s: seq<byte>, k: nat)
    ensures s != [] && Occurs(line, s, k) ==> k < |line| && line[k] == s[0]
  {
    if s != [] && Occurs(line, s, k) {
      assert line[k..k + |s|][0] == s[0];
    }
  }

  /** The test in the search loop: first characters, then the whole pattern. An empty
      pattern starts with its terminator, so it matches at a NUL byte of the line. */
  method MatchHere(data: array<byte>, lineStart: nat, lineEnd: nat, check: nat, s: array<byte>, sLen: nat)
    returns (same: bool)
    requires lineStart <= check < lineEnd < data.Length && data[lineEnd] == NUL
    requires Terminated(s[..], 0) && sLen == |CStr(s[..], 0)|
    ensures same <==> if sLen == 0 then data[check] == NUL
      else Occurs(data[lineStart..lineEnd], CStr(s[..], 0), check - lineStart)
  {
    CStrWithin(data[..], check, lineEnd);
    CharAt(s[..], 0, 0);
    PatternOccurs(data[..], lineStart, lineEnd, check, CStr(s[..], 0));
    if s[0] != data[check] {
      return false;
    }
    var c := Strncmp(data, check, s, 0, sLen);
    return c == 0;
  }

  /** What the two comparisons of the search loop decide. */
  lemma PatternOccurs(m: seq<byte>, lineStart: nat, lineEnd: nat, check: nat, s: seq<byte>)
    requires lineStart <= check < lineEnd < |m| && m[lineEnd] == NUL && NulFree(s)
    ensures Terminated(m, check) && Prefix(s, |s|) == s
    ensures s == [] ==> Prefix(CStr(m, check), |s|) == s
    ensures s != [] ==> (Occurs(m[lineStart..lineEnd], s, check - lineStart) <==>
      m[check] == s[0] && Prefix(CStr(m, check), |s|) == s)
  {
    hide CStr, Occurs, NulFree, Terminated, Prefix;
    var line := m[lineStart..lineEnd];
    WholePrefix(s);
    NoPrefix(CStr(m, check), s);
    CStrWithin(m, check, lineEnd);
    OccursHead(line, s, check - lineStart);
    OccursSlice(m, lineStart, lineEnd, s, check - lineStart);
    if s != [] {
      PatternAt(m, check, lineEnd, s);
      assert line[check - lineStart] == m[check];
    }
  }

  lemma WholePrefix(s: seq<byte>)
    ensures Prefix(s, |s|) == s
  {
  }

  lemma OccursSlice(m: seq<byte>, a: nat, b: nat, s: seq<byte>, k: nat)
    requires a <= b <= |m|
    ensures Occurs(m[a..b], s, k) <==> a + k + |s| <= b && m[a + k..a + k + |s|] == s
  {
    if a + k + |s| <= b {
      SubSlice(m, a, b, a + k, a + k + |s|);
    }
  }

  lemma SubSlice<T>(m: seq<T>, a: nat, b: nat, c: nat, d: nat)
    requires a <= c <= d <= b <= |m|
    ensures m[a..b][c - a..d - a] == m[c..d]
  {
    var x, y := m[a..b][c - a..d - a], m[c..d];
    assert |x| == |y| && forall i :: 0 <= i < |x| ==> x[i] == y[i];
  }

  method SearchLine(data: array<byte>, lineStart: nat, lineEnd: nat, s: array<byte>, sLen: nat) returns (found: bool)
    requires lineStart <= lineEnd < data.Length && data[lineEnd] == NUL
    requires Terminated(s[..], 0) && sLen == |CStr(s[..], 0)|
    ensures found <==> if sLen == 0 then NUL in data[lineStart..lineEnd]
      else Matches(data[lineStart..lineEnd], CStr(s[..], 0))
  {
    ghost var pat, line := CStr(s[..], 0), data[lineStart..lineEnd];
    var check := lineStart;
    while check < lineEnd
      invariant lineStart <= check <= lineEnd
      invariant forall k :: 0 <= k < check - lineStart ==>
        if pat == [] then line[k] != NUL else !Occurs(line, pat, k)
    {
      var same := MatchHere(data, lineStart, lineEnd, check, s, sLen);
      if same {
        assert pat == [] ==> line[check - lineStart] == NUL;
        assert pat != [] ==> Occurs(line, pat, check - lineStart);
        return true;
      }
      check := check + 1;
    }
    return false;
  }

  /** ece391_fdputs: the string that goes out in the write call. */
  method Put(m: array<byte>, at: nat) returns (text: seq<byte>)
    requires Terminated(m[..], at)
    ensures text == CStr(m[..], at)
  {
    var len := Strlen(m, at);
    return m[at..at + len];
  }

  function FileOpenFailed(): seq<byte> {
    [102, 105, 108, 101, 32, 111, 112, 101, 110, 32, 102, 97, 105, 108, 101, 100, 10]
  }

  /** The buffer before its lines are consumed: `last` bytes of the file that end at `pos`.
      A cut still ahead is the end of this full buffer or lies behind it. */
  ghost predicate Filled(f: seq<byte>, pos: nat, cut: nat, buf: seq<byte>, last: nat) {
    && |buf| == BUFSIZE + 1 && last <= BUFSIZE && last <= pos <= |f| && cut <= |f|
    && buf[..last] == f[pos - last..pos]
    && (last < BUFSIZE ==> pos == |f|)
    && (if last == BUFSIZE && buf[BUFSIZE] == NEWLINE then cut == StaleCut(f, pos - last) else cut <= pos - last)
  }

  /** The buffer between two reads: the file's pending partial line, and no newline that
      a later full buffer could trip over unless the cut is still ahead. */
  ghost predicate Pending(f: seq<byte>, pos: nat, cut: nat, buf: seq<byte>, last: nat) {
    && |buf| == BUFSIZE + 1 && last < BUFSIZE && last <= pos <= |f| && cut <= |f|
    && buf[..last] == f[pos - last..pos] && NEWLINE !in buf[..last]
    && (if pos < |f| && buf[BUFSIZE] == NEWLINE then last == 0 && cut == StaleCut(f, pos) else cut <= pos - last)
  }

  method ScanLine(data: array<byte>, lineStart: nat, last: nat) returns (lineEnd: nat)
    requires lineStart <= last < data.Length
    ensures lineStart <= lineEnd <= last && NEWLINE !in data[lineStart..lineEnd]
    ensures lineEnd < last ==> data[lineEnd] == NEWLINE
  {
    lineEnd := lineStart;
    while lineEnd < last && data[lineEnd] != NEWLINE
      invariant lineStart <= lineEnd <= last && NEWLINE !in data[lineStart..lineEnd]
    {
      lineEnd := lineEnd + 1;
    }
  }

  /** Whether the buffer's bytes from lineStart up to lineEnd are taken as a line. */
  ghost predicate Searched(buf: seq<byte>, last: nat, lineStart: nat, lineEnd: nat) {
    && lineStart <= lineEnd <= last < |buf| && (lineStart < last || lineStart == 0)
    && NEWLINE !in buf[lineStart..lineEnd]
    && (lineEnd < last ==> buf[lineEnd] == NEWLINE)
    && (lineEnd == last == BUFSIZE && lineStart != 0 ==> buf[last] == NEWLINE)
  }

  /** A searched stretch is a whole piece: it stops at a newline, at the cut, at the end of
      the file, or after 1024 bytes. */
  lemma PieceShape(f: seq<byte>, pos: nat, cut: nat, buf: seq<byte>, last: nat, lineStart: nat, lineEnd: nat)
    requires Filled(f, pos, cut, buf, last) && Searched(buf, last, lineStart, lineEnd)
    ensures var from, to := pos - last + lineStart, pos - last + lineEnd;
      && f[from..to] == buf[lineStart..lineEnd]
      && to <= End(f, from, cut)
      && (lineEnd < last ==> to < End(f, from, cut) && f[to] == NEWLINE)
      && (lineEnd == last ==> lineEnd - lineStart == BUFSIZE || to == End(f, from, cut))
  {
    BufferIsFile(f, pos - last, buf, last, lineStart, lineEnd);
    hide StaleCut;
    if lineEnd == last && lineStart < last {
      assert buf[lineStart..lineEnd][lineEnd - lineStart - 1] == f[pos - 1] != NEWLINE;
    }
  }

  /** What the buffer was filled with, byte by byte and in stretches. */
  lemma BufferIsFile(f: seq<byte>, start: nat, buf: seq<byte>, last: nat, a: nat, b: nat)
    requires a <= b <= last <= |buf| && start + last <= |f| && buf[..last] == f[start..start + last]
    ensures f[start + a..start + b] == buf[a..b]
    ensures forall i :: 0 <= i < last ==> buf[i] == f[start + i]
  {
    forall i | 0 <= i < last
      ensures buf[i] == f[start + i]
    {
      assert buf[..last][i] == f[start..start + last][i];
    }
  }

  /** The two buffers agree from a position on. */
  ghost predicate SameFrom(a: seq<byte>, b: seq<byte>, from: nat) {
    |a| == |b| && forall i :: from <= i < |a| ==> a[i] == b[i]
  }

  /** No newline among the buffer's bytes from one position up to another. */
  ghost predicate NoNewline(buf: seq<byte>, from: nat, to: nat) {
    forall i :: from <= i < to && i < |buf| ==> buf[i] != NEWLINE
  }

  lemma LineClosed(was: seq<byte>, lineStart: nat, lineEnd: nat)
    requires lineStart <= lineEnd < |was| && NoNewline(was, 0, lineStart) && NEWLINE !in was[lineStart..lineEnd]
    ensures NoNewline(was[lineEnd := NUL], 0, lineEnd + 1)
  {
    forall i | lineStart <= i < lineEnd
      ensures was[i] != NEWLINE
    {
      assert was[i] == was[lineStart..lineEnd][i - lineStart];
    }
  }

  lemma NoneBehind(now: seq<byte>, buf: seq<byte>, last: nat, lineEnd: nat)
    requires SameFrom(now, buf, lineEnd + 1) && last <= lineEnd + 1 && NoNewline(now, 0, lineEnd + 1)
    ensures NoNewline(buf, last, |buf|) ==> NoNewline(now, 0, |now|)
  {
  }

  /** Copying a string to the front brings in bytes of that string only. */
  lemma ShiftedNoNewline(tail: seq<byte>, buf: seq<byte>, lineStart: nat, last: nat, w: seq<byte>)
    requires |tail| == |buf| && lineStart + |w| <= last < |buf| && w == tail[lineStart..lineStart + |w|]
    requires NoNewline(tail, 0, last + 1) && SameFrom(tail, buf, last + 1)
    ensures NoNewline(buf, last, |buf|) ==> NoNewline(Patch(tail, 0, w + [NUL]), 0, |tail|)
  {
    NoneBehind(tail, buf, last, last);
    forall i | 0 <= i < |w|
      ensures w[i] != NEWLINE
    {
      assert w[i] == tail[lineStart + i];
    }
  }

  /** Where the search goes on in the file. */
  function Next(pos: nat, last: nat, lineEnd: nat): nat
    requires lineEnd <= last <= pos
  {
    if lineEnd < last then pos - last + lineEnd + 1 else pos
  }

  /** After the last line of the buffer nothing is pending. */
  lemma AllConsumed(f: seq<byte>, pos: nat, cut: nat, buf: seq<byte>, last: nat, lineStart: nat,
                    lineEnd: nat, now: seq<byte>)
    requires Filled(f, pos, cut, buf, last) && Searched(buf, last, lineStart, lineEnd) && last <= lineEnd + 1
    requires |now| == |buf| && now[BUFSIZE] == if lineEnd == BUFSIZE then NUL else buf[BUFSIZE]
    ensures Pending(f, pos, cut, now, 0)
  {
    PieceShape(f, pos, cut, buf, last, lineStart, lineEnd);
    if last == BUFSIZE && buf[BUFSIZE] == NEWLINE && lineEnd < last {
      assert StaleCut(f, pos - last) == StaleCut(f, pos);
    }
  }

  /** A partial line that was moved to the front is all that is pending. */
  lemma PartialKept(f: seq<byte>, pos: nat, cut: nat, buf: seq<byte>, last: nat, lineStart: nat,
                    tail: seq<byte>, now: seq<byte>)
    requires Filled(f, pos, cut, buf, last) && 0 < lineStart <= last && NEWLINE !in buf[lineStart..last]
    requires buf[last] != NEWLINE && |tail| == |buf|
    requires tail[BUFSIZE] == if last == BUFSIZE then NUL else buf[BUFSIZE]
    requires now == buf[lineStart..last] + [NUL] + tail[last - lineStart + 1..]
    ensures Pending(f, pos, cut, now, last - lineStart)
  {
    assert buf[lineStart..last] == buf[..last][lineStart..];
    assert now[..last - lineStart] == buf[lineStart..last];
    assert now[BUFSIZE] == tail[BUFSIZE];
  }

  /** The line that the terminator closes off. */
  lemma Closed(buf: seq<byte>, was: seq<byte>, now: seq<byte>, lineStart: nat, lineEnd: nat)
    requires |buf| == BUFSIZE + 1 && lineStart <= lineEnd < |buf| && SameFrom(was, buf, lineStart)
    requires now == was[lineEnd := NUL]
    ensures now[lineStart..lineEnd] == buf[lineStart..lineEnd] && now[lineEnd] == NUL
    ensures Terminated(now, lineStart) && |CStr(now, lineStart)| <= lineEnd - lineStart
    ensures NulFree(buf[lineStart..lineEnd]) ==> CStr(now, lineStart) == buf[lineStart..lineEnd]
    ensures SameFrom(now, buf, lineEnd + 1)
    ensures now[BUFSIZE] == if lineEnd == BUFSIZE then NUL else buf[BUFSIZE]
  {
    CStrWithin(now, lineStart, lineEnd);
    assert now[lineStart..lineEnd] == buf[lineStart..lineEnd];
    if NulFree(buf[lineStart..lineEnd]) {
      CStrIs(now, lineStart, lineEnd);
    }
  }

  /** A read completes the buffer. */
  lemma ReadFills(f: seq<byte>, pos: nat, cut: nat, buf: seq<byte>, last: nat, cnt: nat, now: seq<byte>)
    requires Pending(f, pos, cut, buf, last) && cnt == Min(BUFSIZE - last, |f| - pos)
    requires now == buf[..last] + f[pos..pos + cnt] + buf[last + cnt..]
    ensures Filled(f, pos + cnt, cut, now, last + cnt)
  {
    assert forall i :: 0 <= i < last ==> f[pos - last + i] == buf[..last][i];
    assert now[..last + cnt] == f[pos - last..pos + cnt];
    assert now[BUFSIZE] == buf[BUFSIZE];
  }

  lemma NoneReadBehind(buf: seq<byte>, last: nat, cnt: nat, now: seq<byte>)
    requires last + cnt <= |buf| == |now| && now[last + cnt..] == buf[last + cnt..]
    ensures NoNewline(buf, last, |buf|) ==> NoNewline(now, last + cnt, |now|)
  {
    forall i | last + cnt <= i < |now|
      ensures now[i] == buf[i]
    {
      assert now[last + cnt..][i - last - cnt] == buf[last + cnt..][i - last - cnt];
    }
  }

  /** What went out and what is still due add up to the whole. */
  ghost predicate Owes(total: seq<seq<byte>>, out: seq<seq<byte>>, fname: seq<byte>, f: seq<byte>, at: int,
                       cut: nat, s: seq<byte>)
  {
    0 <= at <= |f| && cut <= |f| && total == out + Due(fname, f, at, cut, s)
  }

  lemma OwesAll(fname: seq<byte>, f: seq<byte>, at: int, cut: nat, s: seq<byte>)
    requires 0 <= at <= |f| && cut <= |f|
    ensures Owes(Due(fname, f, at, cut, s), [], fname, f, at, cut, s)
  {
  }

  lemma OwesLess(total: seq<seq<byte>>, out: seq<seq<byte>>, fname: seq<byte>, f: seq<byte>, at: int,
                 cut: nat, s: seq<byte>, paid: seq<seq<byte>>, next: int)
    requires Owes(total, out, fname, f, at, cut, s)
    requires Owes(Due(fname, f, at, cut, s), paid, fname, f, next, cut, s)
    ensures Owes(total, out + paid, fname, f, next, cut, s)
  {
    hide Due;
    assert out + (paid + Due(fname, f, next, cut, s)) == out + paid + Due(fname, f, next, cut, s);
  }

  /** A searched line pays for one piece of the file. */
  lemma SearchedPiece(fname: seq<byte>, f: seq<byte>, pos: nat, cut: nat, buf: seq<byte>, last: nat,
                      lineStart: nat, lineEnd: nat, s: seq<byte>)
    requires Filled(f, pos, cut, buf, last) && Searched(buf, last, lineStart, lineEnd)
    ensures pos - last + lineStart <= |f| && cut <= |f|
    ensures Owes(Due(fname, f, pos - last + lineStart, cut, s), Hit(fname, buf[lineStart..lineEnd], s),
                 fname, f, Next(pos, last, lineEnd), cut, s)
  {
    hide Due, StaleCut, Hit;
    PieceShape(f, pos, cut, buf, last, lineStart, lineEnd);
    var from, line := pos - last + lineStart, buf[lineStart..lineEnd];
    assert f[from..from + |line|] == line;
    DueStep(fname, f, from, cut, s, line, Next(pos, last, lineEnd));
  }

  lemma OwesNothing(total: seq<seq<byte>>, out: seq<seq<byte>>, fname: seq<byte>, f: seq<byte>, cut: nat, s: seq<byte>)
    requires Owes(total, out, fname, f, |f|, cut, s)
    ensures total == out
  {
    NothingDue(fname, f, cut, s);
  }

  lemma SameTail(a: seq<byte>, b: seq<byte>, from: nat, to: nat)
    requires SameFrom(a, b, from) && from <= to < |a|
    ensures a[from..to] == b[from..to] && a[to] == b[to]
  {
  }

  lemma FilledNulFree(f: seq<byte>, pos: nat, cut: nat, buf: seq<byte>, last: nat, from: nat, to: nat)
    requires Filled(f, pos, cut, buf, last) && NulFree(f) && from <= to <= last
    ensures NulFree(buf[from..to])
  {
    assert forall i :: 0 <= i < last ==> buf[i] == buf[..last][i] && buf[i] == f[pos - last..pos][i] && buf[i] != NUL;
  }

  /** A partial line goes to the front of the buffer. `buf` is the buffer as it was filled. */
  method ShiftDown(data: array<byte>, lineStart: nat, last: nat, ghost buf: seq<byte>, ghost f: seq<byte>,
                   ghost pos: nat, ghost cut: nat)
    returns (newLast: nat)
    requires data.Length == BUFSIZE + 1 && |buf| == BUFSIZE + 1 && 0 < lineStart <= last <= BUFSIZE
    requires SameFrom(data[..], buf, lineStart) && NEWLINE !in buf[lineStart..last] && buf[last] != NEWLINE
    requires NulFree(f) ==> Filled(f, pos, cut, buf, last)
    requires NoNewline(data[..], 0, lineStart)
    modifies data
    ensures newLast == last - lineStart
    ensures NulFree(f) ==> Pending(f, pos, cut, data[..], newLast)
    ensures NoNewline(buf, last, |buf|) ==> NoNewline(data[..], 0, |buf|)
  {
    hide StaleCut, CStr, Filled, Pending, NulFree, NoNewline, SameFrom, Patch, Terminated;
    ghost var was := data[..];
    SameTail(was, buf, lineStart, last);
    Store(data, last, NUL);
    ghost var tail := data[..];
    Closed(buf, was, tail, lineStart, last);
    LineClosed(was, lineStart, last);
    Strcpy(data, 0, data, lineStart);
    newLast := last - lineStart;
    Shifted(f, pos, cut, buf, last, lineStart, tail);
  }

  /** What the copy to the front leaves. */
  lemma Shifted(f: seq<byte>, pos: nat, cut: nat, buf: seq<byte>, last: nat, lineStart: nat, tail: seq<byte>)
    requires |buf| == |tail| == BUFSIZE + 1 && 0 < lineStart <= last <= BUFSIZE && Terminated(tail, lineStart)
    requires NEWLINE !in buf[lineStart..last] && buf[last] != NEWLINE
    requires |CStr(tail, lineStart)| <= last - lineStart
    requires NulFree(buf[lineStart..last]) ==> CStr(tail, lineStart) == buf[lineStart..last]
    requires tail[BUFSIZE] == if last == BUFSIZE then NUL else buf[BUFSIZE]
    requires NoNewline(tail, 0, last + 1) && SameFrom(tail, buf, last + 1)
    ensures var now := Patch(tail, 0, CStr(tail, lineStart) + [NUL]);
      && (NulFree(f) && Filled(f, pos, cut, buf, last) ==> Pending(f, pos, cut, now, last - lineStart))
      && (NoNewline(buf, last, |buf|) ==> NoNewline(now, 0, |buf|))
  {
    hide StaleCut, CStr, Filled, Pending, NoNewline, SameFrom, Terminated, NulFree;
    var w := CStr(tail, lineStart);
    ShiftedNoNewline(tail, buf, lineStart, last, w);
    if NulFree(f) && Filled(f, pos, cut, buf, last) {
      FilledNulFree(f, pos, cut, buf, last, lineStart, last);
      assert Patch(tail, 0, w + [NUL]) == w + [NUL] + tail[|w| + 1..];
      PartialKept(f, pos, cut, buf, last, lineStart, tail, Patch(tail, 0, w + [NUL]));
    }
  }

  /** One line: close it off, search it, report it. */
  method SearchAndPut(data: array<byte>, lineStart: nat, lineEnd: nat, last: nat, s: array<byte>, sLen: nat,
                      fname: seq<byte>,
                      ghost buf: seq<byte>, ghost f: seq<byte>, ghost pos: nat, ghost cut: nat)
    returns (out: seq<seq<byte>>)
    requires Terminated(s[..], 0) && sLen == |CStr(s[..], 0)| && s != data
    requires data.Length == BUFSIZE + 1 && |buf| == BUFSIZE + 1
    requires Searched(buf, last, lineStart, lineEnd) && SameFrom(data[..], buf, lineStart)
    requires NulFree(f) ==> Filled(f, pos, cut, buf, last)
    requires NoNewline(data[..], 0, lineStart)
    modifies data
    ensures SameFrom(data[..], buf, lineEnd + 1) && NoNewline(data[..], 0, lineEnd + 1)
    ensures data[BUFSIZE] == if lineEnd == BUFSIZE then NUL else buf[BUFSIZE]
    ensures NulFree(f) ==> Owes(Due(fname, f, pos - last + lineStart, cut, CStr(s[..], 0)), out,
                                fname, f, Next(pos, last, lineEnd), cut, CStr(s[..], 0))
  {
    hide StaleCut, Filled, Due, CStr, NulFree, NoNewline, SameFrom, Matches, Terminated, Owes;
    ghost var was, pat := data[..], CStr(s[..], 0);
    SameTail(was, buf, lineStart, lineEnd);
    LineClosed(was, lineStart, lineEnd);
    Store(data, lineEnd, NUL);
    Closed(buf, was, data[..], lineStart, lineEnd);
    out := [];
    var found := SearchLine(data, lineStart, lineEnd, s, sLen);
    if found {
      var text := Put(data, lineStart);
      out := Entry(fname, text);
    }
    if NulFree(f) {
      FilledNulFree(f, pos, cut, buf, last, lineStart, lineEnd);
      NoNulIn(buf[lineStart..lineEnd], pat);
      assert out == Hit(fname, buf[lineStart..lineEnd], pat);
      SearchedPiece(fname, f, pos, cut, buf, last, lineStart, lineEnd, pat);
    }
  }

  lemma NoNulIn(line: seq<byte>, s: seq<byte>)
    ensures NulFree(line) ==> NUL !in line
    ensures s == [] ==> !Matches(line, s)
  {
  }

  lemma FilledBounds(f: seq<byte>, pos: nat, cut: nat, buf: seq<byte>, last: nat)
    requires Filled(f, pos, cut, buf, last)
    ensures last <= pos <= |f| && cut <= |f|
  {
  }

  lemma NothingYet(buf: seq<byte>)
    ensures NoNewline(buf, 0, 0) && SameFrom(buf, buf, 0)
  {
  }

  /** The inner loop: search every complete line of the buffer, then move a partial one
      to the front. `f`, `pos` and `cut` say what the buffer holds. Unless there was a
      newline behind the bytes read, none is left anywhere. */
  method Consume(data: array<byte>, last: nat, cnt: nat, s: array<byte>, sLen: nat, fname: seq<byte>,
                 ghost f: seq<byte>, ghost pos: nat, ghost cut: nat)
    returns (newLast: nat, out: seq<seq<byte>>)
    requires Terminated(s[..], 0) && sLen == |CStr(s[..], 0)| && s != data
    requires data.Length == BUFSIZE + 1 && last <= BUFSIZE && (cnt == 0 ==> last < BUFSIZE)
    requires NulFree(f) ==> Filled(f, pos, cut, data[..], last)
    modifies data
    ensures newLast < BUFSIZE && newLast <= last && (cnt == 0 ==> newLast == 0)
    ensures NulFree(f) ==> Pending(f, pos, cut, data[..], newLast)
    ensures NulFree(f) ==> Owes(Due(fname, f, pos - last, cut, CStr(s[..], 0)), out,
                                fname, f, pos - newLast, cut, CStr(s[..], 0))
    ensures NoNewline(old(data[..]), last, BUFSIZE + 1) ==> NoNewline(data[..], 0, BUFSIZE + 1)
  {
    hide Due, StaleCut, NoNewline, SameFrom, Filled, Pending, CStr, NulFree, Owes, Terminated;
    ghost var pat, clean, buf := CStr(s[..], 0), NulFree(f), data[..];
    ghost var total := [];
    if clean {
      FilledBounds(f, pos, cut, buf, last);
      total := Due(fname, f, pos - last, cut, pat);
      OwesAll(fname, f, pos - last, cut, pat);
    }
    NothingYet(buf);
    newLast, out := last, [];
    var lineStart := 0;
    while true
      invariant newLast == last && (lineStart < last || lineStart == 0)
      invariant SameFrom(data[..], buf, lineStart) && NoNewline(data[..], 0, lineStart)
      invariant clean ==> Owes(total, out, fname, f, pos - last + lineStart, cut, pat)
      decreases last - lineStart
    {
      ghost var start := lineStart;
      var lineEnd := ScanLine(data, lineStart, last);
      SameTail(data[..], buf, lineStart, lineEnd);
      if data[lineEnd] != NEWLINE && cnt != 0 && lineStart != 0 {
        newLast := ShiftDown(data, lineStart, last, buf, f, pos, cut);
        break;
      }
      var text := SearchAndPut(data, lineStart, lineEnd, last, s, sLen, fname, buf, f, pos, cut);
      if clean {
        OwesLess(total, out, fname, f, pos - last + lineStart, cut, pat, text, Next(pos, last, lineEnd));
      }
      out := out + text;
      lineStart := lineEnd + 1;
      if lineStart >= last {
        NoneBehind(data[..], buf, last, lineEnd);
        if clean {
          AllConsumed(f, pos, cut, buf, last, start, lineEnd, data[..]);
        }
        newLast := 0;
        break;
      }
    }
  }

  /** One round of the outer loop: read behind the pending bytes, consume the buffer. */
  method Round(fd: File, data: array<byte>, last: nat, s: array<byte>, sLen: nat, fname: seq<byte>, ghost cut: nat)
    returns (newLast: nat, cnt: nat, out: seq<seq<byte>>)
    requires fd.Valid() && data.Length == BUFSIZE + 1 && last < BUFSIZE && s != data
    requires Terminated(s[..], 0) && sLen == |CStr(s[..], 0)|
    requires last <= fd.pos && cut <= |fd.contents|
    requires NulFree(fd.contents) ==> Pending(fd.contents, fd.pos, cut, data[..], last)
    modifies fd`pos, data
    ensures fd.Valid() && newLast < BUFSIZE && newLast <= fd.pos && cnt == fd.pos - old(fd.pos)
    ensures cnt == 0 <==> old(fd.pos) == |fd.contents|
    ensures cnt == 0 ==> newLast == 0
    ensures NulFree(fd.contents) ==> Pending(fd.contents, fd.pos, cut, data[..], newLast)
    ensures NulFree(fd.contents) ==> Owes(Due(fname, fd.contents, old(fd.pos) - last, cut, CStr(s[..], 0)), out,
                                          fname, fd.contents, fd.pos - newLast, cut, CStr(s[..], 0))
    ensures NoNewline(old(data[..]), last, BUFSIZE + 1) ==> NoNewline(data[..], 0, BUFSIZE + 1)
  {
    hide Due, StaleCut, CStr, Filled, NulFree, NoNewline, Pending, Owes, Terminated;
    ghost var pos, buf := fd.pos, data[..];
    cnt := fd.Read(data, last, BUFSIZE - last);
    NoneReadBehind(buf, last, cnt, data[..]);
    if NulFree(fd.contents) {
      ReadFills(fd.contents, pos, cut, buf, last, cnt, data[..]);
    }
    newLast, out := Consume(data, last + cnt, cnt, s, sLen, fname, fd.contents, fd.pos, cut);
  }

  lemma Narrower(buf: seq<byte>, last: nat)
    ensures NoNewline(buf, 0, BUFSIZE + 1) ==> NoNewline(buf, last, BUFSIZE + 1)
  {
  }

  /** The outer loop, up to a read that returns nothing. */
  method ScanFile(fd: File, data: array<byte>, s: array<byte>, sLen: nat, fname: seq<byte>, ghost cut: nat)
    returns (out: seq<seq<byte>>)
    requires fd.Valid() && data.Length == BUFSIZE + 1 && s != data && cut <= |fd.contents|
    requires Terminated(s[..], 0) && sLen == |CStr(s[..], 0)|
    requires NulFree(fd.contents) ==> Pending(fd.contents, fd.pos, cut, data[..], 0)
    modifies fd`pos, data
    ensures NulFree(fd.contents) ==> out == Due(fname, fd.contents, old(fd.pos), cut, CStr(s[..], 0))
    ensures NoNewline(old(data[..]), 0, BUFSIZE + 1) ==> NoNewline(data[..], 0, BUFSIZE + 1)
  {
    hide Due, Pending, CStr, NulFree, NoNewline, Owes, Terminated;
    ghost var f, pat, clean := fd.contents, CStr(s[..], 0), NulFree(fd.contents);
    ghost var blank, total := NoNewline(data[..], 0, BUFSIZE + 1), Due(fname, f, fd.pos, cut, pat);
    OwesAll(fname, f, fd.pos, cut, pat);
    var last: nat := 0;
    out := [];
    while true
      invariant fd.Valid() && last < BUFSIZE && last <= fd.pos
      invariant clean ==> Pending(f, fd.pos, cut, data[..], last)
      invariant clean ==> Owes(total, out, fname, f, fd.pos - last, cut, pat)
      invariant blank ==> NoNewline(data[..], 0, BUFSIZE + 1)
      decreases |f| - fd.pos
    {
      Narrower(data[..], last);
      ghost var at := fd.pos - last;
      var cnt: nat, more: seq<seq<byte>>;
      last, cnt, more := Round(fd, data, last, s, sLen, fname, cut);
      if clean {
        OwesLess(total, out, fname, f, at, cut, pat, more, fd.pos - last);
      }
      out := out + more;
      if cnt == 0 {
        break;
      }
    }
    if clean {
      OwesNothing(total, out, fname, f, cut, pat);
    }
  }

  lemma StartsPending(f: seq<byte>, buf: seq<byte>)
    requires |buf| == BUFSIZE + 1
    ensures Pending(f, 0, Cut(f, buf[BUFSIZE]), buf, 0)
  {
    hide StaleCut;
    ShortUncut(f);
  }

  lemma ShortUncut(f: seq<byte>)
    ensures f == [] ==> StaleCut(f, 0) == 0
  {
  }

  /** Four writes for each line: the file's name, a colon, the line and a newline. */
  ghost predicate Reports(out: seq<seq<byte>>, fname: seq<byte>, ms: seq<seq<byte>>) {
    && |out| == 4 * |ms|
    && forall i :: 0 <= i < |ms| ==>
         out[4 * i] == fname && out[4 * i + 1] == [58] && out[4 * i + 2] == ms[i] && out[4 * i + 3] == [10]
  }

  lemma {:induction false} ReportSize(fname: seq<byte>, ms: seq<seq<byte>>)
    ensures |Report(fname, ms)| == 4 * |ms|
    decreases |ms|
  {
    if ms != [] {
      ReportSize(fname, ms[1..]);
    }
  }

  /** One line's four writes, at position 4 i. */
  ghost predicate WritesAt(out: seq<seq<byte>>, at: nat, fname: seq<byte>, line: seq<byte>) {
    at + 4 <= |out| && out[at] == fname && out[at + 1] == [58] && out[at + 2] == line && out[at + 3] == [10]
  }

  lemma WritesMove(entry: seq<seq<byte>>, rest: seq<seq<byte>>, at: nat, fname: seq<byte>, line: seq<byte>)
    requires |entry| == 4 && WritesAt(rest, at, fname, line)
    ensures WritesAt(entry + rest, at + 4, fname, line)
  {
  }

  lemma {:induction false} ReportAt(fname: seq<byte>, ms: seq<seq<byte>>, i: nat)
    requires i < |ms|
    ensures WritesAt(Report(fname, ms), 4 * i, fname, ms[i])
    decreases i
  {
    hide WritesAt;
    if i == 0 {
      FirstWrites(fname, ms[0], Report(fname, ms[1..]));
    } else {
      ReportAt(fname, ms[1..], i - 1);
      WritesMove(Entry(fname, ms[0]), Report(fname, ms[1..]), 4 * (i - 1), fname, ms[i]);
    }
  }

  lemma FirstWrites(fname: seq<byte>, line: seq<byte>, rest: seq<seq<byte>>)
    ensures WritesAt(Entry(fname, line) + rest, 0, fname, line)
  {
  }

  lemma ReportWrites(fname: seq<byte>, ms: seq<seq<byte>>)
    ensures Reports(Report(fname, ms), fname, ms)
  {
    hide Report;
    var out := Report(fname, ms);
    ReportSize(fname, ms);
    forall i | 0 <= i < |ms|
      ensures out[4 * i] == fname && out[4 * i + 1] == [58] && out[4 * i + 2] == ms[i] && out[4 * i + 3] == [10]
    {
      ReportAt(fname, ms, i);
    }
  }

  /** Two lists with the same writes are the same list. */
  lemma ReportsTells(out: seq<seq<byte>>, fname: seq<byte>, a: seq<seq<byte>>, b: seq<seq<byte>>)
    requires Reports(out, fname, a)
    ensures Reports(out, fname, b) <==> a == b
  {
    if Reports(out, fname, b) {
      forall i | 0 <= i < |a|
        ensures a[i] == b[i]
      {
        assert out[4 * i + 2] == a[i] && out[4 * i + 2] == b[i];
      }
    }
  }

  /** The message when the file cannot be opened. */
  lemma OpenMessage()
    ensures |FileOpenFailed()| == 17 && forall i :: 0 <= i < 17 ==> FileOpenFailed()[i] == "file open failed\n"[i] as int
  {
  }

  /** do_one_file. `contents` is the file that fname names, if it can be opened, and
      `stale` is what the stack holds where the buffer goes. */
  method DoOneFile(s: array<byte>, fname: seq<byte>, contents: Option<seq<byte>>, stale: seq<byte>)
    returns (r: int, out: seq<seq<byte>>)
    requires Terminated(s[..], 0) && |stale| == BUFSIZE + 1
    ensures r == if contents.None? then -1 else 0
    ensures contents.None? ==> out == [FileOpenFailed()]
    ensures contents.Some? && NulFree(contents.value) ==>
      Reports(out, fname,
              Matching(PiecesFrom(contents.value, 0, Cut(contents.value, stale[BUFSIZE])), CStr(s[..], 0)))
    ensures contents.Some? && NulFree(contents.value) ==>
      (Reports(out, fname, Matching(Lines(contents.value), CStr(s[..], 0)))
       <==> MatchesFit(Lines(contents.value), CStr(s[..], 0))
            && Harmless(contents.value, Cut(contents.value, stale[BUFSIZE]), CStr(s[..], 0)))
    ensures (contents.Some? && NulFree(contents.value) && MatchesFit(Lines(contents.value), CStr(s[..], 0))
             && Harmless(contents.value, Cut(contents.value, stale[BUFSIZE]), CStr(s[..], 0))) ==>
      var ms := Matching(Lines(contents.value), CStr(s[..], 0));
      && |out| == 4 * |ms|
      && forall i :: 0 <= i < |ms| ==>
           out[4 * i] == fname && out[4 * i + 1] == [58] && out[4 * i + 2] == ms[i] && out[4 * i + 3] == [10]
  {
    hide Due, StaleCut, Harmless, MatchesFit, CStr, Lines, Report, Matching, Reports;
    if contents.None? {
      return -1, [FileOpenFailed()];
    }
    var sLen := Strlen(s, 0);
    var fd := new File(contents.value);
    var data := new byte[BUFSIZE + 1](i requires 0 <= i < |stale| => stale[i]);
    StartsPending(contents.value, data[..]);
    out := ScanFile(fd, data, s, sLen, fname, Cut(contents.value, stale[BUFSIZE]));
    DueReports(fname, contents.value, Cut(contents.value, stale[BUFSIZE]), CStr(s[..], 0));
    GrepIsLineSearch(fname, contents.value, stale[BUFSIZE], CStr(s[..], 0));
    ReportsAre(out, fname, Matching(Lines(contents.value), CStr(s[..], 0)));
    r := 0;
  }

  lemma ReportsAre(out: seq<seq<byte>>, fname: seq<byte>, ms: seq<seq<byte>>)
    ensures Reports(out, fname, ms) ==> |out| == 4 * |ms|
    ensures Reports(out, fname, ms) ==> forall i :: 0 <= i < |ms| ==>
      out[4 * i] == fname && out[4 * i + 1] == [58] && out[4 * i + 2] == ms[i] && out[4 * i + 3] == [10]
  {
  }

  lemma DueReports(fname: seq<byte>, f: seq<byte>, cut: nat, s: seq<byte>)
    requires cut <= |f|
    ensures Reports(Due(fname, f, 0, cut, s), fname, Matching(PiecesFrom(f, 0, cut), s))
  {
    hide Matching, PiecesFrom, Report, Reports;
    ReportWrites(fname, Matching(PiecesFrom(f, 0, cut), s));
  }

  // ----- what the buffer makes of lines

  lemma OccursIn(line: seq<byte>, s: seq<byte>, a: nat, b: nat)
    requires a <= b <= |line| && Matches(line[a..b], s)
    ensures Matches(line, s)
  {
    var k: nat :| Occurs(line[a..b], s, k);
    assert forall i :: 0 <= i < |s| ==> line[a + k + i] == line[a..b][k + i] && s[i] == line[a..b][k..k + |s|][i];
    assert Occurs(line, s, a + k);
  }

  ghost predicate MatchesFit(ls: seq<seq<byte>>, s: seq<byte>) {
    forall i :: 0 <= i < |ls| && Matches(ls[i], s) ==> |ls[i]| <= BUFSIZE
  }

  lemma MatchingCons(line: seq<byte>, ls: seq<seq<byte>>, s: seq<byte>)
    ensures Matching([line] + ls, s) == (if Matches(line, s) then [line] else []) + Matching(ls, s)
  {
    assert ([line] + ls)[1..] == ls;
  }

  /** Cutting lines that do not match changes nothing. */
  lemma {:induction false} FittingLines(f: seq<byte>, s: seq<byte>)
    requires MatchesFit(Lines(f), s)
    ensures Matching(Pieces(f), s) == Matching(Lines(f), s)
    decreases |f|, 1
  {
    var k := LineLength(f);
    var line := f[..k];
    if k == |f| <= BUFSIZE {
      assert f[..k] == f;
      if f != [] {
        assert Pieces(f) == [f];
      }
      assert !Matches([], s);
    } else if k < BUFSIZE {
      FittingTail(line, Lines(f[k + 1..]), s);
      FittingLines(f[k + 1..], s);
      MatchingCons(line, Pieces(f[k + 1..]), s);
      MatchingCons(line, Lines(f[k + 1..]), s);
    } else {
      FittingLongLine(f, s);
    }
  }

  /** What follows a first line of length n. */
  function Rest(f: seq<byte>, n: nat): seq<seq<byte>>
    requires n <= |f|
  {
    if n == |f| then [] else Lines(f[n + 1..])
  }

  lemma LinesHead(f: seq<byte>, n: nat)
    requires n <= |f| && NEWLINE !in f[..n] && (n < |f| ==> f[n] == NEWLINE)
    ensures Lines(f) == [f[..n]] + Rest(f, n)
  {
    LineLengthIs(f, n);
    hide LineLength;
    assert n == |f| ==> f[..n] == f;
  }

  /** Behind a cut inside the first line the rest of that line comes first. */
  lemma CutShape(f: seq<byte>, cut: nat)
    requires cut <= LineLength(f)
    ensures Lines(f[cut..]) == [f[cut..LineLength(f)]] + Rest(f, LineLength(f))
  {
    hide Lines, LineLength;
    var k, g := LineLength(f), f[cut..];
    var n := k - cut;
    assert g[..n] == f[..k][cut..] == f[cut..k];
    LinesHead(g, n);
    if k < |f| {
      assert g[n + 1..] == f[k + 1..];
    }
  }

  lemma PartsOfLine(line: seq<byte>, s: seq<byte>, k: nat)
    requires k <= |line| && !Matches(line, s)
    ensures !Matches(line[..k], s) && !Matches(line[k..], s)
  {
    assert line[0..k] == line[..k] && line[k..|line|] == line[k..];
    if Matches(line[..k], s) {
      OccursIn(line, s, 0, k);
    } else if Matches(line[k..], s) {
      OccursIn(line, s, k, |line|);
    }
  }

  lemma {:induction false} FittingLongLine(f: seq<byte>, s: seq<byte>)
    requires MatchesFit(Lines(f), s) && BUFSIZE <= LineLength(f) && BUFSIZE < |f|
    ensures Matching(Pieces(f), s) == Matching(Lines(f), s)
    decreases |f|, 0
  {
    var k, g := LineLength(f), f[BUFSIZE..];
    var line, head, mid := f[..k], f[..BUFSIZE], f[BUFSIZE..k];
    var rest := Rest(f, k);
    hide Rest, Matching;
    LinesHead(f, k);
    CutShape(f, BUFSIZE);
    FittingTail(line, rest, s);
    assert line[..BUFSIZE] == head && line[BUFSIZE..] == mid;
    if k > BUFSIZE {
      assert !Matches(([line] + rest)[0], s);
      PartsOfLine(line, s, BUFSIZE);
    } else {
      assert mid == [] && head == line && !Matches(mid, s);
    }
    assert MatchesFit([mid] + rest, s);
    PiecesHead(f, BUFSIZE, BUFSIZE);
    FittingLines(g, s);
    SameMatches(line, head, mid, rest, Pieces(g), s);
  }

  lemma SameMatches(line: seq<byte>, head: seq<byte>, mid: seq<byte>, rest: seq<seq<byte>>,
                    ps: seq<seq<byte>>, s: seq<byte>)
    requires Matching(ps, s) == Matching([mid] + rest, s) && !Matches(mid, s)
    requires head == line || (!Matches(head, s) && !Matches(line, s))
    ensures Matching([head] + ps, s) == Matching([line] + rest, s)
  {
    MatchingCons(head, ps, s);
    MatchingCons(line, rest, s);
    MatchingCons(mid, rest, s);
    hide Matching, Matches;
    assert [] + Matching(rest, s) == Matching(rest, s);
  }

  lemma FittingTail(line: seq<byte>, ls: seq<seq<byte>>, s: seq<byte>)
    requires MatchesFit([line] + ls, s)
    ensures MatchesFit(ls, s)
  {
    assert forall i :: 0 <= i < |ls| ==> ls[i] == ([line] + ls)[i + 1];
  }

  lemma {:induction false} PiecesFit(f: seq<byte>, p: seq<byte>)
    requires p in Pieces(f)
    ensures |p| <= BUFSIZE
    decreases |f|
  {
    hide PieceLength, PieceNext;
    if p != f[..PieceLength(f)] {
      PiecesFit(f[PieceNext(f)..], p);
    }
  }

  lemma {:induction false} MatchingHas(ls: seq<seq<byte>>, s: seq<byte>, p: seq<byte>)
    ensures p in Matching(ls, s) <==> p in ls && Matches(p, s)
  {
    if ls != [] {
      MatchingHas(ls[1..], s, p);
      assert p in ls <==> p == ls[0] || p in ls[1..];
    }
  }

  // ----- a file cut in two

  /** The line that position cut lies in, or ends. */
  function LineAround(f: seq<byte>, cut: nat): seq<byte>
    requires cut <= |f|
  {
    var k := LineLength(f);
    if cut <= k then f[..k] else LineAround(f[k + 1..], cut - k - 1)
  }

  /** Cutting a file inside a line makes two of that line and leaves the others alone. */
  lemma {:induction false} CutInLine(f: seq<byte>, cut: nat)
    returns (before: seq<seq<byte>>, head: seq<byte>, tail: seq<byte>, behind: seq<seq<byte>>)
    requires 0 < cut <= |f| && f[cut - 1] != NEWLINE
    ensures head != [] && head + tail == LineAround(f, cut) && (tail == [] <==> cut == |f| || f[cut] == NEWLINE)
    ensures Lines(f) == before + [head + tail] + behind
    ensures Lines(f[..cut]) == before + [head] && Lines(f[cut..]) == [tail] + behind
  {
    hide Lines, LineLength, LineAround, Rest;
    var k := LineLength(f);
    AroundStep(f, cut);
    if cut <= k {
      before, head, tail, behind := [], f[..cut], f[cut..k], Rest(f, k);
      CutFirstLine(f, cut);
      FirstOf(head, tail, behind);
    } else {
      var g, line := f[k + 1..], f[..k];
      CutLater(f, cut);
      before, head, tail, behind := CutInLine(g, cut - k - 1);
      PushLine(line, before, [head + tail], behind);
      PushLine(line, before, [head], []);
      before := [line] + before;
    }
  }

  lemma AroundStep(f: seq<byte>, cut: nat)
    requires 0 < cut <= |f| && f[cut - 1] != NEWLINE
    ensures var k := LineLength(f);
      if cut <= k then LineAround(f, cut) == f[..k] && (cut < k ==> f[cut] != NEWLINE) && (k < |f| ==> f[k] == NEWLINE)
      else k + 1 < cut && LineAround(f, cut) == LineAround(f[k + 1..], cut - k - 1)
  {
    hide LineLength;
    AroundIs(f, cut);
    NoneWithin(f, LineLength(f), cut);
  }

  lemma AroundIs(f: seq<byte>, cut: nat)
    requires cut <= |f|
    ensures var k := LineLength(f);
      LineAround(f, cut) == if cut <= k then f[..k] else LineAround(f[k + 1..], cut - k - 1)
  {
    hide LineLength;
  }

  lemma NoneWithin(f: seq<byte>, k: nat, i: nat)
    requires k <= |f| && NEWLINE !in f[..k]
    ensures i < k ==> f[i] != NEWLINE
  {
    assert i < k ==> f[i] in f[..k];
  }

  lemma FirstOf(head: seq<byte>, tail: seq<byte>, behind: seq<seq<byte>>)
    ensures [head + tail] + behind == [] + [head + tail] + behind && [head] == [] + [head]
  {
  }

  lemma PushLine(line: seq<byte>, a: seq<seq<byte>>, b: seq<seq<byte>>, c: seq<seq<byte>>)
    ensures [line] + (a + b + c) == [line] + a + b + c && [line] + (a + b) == [line] + a + b
  {
  }

  lemma OneLine(f: seq<byte>, cut: nat)
    requires cut <= LineLength(f)
    ensures Lines(f[..cut]) == [f[..cut]]
  {
    hide Lines, LineLength, Rest;
    var p := f[..cut];
    assert p[..cut] == p == f[..LineLength(f)][..cut];
    LinesHead(p, cut);
    RestNone(p);
  }

  lemma CutFirstLine(f: seq<byte>, cut: nat)
    requires 0 < cut <= LineLength(f)
    ensures var k := LineLength(f);
      && Lines(f) == [f[..k]] + Rest(f, k) && Lines(f[..cut]) == [f[..cut]]
      && Lines(f[cut..]) == [f[cut..k]] + Rest(f, k) && f[..cut] + f[cut..k] == f[..k]
  {
    hide Lines, Rest;
    LinesHead(f, LineLength(f));
    CutShape(f, cut);
    OneLine(f, cut);
    hide LineLength;
    SubSlice(f, 0, LineLength(f), 0, cut);
  }

  lemma RestNone(f: seq<byte>)
    ensures Rest(f, |f|) == []
  {
  }

  /** A cut behind the first line leaves that line and cuts the rest. */
  lemma CutLater(f: seq<byte>, cut: nat)
    requires LineLength(f) < cut <= |f|
    ensures Lines(f) == [f[..LineLength(f)]] + Lines(f[LineLength(f) + 1..])
    ensures Lines(f[..cut]) == [f[..LineLength(f)]] + Lines(f[LineLength(f) + 1..][..cut - LineLength(f) - 1])
    ensures f[cut..] == f[LineLength(f) + 1..][cut - LineLength(f) - 1..]
  {
    hide Lines, LineLength;
    SlicesOfCut(f, LineLength(f), cut);
    FirstThenRest(f, LineLength(f));
    FirstThenRest(f[..cut], LineLength(f));
  }

  lemma SlicesOfCut(f: seq<byte>, k: nat, cut: nat)
    requires k < cut <= |f|
    ensures f[..cut][..k] == f[..k] && f[..cut][k] == f[k]
    ensures f[..cut][k + 1..] == f[k + 1..][..cut - k - 1] && f[cut..] == f[k + 1..][cut - k - 1..]
  {
  }

  lemma FirstThenRest(f: seq<byte>, k: nat)
    requires k < |f| && f[k] == NEWLINE && NEWLINE !in f[..k]
    ensures Lines(f) == [f[..k]] + Lines(f[k + 1..])
  {
    hide Lines, LineLength;
    LinesHead(f, k);
  }

  lemma {:induction false} MatchingConcat(a: seq<seq<byte>>, b: seq<seq<byte>>, s: seq<byte>)
    ensures Matching(a + b, s) == Matching(a, s) + Matching(b, s)
  {
    if a == [] {
      assert a + b == b;
    } else {
      MatchingConcat(a[1..], b, s);
      assert a + b == [a[0]] + (a[1..] + b) && a == [a[0]] + a[1..];
      hide Matching, Matches;
      MatchingCons(a[0], a[1..] + b, s);
      MatchingCons(a[0], a[1..], s);
    }
  }

  lemma MatchingOne(line: seq<byte>, s: seq<byte>)
    ensures Matching([line], s) == if Matches(line, s) then [line] else []
  {
  }

  lemma Cancel<T>(p: seq<T>, x: seq<T>, y: seq<T>, q: seq<T>)
    ensures p + x + q == p + y + q <==> x == y
  {
    var u, v := p + x + q, p + y + q;
    if u == v {
      assert |x| == |y|;
      assert forall i :: 0 <= i < |x| ==> x[i] == u[|p| + i] && y[i] == v[|p| + i];
    }
  }

  /** Where a cut does no harm: at the end of a line, or inside one that does not match. */
  ghost predicate Harmless(f: seq<byte>, cut: nat, s: seq<byte>)
    requires cut <= |f|
  {
    cut == 0 || cut == |f| || f[cut] == NEWLINE || !Matches(LineAround(f, cut), s)
  }

  lemma ChangedMatches(before: seq<seq<byte>>, head: seq<byte>, tail: seq<byte>, behind: seq<seq<byte>>, s: seq<byte>)
    requires head != []
    ensures Matching(before + [head] + ([tail] + behind), s) == Matching(before + [head + tail] + behind, s)
      <==> tail == [] || !Matches(head + tail, s)
  {
    var line := head + tail;
    assert line[..|head|] == head && line[|head|..] == tail;
    if !Matches(line, s) {
      PartsOfLine(line, s, |head|);
    }
    assert tail == [] ==> line == head;
    MatchingOne(head, s);
    MatchingOne(tail, s);
    MatchingOne(line, s);
    assert Matching([head], s) + Matching([tail], s) == Matching([line], s) <==> tail == [] || !Matches(line, s);
    hide Matching, Matches;
    MatchingConcat(before + [head], [tail] + behind, s);
    MatchingConcat(before, [head], s);
    MatchingConcat([tail], behind, s);
    MatchingConcat(before + [line], behind, s);
    MatchingConcat(before, [line], s);
    Around(Matching(before, s), Matching([head], s), Matching([tail], s), Matching(behind, s));
    Cancel(Matching(before, s), Matching([head], s) + Matching([tail], s), Matching([line], s), Matching(behind, s));
  }

  lemma Around<T>(a: seq<T>, b: seq<T>, c: seq<T>, d: seq<T>)
    ensures (a + b) + (c + d) == a + (b + c) + d
  {
  }

  lemma CutKeepsMatchesIff(f: seq<byte>, cut: nat, s: seq<byte>)
    requires 0 < cut <= |f| && f[cut - 1] != NEWLINE
    ensures Matching(Lines(f[..cut]) + Lines(f[cut..]), s) == Matching(Lines(f), s) <==> Harmless(f, cut, s)
    ensures MatchesFit(Lines(f), s) ==> MatchesFit(Lines(f[..cut]), s) && MatchesFit(Lines(f[cut..]), s)
  {
    var before, head, tail, behind := CutInLine(f, cut);
    hide Lines, LineAround, Matching;
    ChangedMatches(before, head, tail, behind, s);
    if MatchesFit(Lines(f), s) {
      PartsFit(before, head, tail, behind, s);
    }
  }

  lemma PartsFit(before: seq<seq<byte>>, head: seq<byte>, tail: seq<byte>, behind: seq<seq<byte>>, s: seq<byte>)
    requires MatchesFit(before + [head + tail] + behind, s)
    ensures MatchesFit(before + [head], s) && MatchesFit([tail] + behind, s)
  {
    var line, all := head + tail, before + [head + tail] + behind;
    assert line[0..|head|] == head && line[|head|..|line|] == tail && all[|before|] == line;
    if Matches(head, s) {
      OccursIn(line, s, 0, |head|);
    }
    if Matches(tail, s) {
      OccursIn(line, s, |head|, |line|);
    }
    assert forall i :: 0 <= i < |before| ==> (before + [head])[i] == all[i];
    assert forall i :: 0 < i <= |behind| ==> ([tail] + behind)[i] == all[|before| + i];
  }

  lemma PiecesFromFit(f: seq<byte>, cut: nat, p: seq<byte>)
    requires cut <= |f| && p in PiecesFrom(f, 0, cut)
    ensures |p| <= BUFSIZE
  {
    if p in Pieces(f[0..]) {
      PiecesFit(f[0..], p);
    } else if p in Pieces(f[0..cut]) {
      PiecesFit(f[0..cut], p);
    } else {
      PiecesFit(f[cut..], p);
    }
  }

  lemma FittingPieces(f: seq<byte>, cut: nat, s: seq<byte>)
    requires cut <= |f| && (cut > 0 ==> f[cut - 1] != NEWLINE) && MatchesFit(Lines(f), s)
    ensures Matching(PiecesFrom(f, 0, cut), s) == Matching(Lines(f), s) <==> Harmless(f, cut, s)
  {
    if cut == 0 {
      assert f[0..] == f;
      FittingLines(f, s);
    } else {
      assert f[0..cut] == f[..cut];
      CutKeepsMatchesIff(f, cut, s);
      FittingLines(f[..cut], s);
      FittingLines(f[cut..], s);
      hide Lines, Pieces, Harmless, Matching;
      MatchingConcat(Pieces(f[..cut]), Pieces(f[cut..]), s);
      MatchingConcat(Lines(f[..cut]), Lines(f[cut..]), s);
    }
  }

  /** grep reports exactly the lines that hold the pattern, in file order and once each,
      if and only if each of those lines fits the buffer and is not cut because of a stale
      newline behind it. */
  lemma GrepIsLineSearch(fname: seq<byte>, f: seq<byte>, stale: byte, s: seq<byte>)
    ensures Reports(Due(fname, f, 0, Cut(f, stale), s), fname, Matching(Lines(f), s))
      <==> MatchesFit(Lines(f), s) && Harmless(f, Cut(f, stale), s)
  {
    hide Matching, Reports, Due, Harmless, Lines, PiecesFrom, StaleCut;
    var cut := Cut(f, stale);
    DueReports(fname, f, cut, s);
    ReportsTells(Due(fname, f, 0, cut, s), fname, Matching(PiecesFrom(f, 0, cut), s), Matching(Lines(f), s));
    if MatchesFit(Lines(f), s) {
      CutBehindText(f, stale);
      FittingPieces(f, cut, s);
    } else {
      var i :| 0 <= i < |Lines(f)| && Matches(Lines(f)[i], s) && |Lines(f)[i]| > BUFSIZE;
      MatchingHas(Lines(f), s, Lines(f)[i]);
      MatchingHas(PiecesFrom(f, 0, cut), s, Lines(f)[i]);
      if Lines(f)[i] in PiecesFrom(f, 0, cut) {
        PiecesFromFit(f, cut, Lines(f)[i]);
      }
    }
  }

  lemma CutBehindText(f: seq<byte>, stale: byte)
    ensures Cut(f, stale) > 0 ==> f[Cut(f, stale) - 1] != NEWLINE
  {
  }

  /** A file whose second line, of 1024 bytes, ends in "ab". */
  function StaleSample(): seq<byte> {
    [NEWLINE] + seq(1022, _ => 120) + [97, 98]
  }

  lemma StaleSampleLines()
    ensures Lines(StaleSample()) == [[], StaleSample()[1..]]
  {
    var f := StaleSample();
    var line := f[1..];
    LineLengthIs(f, 0);
    LineLengthIs(line, 1024);
    hide LineLength, StaleSample;
    assert f[..0] == [];
  }

  lemma NoPieces()
    ensures Pieces([]) == []
  {
  }

  lemma StaleSamplePieces()
    ensures Pieces(StaleSample()[..1024]) == [[], StaleSample()[1..1024]]
    ensures Pieces(StaleSample()[1024..]) == [[98]]
    ensures 98 !in StaleSample()[1..1024] && |StaleSample()| == 1025
  {
    hide Pieces;
    var p, q := StaleSample()[..1024], StaleSample()[1024..];
    var line := p[1..];
    assert line == StaleSample()[1..1024];
    PiecesHead(line, 1023, 1023);
    assert line[..1023] == line && line[1023..] == [];
    NoPieces();
    assert Pieces(line) == [line];
    assert p[..0] == [];
    PiecesHead(p, 0, 1);
    assert q == [98];
    PiecesHead(q, 1, 1);
    assert q[..1] == q && q[1..] == [];
  }

  /** The pattern "ab". */
  function Ab(): seq<byte> { [97, 98] }

  lemma MatchHas(line: seq<byte>, s: seq<byte>, i: nat)
    requires i < |s|
    ensures Matches(line, s) ==> s[i] in line
  {
    if k: nat :| Occurs(line, s, k) {
      assert line[k + i] == line[k..k + |s|][i];
    }
  }

  lemma StaleSampleDue(fname: seq<byte>)
    ensures Due(fname, StaleSample(), 0, 1024, Ab()) == []
  {
    hide StaleSample, Pieces;
    StaleSamplePieces();
    var f, cutLine := StaleSample(), StaleSample()[1..1024];
    assert f[0..1024] == f[..1024];
    assert PiecesFrom(f, 0, 1024) == [[], cutLine] + [[98]] == [[], cutLine, [98]];
    MatchHas(cutLine, Ab(), 1);
    MatchHas([98], Ab(), 0);
    MatchingCons([], [cutLine, [98]], Ab());
    MatchingCons(cutLine, [[98]], Ab());
    MatchingCons([98], [], Ab());
  }

  /** With a stale newline behind the buffer a line that fits can be missed. */
  lemma StaleNewlineLosesALine(fname: seq<byte>)
    ensures var f := StaleSample();
      && MatchesFit(Lines(f), Ab())
      && Matching(Lines(f), Ab()) == [f[1..]]
      && Due(fname, f, 0, Cut(f, NEWLINE), Ab()) == []
  {
    StaleSampleMatch();
    StaleSampleDue(fname);
    assert StaleCut(StaleSample(), 0) == 1024;
  }

  lemma StaleSampleMatch()
    ensures MatchesFit(Lines(StaleSample()), Ab())
    ensures Matching(Lines(StaleSample()), Ab()) == [StaleSample()[1..]]
  {
    hide Lines;
    StaleSampleLines();
    var line := StaleSample()[1..];
    assert line[1022] == 97 && line[1023] == 98;
    assert Occurs(line, Ab(), 1022);
    hide StaleSample;
    MatchingCons([], [line], Ab());
    MatchingCons(line, [], Ab());
  }
}
