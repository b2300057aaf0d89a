/** ece391emulate.c: the command tokenizer of execute, and getargs, which puts the
    arguments together again. */
module Arguments {
  import opened Bytes
  import opened CString

  const COMMAND_MAX: nat := 1023
  const BUF_SIZE: nat := 1026
  const ARGV_SIZE: nat := 1024
  const NULL: int := -1
  const DOT: byte := 46
  const SLASH: byte := 47

  predicate Stops(ch: byte) { ch == SPACE || ch == NEWLINE }

  function WordEnd(c: seq<byte>, at: nat): (e: nat)
    requires at <= |c|
    ensures at <= e <= |c| && (e < |c| ==> Stops(c[e]))
    decreases |c| - at
  {
    if at == |c| || Stops(c[at]) then at else WordEnd(c, at + 1)
  }

  function SkipBlanks(c: seq<byte>, at: nat): (s: nat)
    requires at <= |c|
    ensures at <= s <= |c| && (s < |c| ==> c[s] != SPACE)
    decreases |c| - at
  {
    if at == |c| || c[at] != SPACE then at else SkipBlanks(c, at + 1)
  }

  lemma {:induction false} WordSpan(c: seq<byte>, at: nat)
    requires at <= |c|
    ensures forall i :: at <= i < WordEnd(c, at) ==> !Stops(c[i])
    decreases |c| - at
  {
    if at < |c| && !Stops(c[at]) {
      WordSpan(c, at + 1);
    }
  }

  lemma {:induction false} BlankSpan(c: seq<byte>, at: nat)
    requires at <= |c|
    ensures forall i :: at <= i < SkipBlanks(c, at) ==> c[i] == SPACE
    decreases |c| - at
  {
    if at < |c| && c[at] == SPACE {
      BlankSpan(c, at + 1);
    }
  }

  lemma {:induction false} WordEndIs(c: seq<byte>, at: nat, e: nat)
    requires at <= e <= |c| && (forall i :: at <= i < e ==> !Stops(c[i])) && (e < |c| ==> Stops(c[e]))
    ensures WordEnd(c, at) == e
    decreases e - at
  {
    if at < e {
      WordEndIs(c, at + 1, e);
    }
  }

  /** The words from a position on. A newline where a word would start ends the command;
      one behind a word only ends the word. */
  function WordsFrom(c: seq<byte>, at: nat): (ws: seq<seq<byte>>)
    requires at <= |c|
    decreases |c| - at
  {
    var s := SkipBlanks(c, at);
    if s == |c| || c[s] == NEWLINE then [] else
      var e := WordEnd(c, s);
      [c[s..e]] + WordsFrom(c, Min(e + 1, |c|))
  }

  function Tokens(c: seq<byte>): (ws: seq<seq<byte>>)
    ensures |ws| > 0
  {
    var e := WordEnd(c, 0);
    [[DOT, SLASH] + c[..e]] + WordsFrom(c, Min(e + 1, |c|))
  }

  // ----- the tokenizer

  ghost predicate WordAt(m: seq<byte>, a: int, w: seq<byte>) {
    0 <= a && a + |w| < |m| && m[a..a + |w|] == w && m[a + |w|] == NUL && NulFree(w)
  }

  /** The pointers so far lead to the words so far, which end at or before `scan`. */
  ghost predicate Placed(m: seq<byte>, args: seq<int>, ws: seq<seq<byte>>, scan: nat) {
    |args| == |ws| && forall i :: 0 <= i < |ws| ==> WordAt(m, args[i], ws[i]) && args[i] + |ws[i]| <= scan
  }

  /** From `scan` on, the buffer still holds the command behind its prefix. */
  ghost predicate Unread(m: seq<byte>, c: seq<byte>, scan: nat) {
    |m| == BUF_SIZE && |c| <= COMMAND_MAX && 2 <= scan <= |c| + 2
    && forall k :: scan <= k <= |c| + 2 ==> m[k] == (c + [NUL])[k - 2]
  }

  lemma TerminatorKeeps(m: seq<byte>, args: seq<int>, ws: seq<seq<byte>>, scan: nat)
    requires Placed(m, args, ws, scan) && scan < |m|
    ensures Placed(m[scan := NUL], args, ws, scan)
  {
    forall i | 0 <= i < |ws|
      ensures WordAt(m[scan := NUL], args[i], ws[i])
    {
      assert WordAt(m, args[i], ws[i]);
    }
  }

  /** A word that has just been closed off joins the others. */
  lemma PlaceWord(m: seq<byte>, args: seq<int>, ws: seq<seq<byte>>, a: int, w: seq<byte>, before: nat)
    requires Placed(m, args, ws, before) && before <= a && WordAt(m, a, w)
    ensures Placed(m, args + [a], ws + [w], a + |w|)
  {
  }

  method ScanWord(buf: array<byte>, from: nat, ghost c: seq<byte>) returns (scan: nat)
    requires Unread(buf[..], c, from) && NulFree(c)
    ensures from <= scan <= |c| + 2 && scan == WordEnd(c, from - 2) + 2
  {
    scan := from;
    while buf[scan] != NUL && buf[scan] != SPACE && buf[scan] != NEWLINE
      invariant from <= scan <= |c| + 2 && WordEnd(c, from - 2) == WordEnd(c, scan - 2)
      decreases |c| + 2 - scan
    {
      assert buf[..][scan] == (c + [NUL])[scan - 2];
      scan := scan + 1;
    }
    assert buf[..][scan] == (c + [NUL])[scan - 2];
  }

  method ScanBlanks(buf: array<byte>, from: nat, ghost c: seq<byte>) returns (scan: nat)
    requires Unread(buf[..], c, from) && NulFree(c)
    ensures from <= scan <= |c| + 2 && scan == SkipBlanks(c, from - 2) + 2
    ensures buf[scan] == (c + [NUL])[scan - 2]
  {
    scan := from;
    assert buf[..][scan] == (c + [NUL])[scan - 2];
    while buf[scan] == SPACE
      invariant from <= scan <= |c| + 2 && SkipBlanks(c, from - 2) == SkipBlanks(c, scan - 2)
      invariant buf[scan] == (c + [NUL])[scan - 2]
      decreases |c| + 2 - scan
    {
      scan := scan + 1;
      assert buf[..][scan] == (c + [NUL])[scan - 2];
    }
  }

  /** The bytes from a word's start to its end are the word. */
  lemma WordInBuffer(m: seq<byte>, c: seq<byte>, start: nat, end: nat)
    requires Unread(m, c, start) && start <= end <= |c| + 2 && NulFree(c)
    ensures WordAt(m[end := NUL], start, c[start - 2..end - 2])
  {
    var p, w := m[end := NUL], c[start - 2..end - 2];
    assert |p[start..end]| == |w| && forall i :: 0 <= i < |w| ==> p[start + i] == w[i];
    assert p[start..end] == w;
  }

  /** The words read from one position on, and what the next scan makes of them. */
  lemma WordsStep(c: seq<byte>, at: nat, start: nat, end: nat)
    requires at <= |c| && start == SkipBlanks(c, at) && end == WordEnd(c, start)
    requires start < |c| && c[start] != NEWLINE
    ensures start < end && WordsFrom(c, at) == [c[start..end]] + WordsFrom(c, Min(end + 1, |c|))
  {
  }

  lemma PlacedLater(m: seq<byte>, args: seq<int>, ws: seq<seq<byte>>, scan: nat, later: nat)
    requires Placed(m, args, ws, scan) && scan <= later
    ensures Placed(m, args, ws, later)
  {
  }

  /** One word found, closed off and pointed to. */
  lemma ScanOne(m: seq<byte>, args: seq<int>, ws: seq<seq<byte>>, c: seq<byte>, from: nat, start: nat, end: nat)
    requires Unread(m, c, from) && Placed(m, args, ws, from) && NulFree(c)
    requires from <= start <= end <= |c| + 2
    ensures |m| == BUF_SIZE && Unread(m, c, start)
    ensures Placed(m[end := NUL], args + [start], ws + [c[start - 2..end - 2]], end)
    ensures Placed(m[end := NUL], args + [start], ws + [c[start - 2..end - 2]], Min(end + 1, |c| + 2))
    ensures Unread(m[end := NUL], c, Min(end + 1, |c| + 2))
    ensures m[end] == NUL <==> end == |c| + 2
  {
    var w := c[start - 2..end - 2];
    WordInBuffer(m, c, start, end);
    PlacedLater(m, args, ws, from, end);
    TerminatorKeeps(m, args, ws, end);
    assert Placed(m[end := NUL], args, ws, from);
    PlaceWord(m[end := NUL], args, ws, start, w, from);
    assert m[end] == (c + [NUL])[end - 2];
    PlacedLater(m[end := NUL], args + [start], ws + [w], end, Min(end + 1, |c| + 2));
  }

  lemma NoWords(c: seq<byte>, at: nat)
    requires at <= |c| && (c + [NUL])[SkipBlanks(c, at)] in {NUL, NEWLINE} && NulFree(c)
    ensures WordsFrom(c, at) == []
  {
  }

  lemma EndOfCommand(m: seq<byte>, args: seq<int>, ws: seq<seq<byte>>, from: nat, scan: nat)
    requires Placed(m, args, ws, from) && from <= scan < |m| == BUF_SIZE
    ensures Placed(m[scan := NUL], args, ws, BUF_SIZE)
  {
    PlacedLater(m, args, ws, from, scan);
    TerminatorKeeps(m, args, ws, scan);
  }

  /** Steps over what ended a word, closing the word off. */
  method CloseWord(buf: array<byte>, end: nat) returns (scan: nat)
    requires end < buf.Length
    modifies buf
    ensures buf[..] == old(buf[..])[end := NUL]
    ensures scan == if old(buf[end]) == NUL then end else end + 1
  {
    scan := end;
    if buf[scan] != NUL {
      buf[scan] := NUL;
      scan := scan + 1;
    }
  }

  method PutPointer(args: array<int>, n: nat, p: int)
    requires n < args.Length
    modifies args
    ensures args[..n + 1] == old(args[..n]) + [p]
  {
    args[n] := p;
  }

  /** One round of the argument loop: the next word is pointed to, or the command ends. */
  method NextWord(buf: array<byte>, args: array<int>, n: nat, from: nat, ghost c: seq<byte>, ghost ws: seq<seq<byte>>)
    returns (more: bool, scan: nat)
    requires buf.Length == BUF_SIZE && Unread(buf[..], c, from) && NulFree(c) && 2 <= from <= |c| + 2 <= COMMAND_MAX + 2
    requires n < args.Length && Placed(buf[..], args[..n], ws, from)
    modifies buf, args
    ensures more == (WordsFrom(c, from - 2) != [])
    ensures !more ==> Placed(buf[..], args[..n], ws, BUF_SIZE)
    ensures more ==> from < scan <= |c| + 2 && Unread(buf[..], c, scan)
    ensures more ==> WordsFrom(c, from - 2) == [WordsFrom(c, from - 2)[0]] + WordsFrom(c, scan - 2)
    ensures more ==> Placed(buf[..], args[..n + 1], ws + [WordsFrom(c, from - 2)[0]], scan)
  {
    hide Unread, Placed, WordsFrom, SkipBlanks, WordEnd, NulFree;
    ghost var m, pointers := buf[..], args[..n];
    scan := ScanBlanks(buf, from, c);
    if buf[scan] == NUL || buf[scan] == NEWLINE {
      NoWords(c, from - 2);
      EndOfCommand(m, pointers, ws, from, scan);
      buf[scan] := NUL;
      assert buf[..] == m[scan := NUL] && args[..n] == pointers;
      return false, scan;
    }
    var start := scan;
    ScanOne(m, pointers, ws, c, from, start, start);
    scan := ScanWord(buf, start, c);
    var end := scan;
    ScanOne(m, pointers, ws, c, from, start, end);
    WordsStep(c, from - 2, start - 2, end - 2);
    PutPointer(args, n, start);
    scan := CloseWord(buf, end);
    more := true;
  }

  /** Taking a word off the words to come and putting it behind those found. */
  lemma WordMoves(found: seq<seq<byte>>, rest: seq<seq<byte>>, after: seq<seq<byte>>, all: seq<seq<byte>>)
    requires found + rest == all
    ensures rest == [] ==> found == all
    ensures rest != [] && rest == [rest[0]] + after ==> found + [rest[0]] + after == all && |found| < |all|
  {
  }

  /** The argument loop, from behind the first word on. */
  method TokenizeRest(buf: array<byte>, args: array<int>, from: nat, ghost c: seq<byte>, ghost first: seq<byte>)
    returns (nArg: nat)
    requires buf.Length == BUF_SIZE && Unread(buf[..], c, from) && NulFree(c) && args.Length == ARGV_SIZE
    requires 2 <= from <= |c| + 2 && |c| <= COMMAND_MAX
    requires args[0] == 0 && Placed(buf[..], [0], [first], from)
    modifies buf, args
    ensures nArg == 1 + |WordsFrom(c, from - 2)| && 2 * nArg <= |c| - from + 5
    ensures Placed(buf[..], args[..nArg], [first] + WordsFrom(c, from - 2), BUF_SIZE)
  {
    WordsFew(c, from - 2);
    ghost var ws, all := [first], [first] + WordsFrom(c, from - 2);
    var scan, more := from, true;
    nArg := 1;
    assert args[..1] == [0];
    hide Placed, WordsFrom, Unread, NulFree;
    while more
      invariant nArg == |ws| <= |all| < ARGV_SIZE
      invariant more ==> 2 <= scan <= |c| + 2 && Unread(buf[..], c, scan)
      invariant more ==> Placed(buf[..], args[..nArg], ws, scan) && ws + WordsFrom(c, scan - 2) == all
      invariant !more ==> Placed(buf[..], args[..nArg], ws, BUF_SIZE) && ws == all
      decreases if more then |c| + 3 - scan else 0
    {
      ghost var rest := WordsFrom(c, scan - 2);
      more, scan := NextWord(buf, args, nArg, scan, c, ws);
      WordMoves(ws, rest, if more then WordsFrom(c, scan - 2) else [], all);
      if more {
        nArg := nArg + 1;
        ws := ws + [rest[0]];
      }
    }
  }

  lemma {:induction false} WordsFew(c: seq<byte>, at: nat)
    requires at <= |c|
    ensures 2 * |WordsFrom(c, at)| <= |c| - at + 1
    decreases |c| - at
  {
    var s := SkipBlanks(c, at);
    if s < |c| && c[s] != NEWLINE {
      WordsFew(c, Min(WordEnd(c, s) + 1, |c|));
    }
  }

  lemma FirstWord(m: seq<byte>, c: seq<byte>, e: nat)
    requires |m| == BUF_SIZE && |c| <= COMMAND_MAX && NulFree(c) && e <= |c|
    requires m[0] == DOT && m[1] == SLASH && forall k :: 2 <= k <= |c| + 2 ==> m[k] == (c + [NUL])[k - 2]
    ensures Unread(m, c, 2) && Unread(m, c, e + 2) && m[e + 2] == (c + [NUL])[e]
    ensures Placed(m[e + 2 := NUL], [0], [[DOT, SLASH] + c[..e]], e + 2)
    ensures Unread(m[e + 2 := NUL], c, Min(e + 3, |c| + 2))
  {
    var p, w := m[e + 2 := NUL], [DOT, SLASH] + c[..e];
    assert |p[0..e + 2]| == |w| && forall i :: 0 <= i < |w| ==> p[i] == w[i];
    assert p[0..0 + |w|] == w;
  }

  /** The command with its prefix, copied into the buffer. */
  method LoadCommand(buf: array<byte>, command: array<byte>, ghost c: seq<byte>)
    requires Terminated(command[..], 0) && c == CStr(command[..], 0) && |c| <= COMMAND_MAX
    requires buf.Length == BUF_SIZE && buf != command
    modifies buf
    ensures buf[0] == DOT && buf[1] == SLASH && forall k :: 2 <= k <= |c| + 2 ==> buf[k] == (c + [NUL])[k - 2]
  {
    buf[0] := DOT;
    buf[1] := SLASH;
    Strcpy(buf, 2, command, 0);
  }

  lemma TokensAre(c: seq<byte>)
    ensures Tokens(c) == [[DOT, SLASH] + c[..WordEnd(c, 0)]] + WordsFrom(c, Min(WordEnd(c, 0) + 1, |c|))
  {
    hide WordEnd, WordsFrom, Stops;
  }

  /** Splitting a loaded command. */
  method TokenizeLoaded(buf: array<byte>, args: array<int>, ghost c: seq<byte>) returns (nArg: nat)
    requires NulFree(c) && |c| <= COMMAND_MAX && buf.Length == BUF_SIZE && args.Length == ARGV_SIZE
    requires buf[0] == DOT && buf[1] == SLASH && forall k :: 2 <= k <= |c| + 2 ==> buf[k] == (c + [NUL])[k - 2]
    modifies buf, args
    ensures nArg == |Tokens(c)| <= 512 && args[nArg] == NULL
    ensures Placed(buf[..], args[..nArg], Tokens(c), BUF_SIZE)
  {
    FirstWord(buf[..], c, WordEnd(c, 0));
    TokensAre(c);
    hide Placed, Unread, WordsFrom, NulFree, Tokens;
    var scan := ScanWord(buf, 2, c);
    args[0] := 0;
    assert args[..1] == [0];
    if buf[scan] != NUL {
      assert WordEnd(c, 0) < |c|;
      ghost var first := [DOT, SLASH] + c[..scan - 2];
      scan := CloseWord(buf, scan);
      nArg := TokenizeRest(buf, args, scan, c, first);
    } else {
      FirstWordAlone(buf[..], c, scan);
      nArg := 1;
    }
    EndPointers(args, nArg);
  }

  method EndPointers(args: array<int>, n: nat)
    requires n < args.Length
    modifies args
    ensures args[n] == NULL && args[..n] == old(args[..n])
  {
    args[n] := NULL;
  }

  /** The first half of execute: a command of at most 1023 characters becomes the word
      list Tokens, as NUL-terminated strings in the buffer under a NULL-ended argv. */
  method Tokenize(command: array<byte>, buf: array<byte>, args: array<int>) returns (r: Option<nat>)
    requires Terminated(command[..], 0) && buf != command
    requires buf.Length == BUF_SIZE && args.Length == ARGV_SIZE
    modifies buf, args
    ensures r.None? <==> |old(CStr(command[..], 0))| > 1023
    ensures var words := Tokens(old(CStr(command[..], 0)));
            r.Some? ==> r.value == |words| <= 512 && args[r.value] == NULL
                        && Placed(buf[..], args[..r.value], words, BUF_SIZE)
    ensures r.None? ==> buf[..] == old(buf[..]) && args[..] == old(args[..])
  {
    ghost var c := CStr(command[..], 0);
    var len := Strlen(command, 0);
    if COMMAND_MAX < len {
      return None;
    }
    LoadCommand(buf, command, c);
    hide Placed, Tokens, CStr;
    var nArg := TokenizeLoaded(buf, args, c);
    r := Some(nArg);
  }

  /** A command that is one word. */
  lemma FirstWordAlone(m: seq<byte>, c: seq<byte>, scan: nat)
    requires |m| == BUF_SIZE && scan < |m| && m[scan] == NUL && NulFree(c) && |c| <= COMMAND_MAX
    requires scan == WordEnd(c, 0) + 2 && m[scan] == (c + [NUL])[scan - 2]
    requires Placed(m[scan := NUL], [0], [[DOT, SLASH] + c[..scan - 2]], scan)
    ensures Placed(m, [0], Tokens(c), BUF_SIZE) && |Tokens(c)| == 1
  {
    assert m[scan := NUL] == m;
  }

  // ----- what the words are

  /** A byte string split at its spaces and newlines, empty pieces included. */
  function Pieces(s: seq<byte>): (ps: seq<seq<byte>>)
    ensures |ps| > 0
  {
    if s == [] then [[]]
    else if Stops(s[0]) then [[]] + Pieces(s[1..])
    else [[s[0]] + Pieces(s[1..])[0]] + Pieces(s[1..])[1..]
  }

  function NonEmpty(ps: seq<seq<byte>>): (ws: seq<seq<byte>>) {
    if ps == [] then [] else (if ps[0] == [] then [] else [ps[0]]) + NonEmpty(ps[1..])
  }

  /** The end of the command: its first newline that stands where a word would start. */
  function CommandEnd(c: seq<byte>, at: nat, between: bool): (e: nat)
    requires at <= |c|
    ensures at <= e <= |c|
    decreases |c| - at
  {
    if at == |c| || (between && c[at] == NEWLINE) then at else CommandEnd(c, at + 1, Stops(c[at]))
  }

  lemma {:induction false} PiecesOfBlanks(c: seq<byte>, at: nat, s: nat, end: nat)
    requires at <= s <= end <= |c| && forall i :: at <= i < s ==> c[i] == SPACE
    ensures NonEmpty(Pieces(c[at..end])) == NonEmpty(Pieces(c[s..end]))
    decreases s - at
  {
    if at < s {
      assert c[at..end][1..] == c[at + 1..end];
      assert Pieces(c[at..end])[1..] == Pieces(c[at + 1..end]);
      PiecesOfBlanks(c, at + 1, s, end);
    }
  }

  lemma {:induction false} PiecesOfWord(c: seq<byte>, s: nat, e: nat, end: nat)
    requires s <= e <= end <= |c| && forall i :: s <= i < e ==> !Stops(c[i])
    requires e < end ==> Stops(c[e])
    ensures e == end ==> Pieces(c[s..end]) == [c[s..e]]
    ensures e < end ==> Pieces(c[s..end]) == [c[s..e]] + Pieces(c[e + 1..end])
    decreases e - s
  {
    if s < e {
      assert c[s..end][1..] == c[s + 1..end] && c[s..e] == [c[s]] + c[s + 1..e];
      PiecesOfWord(c, s + 1, e, end);
    } else if s < end {
      assert c[s..end][1..] == c[s + 1..end] && c[s..e] == [];
    } else {
      assert c[s..end] == c[s..e] == [];
    }
  }

  lemma {:induction false} EndPastBlanks(c: seq<byte>, at: nat, s: nat)
    requires at <= s <= |c| && forall i :: at <= i < s ==> c[i] == SPACE
    ensures CommandEnd(c, at, true) == CommandEnd(c, s, true)
    decreases s - at
  {
    if at < s {
      EndPastBlanks(c, at + 1, s);
    }
  }

  lemma {:induction false} EndPastWord(c: seq<byte>, s: nat, e: nat, between: bool)
    requires s <= e <= |c| && (forall i :: s <= i < e ==> !Stops(c[i])) && (e < |c| ==> Stops(c[e]))
    requires between ==> s < e
    ensures CommandEnd(c, s, between) == if e < |c| then CommandEnd(c, e + 1, true) else |c|
    decreases e - s
  {
    if s < e {
      EndPastWord(c, s + 1, e, false);
    }
  }

  /** One word of a blank-led stretch. */
  lemma PiecesStep(c: seq<byte>, at: nat, s: nat, e: nat, end: nat)
    requires at <= s < e <= end <= |c| && (forall i :: at <= i < s ==> c[i] == SPACE)
    requires (forall i :: s <= i < e ==> !Stops(c[i])) && (e < end ==> Stops(c[e]))
    ensures NonEmpty(Pieces(c[at..end])) == [c[s..e]] + if e < end then NonEmpty(Pieces(c[e + 1..end])) else []
  {
    PiecesOfBlanks(c, at, s, end);
    PiecesOfWord(c, s, e, end);
    OneMore(c[s..e], if e < end then Pieces(c[e + 1..end]) else []);
  }

  /** The argument words are the non-empty pieces of the command up to its end. */
  lemma {:induction false} WordsArePieces(c: seq<byte>, at: nat)
    requires at <= |c|
    ensures WordsFrom(c, at) == NonEmpty(Pieces(c[at..CommandEnd(c, at, true)]))
    decreases |c| - at
  {
    var s, end := SkipBlanks(c, at), CommandEnd(c, at, true);
    BlankSpan(c, at);
    EndPastBlanks(c, at, s);
    if s < |c| && c[s] != NEWLINE {
      var e := WordEnd(c, s);
      WordSpan(c, s);
      EndPastWord(c, s, e, true);
      hide Pieces, NonEmpty, CommandEnd;
      WordsStep(c, at, s, e);
      PiecesStep(c, at, s, e, end);
      WordsArePieces(c, Min(e + 1, |c|));
      NothingLeft(c);
    } else {
      PiecesOfBlanks(c, at, s, end);
    }
  }

  lemma NothingLeft(c: seq<byte>)
    ensures WordsFrom(c, |c|) == []
  {
  }

  lemma OneMore(w: seq<byte>, ps: seq<seq<byte>>)
    requires w != []
    ensures NonEmpty([w] + ps) == [w] + NonEmpty(ps)
  {
    assert ([w] + ps)[1..] == ps;
  }

  // ----- joining the words again

  function Join(ws: seq<seq<byte>>): (s: seq<byte>) {
    if ws == [] then [] else if |ws| == 1 then ws[0] else ws[0] + [SPACE] + Join(ws[1..])
  }

  /** Whether some word ends exactly n bytes into the joined string. */
  predicate EndsAt(ws: seq<seq<byte>>, n: int) {
    ws != [] && (|ws[0]| == n || EndsAt(ws[1..], n - |ws[0]| - 1))
  }

  predicate IsWord(w: seq<byte>) { w != [] && NulFree(w) && forall i :: 0 <= i < |w| ==> !Stops(w[i]) }

  lemma WordAhead(c: seq<byte>, at: nat, w: seq<byte>)
    requires at + |w| <= |c| && c[at..at + |w|] == w && IsWord(w)
    requires at + |w| < |c| ==> Stops(c[at + |w|])
    ensures SkipBlanks(c, at) == at && WordEnd(c, at) == at + |w| && c[at] != NEWLINE
  {
    forall i | at <= i < at + |w|
      ensures !Stops(c[i])
    {
      assert c[at..at + |w|][i - at] == w[i - at];
    }
    WordEndIs(c, at, at + |w|);
  }

  lemma Between(p: seq<byte>, w: seq<byte>, rest: seq<byte>)
    ensures p + (w + [SPACE] + rest) == p + w + [SPACE] + rest
    ensures (p + w + [SPACE] + rest)[|p|..|p| + |w|] == w && (p + w + [SPACE] + rest)[|p| + |w|] == SPACE
    ensures (p + w)[|p|..|p| + |w|] == w
  {
  }

  lemma JoinStep(p: seq<byte>, ws: seq<seq<byte>>)
    requires ws != []
    ensures |ws| == 1 ==> p + Join(ws) == p + ws[0]
    ensures |ws| > 1 ==> p + Join(ws) == p + ws[0] + [SPACE] + Join(ws[1..])
  {
    if |ws| > 1 {
      Between(p, ws[0], Join(ws[1..]));
    }
  }

  ghost predicate AllWords(ws: seq<seq<byte>>) { forall i :: 0 <= i < |ws| ==> IsWord(ws[i]) }

  lemma WordComes(c: seq<byte>, at: nat, w: seq<byte>)
    requires at + |w| <= |c| && c[at..at + |w|] == w && IsWord(w)
    requires at + |w| < |c| ==> Stops(c[at + |w|])
    ensures WordsFrom(c, at) == [w] + WordsFrom(c, Min(at + |w| + 1, |c|))
  {
    assert |w| > 0;
    hide IsWord, Stops, WordsFrom;
    WordAhead(c, at, w);
    hide SkipBlanks, WordEnd;
    WordsStep(c, at, at, at + |w|);
  }

  lemma LastComes(p: seq<byte>, w: seq<byte>)
    requires IsWord(w)
    ensures WordsFrom(p + w, |p|) == [w]
  {
    var c := p + w;
    assert c[|p|..|p| + |w|] == w;
    hide IsWord, WordsFrom, Stops;
    WordComes(c, |p|, w);
    NothingLeft(c);
  }

  lemma SpacedComes(p: seq<byte>, w: seq<byte>, rest: seq<byte>)
    requires IsWord(w)
    ensures |p + w + [SPACE]| == |p| + |w| + 1
    ensures WordsFrom(p + w + [SPACE] + rest, |p|) == [w] + WordsFrom(p + w + [SPACE] + rest, |p| + |w| + 1)
  {
    var c := p + w + [SPACE] + rest;
    assert |c| == |p| + |w| + 1 + |rest|;
    Between(p, w, rest);
    assert Stops(SPACE);
    hide IsWord, WordsFrom, Stops;
    WordComes(c, |p|, w);
  }

  lemma NoneJoined(p: seq<byte>)
    ensures WordsFrom(p + Join([]), |p|) == []
  {
    assert p + Join([]) == p;
  }

  lemma OtherWords(ws: seq<seq<byte>>)
    requires AllWords(ws) && ws != []
    ensures AllWords(ws[1..]) && IsWord(ws[0])
  {
    forall i | 0 <= i < |ws[1..]|
      ensures IsWord(ws[1..][i])
    {
      assert ws[1..][i] == ws[i + 1];
    }
  }

  lemma {:induction false} WordsOfJoin(p: seq<byte>, ws: seq<seq<byte>>)
    requires AllWords(ws)
    ensures WordsFrom(p + Join(ws), |p|) == ws
    decreases |ws|
  {
    hide Join, AllWords, WordsFrom;
    if ws == [] {
      NoneJoined(p);
    } else {
      OtherWords(ws);
      JoinStep(p, ws);
      if |ws| > 1 {
        SpacedComes(p, ws[0], Join(ws[1..]));
        WordsOfJoin(p + ws[0] + [SPACE], ws[1..]);
      } else {
        LastComes(p, ws[0]);
      }
      assert [ws[0]] + ws[1..] == ws;
    }
  }

  lemma FirstOfJoin(name: seq<byte>, ws: seq<seq<byte>>)
    requires forall i :: 0 <= i < |name| ==> !Stops(name[i])
    ensures var c := Join([name] + ws);
            WordEnd(c, 0) == |name| <= |c| && c[..|name|] == name
            && c == if ws == [] then name else name + [SPACE] + Join(ws)
  {
    var c := Join([name] + ws);
    assert ([name] + ws)[1..] == ws;
    hide Join;
    assert c == if ws == [] then name else name + [SPACE] + Join(ws);
    forall i | 0 <= i < |name|
      ensures !Stops(c[i])
    {
      assert c[i] == name[i];
    }
    assert |name| < |c| ==> Stops(c[|name|]);
    WordEndIs(c, 0, |name|);
  }

  /** Tokenizing a program's name and its joined arguments gives them back. */
  lemma TokensOfJoin(name: seq<byte>, ws: seq<seq<byte>>)
    requires forall i :: 0 <= i < |name| ==> !Stops(name[i])
    requires AllWords(ws)
    ensures Tokens(Join([name] + ws)) == [[DOT, SLASH] + name] + ws
  {
    var c := Join([name] + ws);
    FirstOfJoin(name, ws);
    TokensAre(c);
    hide Join, WordEnd, WordsFrom, Tokens, AllWords, Stops;
    if ws == [] {
      NothingLeft(c);
    } else {
      WordsOfJoin(name + [SPACE], ws);
    }
  }

  /** The whole tokenizer against a plain split: the program's name is the text before
      the first blank; the other words are the non-empty pieces between there and the
      first newline that follows a blank. */
  lemma TokensAreWords(c: seq<byte>)
    ensures Tokens(c)[0] == [46, 47] + Pieces(c)[0]
    ensures var next := Min(|Pieces(c)[0]| + 1, |c|);
            Tokens(c)[1..] == NonEmpty(Pieces(c[next..CommandEnd(c, next, true)]))
  {
    var e := WordEnd(c, 0);
    WordSpan(c, 0);
    PiecesOfWord(c, 0, e, |c|);
    assert c[0..|c|] == c && c[0..e] == c[..e];
    TokensAre(c);
    hide Tokens, WordEnd, WordsFrom, Pieces, NonEmpty, CommandEnd;
    WordsArePieces(c, Min(e + 1, |c|));
  }

  predicate OneLine(c: seq<byte>) { forall i :: 0 <= i < |c| ==> c[i] != NEWLINE }

  lemma {:induction false} NoNewlineNoEnd(c: seq<byte>, at: nat, between: bool)
    requires OneLine(c) && at <= |c|
    ensures CommandEnd(c, at, between) == |c|
    decreases |c| - at
  {
    if at < |c| {
      NoNewlineNoEnd(c, at + 1, Stops(c[at]));
    }
  }

  /** Without newlines every non-empty piece behind the first is an argument. */
  lemma OneLineCommand(c: seq<byte>)
    requires OneLine(c)
    ensures Tokens(c) == [[DOT, SLASH] + Pieces(c)[0]] + NonEmpty(Pieces(c)[1..])
  {
    var e := WordEnd(c, 0);
    var next := Min(e + 1, |c|);
    WordSpan(c, 0);
    PiecesOfWord(c, 0, e, |c|);
    assert c[0..|c|] == c && c[0..e] == c[..e];
    TokensAreWords(c);
    NoNewlineNoEnd(c, next, true);
    assert c[next..|c|] == c[next..];
    hide Pieces, Tokens, WordEnd, CommandEnd;
    NonEmptyPieces();
    assert Tokens(c) == [Tokens(c)[0]] + Tokens(c)[1..];
  }

  lemma NonEmptyPieces()
    ensures NonEmpty(Pieces([])) == NonEmpty([])
  {
  }

  lemma TrailingStep(c: seq<byte>, at: nat) returns (w: seq<byte>, next: nat)
    requires at <= |c| && SkipBlanks(c, at) < |c| && OneLine(c)
    ensures at < next <= |c| + 1
    ensures WordsFrom(c, at) == [w] + WordsFrom(c, Min(next, |c|))
    ensures WordsFrom(c + [NEWLINE], at) == [w] + WordsFrom(c + [NEWLINE], next)
  {
    var s := SkipBlanks(c, at);
    var e := WordEnd(c, s);
    SameBlanks(c, at);
    SameWord(c, s);
    w, next := c[s..e], e + 1;
    assert (c + [NEWLINE])[s..e] == w && c[s] != NEWLINE;
    WordsStep(c, at, s, e);
    hide WordsFrom, SkipBlanks, WordEnd, OneLine;
    WordsStep(c + [NEWLINE], at, s, e);
  }

  lemma {:induction false} TrailingNewline(c: seq<byte>, at: nat)
    requires OneLine(c) && at <= |c|
    ensures WordsFrom(c + [NEWLINE], at) == WordsFrom(c, at)
    decreases |c| - at
  {
    hide WordsFrom, OneLine;
    if SkipBlanks(c, at) < |c| {
      var w, next := TrailingStep(c, at);
      hide SkipBlanks;
      NothingLeft(c);
      NothingLeft(c + [NEWLINE]);
      if next <= |c| {
        TrailingNewline(c, next);
      }
    } else {
      NothingBehind(c, at);
    }
  }

  lemma NothingBehind(c: seq<byte>, at: nat)
    requires at <= |c| == SkipBlanks(c, at)
    ensures WordsFrom(c, at) == [] == WordsFrom(c + [NEWLINE], at)
  {
    SameBlanks(c, at);
  }

  lemma {:induction false} SameBlanks(c: seq<byte>, at: nat)
    requires at <= |c|
    ensures SkipBlanks(c + [NEWLINE], at) == SkipBlanks(c, at)
    decreases |c| - at
  {
    if at < |c| {
      SameBlanks(c, at + 1);
    }
  }

  lemma {:induction false} SameWord(c: seq<byte>, at: nat)
    requires at <= |c|
    ensures WordEnd(c + [NEWLINE], at) == WordEnd(c, at)
    decreases |c| - at
  {
    if at < |c| {
      SameWord(c, at + 1);
    }
  }

  /** A newline at the end of a one-line command changes nothing. */
  lemma NewlineAtEnd(c: seq<byte>)
    requires OneLine(c)
    ensures Tokens(c + [NEWLINE]) == Tokens(c)
  {
    var e := WordEnd(c, 0);
    SameWord(c, 0);
    assert (c + [NEWLINE])[..e] == c[..e];
    TokensAre(c);
    TokensAre(c + [NEWLINE]);
    hide Tokens, WordEnd, WordsFrom;
    TrailingNewline(c, Min(e + 1, |c|));
    if e == |c| {
      NothingLeft(c);
      NothingLeft(c + [NEWLINE]);
    }
  }

  /** A newline directly behind a word does not end the command. */
  lemma NewlineBehindWord(name: seq<byte>, w: seq<byte>)
    requires IsWord(name) && IsWord(w)
    ensures Tokens(name + [NEWLINE] + w) == [[DOT, SLASH] + name, w]
  {
    var c := name + [NEWLINE] + w;
    assert c[..|name|] == name && c[0..|name|] == name && c[|name| + 1..|c|] == w;
    WordAhead(c, 0, name);
    WordAhead(c, |name| + 1, w);
    TokensAre(c);
    hide IsWord, SkipBlanks, WordEnd, Tokens, WordsFrom;
    WordsStep(c, |name| + 1, |name| + 1, |c|);
    NothingLeft(c);
  }

  /** One behind a blank does, whatever follows. */
  lemma NewlineBehindBlank(name: seq<byte>, rest: seq<byte>)
    requires IsWord(name)
    ensures Tokens(name + [SPACE, NEWLINE] + rest) == [[DOT, SLASH] + name]
  {
    var d := name + [SPACE, NEWLINE] + rest;
    assert d[..|name|] == name && d[0..|name|] == name && d[|name| + 1] == NEWLINE;
    WordAhead(d, 0, name);
    TokensAre(d);
    assert SkipBlanks(d, |name| + 1) == |name| + 1;
  }

  // ----- getargs

  /** The buffer with the bytes s written at its start. */
  ghost predicate Written(b: seq<byte>, was: seq<byte>, s: seq<byte>) {
    |s| <= |was| && b == Patch(was, 0, s)
  }

  /** One word into the buffer, behind what is there. */
  method AddWord(m: array<byte>, p: nat, buf: array<byte>, at: nat, ghost was: seq<byte>, ghost s: seq<byte>,
                 ghost w: seq<byte>)
    requires WordAt(m[..], p, w) && m != buf && at == |s| && at + |w| < buf.Length
    requires Written(buf[..], was, s)
    modifies buf
    ensures Written(buf[..], was, s + w + [NUL])
  {
    CStrIs(m[..], p, p + |w|);
    Strcpy(buf, at, m, p);
    PatchMore(was, s, w + [NUL]);
  }

  lemma PatchMore(was: seq<byte>, s: seq<byte>, x: seq<byte>)
    requires |s| + |x| <= |was|
    ensures Patch(Patch(was, 0, s), |s|, x) == Patch(was, 0, s + x)
  {
  }

  lemma {:induction false} NoneEndsBefore(ws: seq<seq<byte>>, n: int)
    requires n < 0
    ensures !EndsAt(ws, n)
    decreases |ws|
  {
    if ws != [] {
      NoneEndsBefore(ws[1..], n - |ws[0]| - 1);
    }
  }

  /** Joined words, from the back: each further word stands behind one space. */
  lemma {:induction false} JoinAppend(ws: seq<seq<byte>>, w: seq<byte>)
    ensures Join(ws + [w]) == if ws == [] then w else Join(ws) + [32] + w
    decreases |ws|
  {
    if ws != [] {
      assert (ws + [w])[1..] == ws[1..] + [w];
      JoinAppend(ws[1..], w);
      if |ws| > 1 {
        Behind(ws[0], Join(ws[1..]), w);
      }
    }
  }

  lemma Behind(a: seq<byte>, b: seq<byte>, w: seq<byte>)
    ensures a + [SPACE] + (b + [32] + w) == a + [SPACE] + b + [32] + w
  {
  }

  lemma JoinFront(ws: seq<seq<byte>>, k: nat)
    requires 0 < k <= |ws|
    ensures |Join(ws[..k])| == if k == 1 then |ws[0]| else |ws[0]| + 1 + |Join(ws[1..][..k - 1])|
  {
    assert ws[..k][1..] == ws[1..][..k - 1];
  }

  /** A word ends n bytes in exactly when the first few words, joined, have n bytes. */
  lemma {:induction false} EndsAtIs(ws: seq<seq<byte>>, n: int)
    ensures EndsAt(ws, n) <==> exists k :: 0 < k <= |ws| && |Join(ws[..k])| == n
    decreases |ws|
  {
    hide Join;
    if ws != [] {
      var m := n - |ws[0]| - 1;
      EndsAtIs(ws[1..], m);
      JoinFront(ws, 1);
      if k :| 0 < k <= |ws| && |Join(ws[..k])| == n {
        JoinFront(ws, k);
      }
      if j :| 0 < j <= |ws[1..]| && |Join(ws[1..][..j])| == m {
        JoinFront(ws, j + 1);
        assert |Join(ws[..j + 1])| == n;
      }
    }
  }

  /** Where the next word ends decides what is left to know about the others. */
  lemma EndsStep(ws: seq<seq<byte>>, left: int)
    requires ws != []
    ensures EndsAt(ws, left) == if |ws[0]| >= left then |ws[0]| == left else EndsAt(ws[1..], left - |ws[0]| - 1)
    ensures |ws| == 1 && |ws[0]| != left ==> !EndsAt(ws, left)
  {
    if |ws[0]| >= left {
      NoneEndsBefore(ws[1..], left - |ws[0]| - 1);
    }
  }

  /** The bytes from n on are as they were, but for a NUL at n itself when `past` says so. */
  ghost predicate Beyond(b: seq<byte>, was: seq<byte>, n: int, past: bool) {
    |b| == |was| && forall k :: Max(n, 0) <= k < |b| ==> b[k] == if k == n && past then NUL else was[k]
  }

  lemma WrittenWithin(b: seq<byte>, was: seq<byte>, x: seq<byte>, n: int, past: bool)
    requires Written(b, was, x)
    requires if past then 0 <= n && |x| == n + 1 && x[n] == NUL else |x| <= Max(n, 0)
    ensures Beyond(b, was, n, past)
  {
  }

  /** The strings at argv[1..], in the order of ws. */
  ghost predicate Arguments(m: seq<byte>, argv: seq<int>, ws: seq<seq<byte>>) {
    |argv| == |ws| + 1 && forall i :: 0 <= i < |ws| ==> WordAt(m, argv[i + 1], ws[i])
  }

  method ArgLength(m: array<byte>, p: int, ghost w: seq<byte>) returns (len: nat)
    requires WordAt(m[..], p, w)
    ensures len == |w|
  {
    CStrIs(m[..], p, p + |w|);
    len := Strlen(m, p);
  }

  /** What is written so far and the words still to come make up the whole. */
  ghost predicate ToCome(ws: seq<seq<byte>>, n: int, s: seq<byte>, rest: seq<seq<byte>>) {
    s + Join(rest) == Join(ws) && (s == [] || |s| <= n) && EndsAt(ws, n) == EndsAt(rest, n - |s|)
  }

  ghost predicate AllThere(ws: seq<seq<byte>>, n: int, s: seq<byte>) {
    s == Join(ws) && EndsAt(ws, n) == (ws != [] && |s| == n) && (ws == [] || |s| <= n)
  }

  lemma NextToCome(ws: seq<seq<byte>>, n: int, s: seq<byte>, rest: seq<seq<byte>>)
    requires ToCome(ws, n, s, rest) && rest != []
    ensures var to := |s| + |rest[0]|;
            && (to > n ==> |Join(ws)| > n && !EndsAt(ws, n))
            && (to <= n && |rest| == 1 && ws != [] ==> AllThere(ws, n, s + rest[0]))
            && (to == n && |rest| > 1 ==> |Join(ws)| > n && EndsAt(ws, n))
            && (to < n && |rest| > 1 ==> ToCome(ws, n, s + rest[0] + [SPACE], rest[1..]))
  {
    JoinStep(s, rest);
    EndsStep(rest, n - |s|);
    if |rest| == 1 {
      assert s + Join(rest) == s + rest[0];
    }
  }

  /** The terminator, if there is room for it. */
  method EndArgs(buf: array<byte>, at: nat, left: int, ghost was: seq<byte>, ghost s: seq<byte>, ghost x: seq<byte>)
    returns (r: int)
    requires Written(buf[..], was, x) && at == |s| && (x == s || x == s + [NUL])
    requires left >= 1 ==> at < buf.Length
    modifies buf
    ensures r == if left < 1 then -1 else 0
    ensures Written(buf[..], was, if left < 1 then x else s + [NUL])
  {
    if left < 1 {
      return -1;
    }
    if x == s { PatchAppend(was, 0, x, NUL); } else { PatchSet(was, 0, x, |s|, NUL); }
    Store(buf, at, NUL);
    return 0;
  }

  method AddSpace(buf: array<byte>, at: nat, ghost was: seq<byte>, ghost s: seq<byte>)
    requires Written(buf[..], was, s + [NUL]) && at == |s|
    modifies buf
    ensures Written(buf[..], was, s + [SPACE])
  {
    PatchSet(was, 0, s + [NUL], |s|, SPACE);
    assert (s + [NUL])[|s| := SPACE] == s + [SPACE];
    Store(buf, at, SPACE);
  }

  /** One argument, and the space behind it unless it is the last one. */
  method PutArg(m: array<byte>, p: nat, buf: array<byte>, at: nat, n: int, last: bool,
                ghost ws: seq<seq<byte>>, ghost was: seq<byte>, ghost s: seq<byte>, ghost rest: seq<seq<byte>>)
    returns (ok: bool, to: nat, ghost t: seq<byte>)
    requires rest != [] && ws != [] && last == (|rest| == 1) && WordAt(m[..], p, rest[0]) && m != buf
    requires ToCome(ws, n, s, rest) && Written(buf[..], was, s) && at == |s|
    requires n + (if EndsAt(ws, n) then 1 else 0) <= buf.Length
    modifies buf
    ensures !ok ==> |Join(ws)| >= n && Beyond(buf[..], was, n, EndsAt(ws, n))
    ensures ok ==> to == |t| <= n
    ensures ok && last ==> AllThere(ws, n, t) && Written(buf[..], was, t + [NUL])
    ensures ok && !last ==> ToCome(ws, n, t, rest[1..]) && Written(buf[..], was, t)
  {
    hide Written, ToCome, AllThere, Join, EndsAt, WordAt, Beyond;
    NextToCome(ws, n, s, rest);
    SoFar(ws, n, s, rest);
    var len := ArgLength(m, p, rest[0]);
    if len > n - at {
      WrittenWithin(buf[..], was, s, n, false);
      return false, at, s;
    }
    AddWord(m, p, buf, at, was, s, rest[0]);
    to, t := at + len, s + rest[0];
    if last {
      return true, to, t;
    }
    if n - to < 1 {
      WrittenWithin(buf[..], was, t + [NUL], n, true);
      return false, to, t;
    }
    AddSpace(buf, to, was, t);
    return true, to + 1, t + [SPACE];
  }

  lemma SoFar(ws: seq<seq<byte>>, n: int, s: seq<byte>, rest: seq<seq<byte>>)
    requires ToCome(ws, n, s, rest) && rest != []
    ensures |s| <= Max(n, 0) && (|s| + |rest[0]| == n && |rest| == 1 ==> EndsAt(ws, n))
  {
  }

  /** getargs: succeeds iff the arguments joined by single spaces and their terminator fit,
      and then leaves exactly that string. It writes past nbytes iff some word ends right
      there; that byte is then a NUL. */
  method Getargs(m: array<byte>, argv: array<int>, argc: nat, buf: array<byte>, nbytes: int, ghost ws: seq<seq<byte>>)
    returns (r: int)
    requires 1 <= argc <= argv.Length && Arguments(m[..], argv[..argc], ws)
    requires m != buf && nbytes + (if EndsAt(ws, nbytes) then 1 else 0) <= buf.Length
    modifies buf
    ensures r == if |Join(ws)| < nbytes then 0 else -1
    ensures r == 0 ==> buf[..] == Patch(old(buf[..]), 0, Join(ws) + [NUL])
    ensures Beyond(buf[..], old(buf[..]), nbytes, EndsAt(ws, nbytes))
  {
    ghost var was, s, x, rest := buf[..], [], [], ws;
    NoneYet(was, nbytes, ws);
    hide Written, ToCome, AllThere, Join, EndsAt, Arguments, WordAt, Beyond;
    ArgumentCount(m[..], argv[..argc], ws);
    var idx: nat, at: nat := 1, 0;
    while idx < argc
      invariant 1 <= idx <= argc == |ws| + 1 && rest == ws[idx - 1..] && at == |s| && Written(buf[..], was, x)
      invariant if idx < argc then x == s && ToCome(ws, nbytes, s, rest)
                else AllThere(ws, nbytes, s) && x == if ws == [] then s else s + [NUL]
    {
      ArgumentAt(m[..], argv[..argc], ws, idx);
      var ok;
      ok, at, s := PutArg(m, argv[idx], buf, at, nbytes, idx + 1 == argc, ws, was, s, rest);
      if !ok {
        return -1;
      }
      idx := idx + 1;
      rest := rest[1..];
      x := if idx < argc then s else s + [NUL];
    }
    WhenAllThere(ws, nbytes, s);
    r := EndArgs(buf, at, nbytes - at, was, s, x);
    WrittenWithin(buf[..], was, if nbytes - at < 1 then x else s + [NUL], nbytes, EndsAt(ws, nbytes));
    WrittenIs(buf[..], was, s + [NUL]);
  }

  lemma NoneYet(was: seq<byte>, n: int, ws: seq<seq<byte>>)
    ensures Written(was, was, []) && (if ws == [] then AllThere(ws, n, []) else ToCome(ws, n, [], ws))
  {
  }

  lemma WhenAllThere(ws: seq<seq<byte>>, n: int, s: seq<byte>)
    requires AllThere(ws, n, s)
    ensures s == Join(ws) && EndsAt(ws, n) == (ws != [] && |s| == n)
    ensures if ws == [] then s == [] else |s| <= n
  {
  }

  lemma WrittenIs(b: seq<byte>, was: seq<byte>, x: seq<byte>)
    ensures Written(b, was, x) ==> |x| <= |was| && b == Patch(was, 0, x)
  {
  }

  lemma ArgumentCount(m: seq<byte>, argv: seq<int>, ws: seq<seq<byte>>)
    requires Arguments(m, argv, ws)
    ensures |argv| == |ws| + 1
  {
  }

  /** The argv that execute makes of a command is one that getargs joins: to the words
      behind the first, whatever blanks and newlines the command has. */
  lemma HandedOver(m: seq<byte>, argv: seq<int>, c: seq<byte>)
    requires Placed(m, argv, Tokens(c), BUF_SIZE)
    ensures Arguments(m, argv, Tokens(c)[1..])
  {
    forall i | 0 <= i < |Tokens(c)| - 1
      ensures WordAt(m, argv[i + 1], Tokens(c)[1..][i])
    {
      assert WordAt(m, argv[i + 1], Tokens(c)[i + 1]);
    }
  }

  /** A program's name and its arguments, joined by spaces, come back as they were. */
  lemma JoinedHandedOver(m: seq<byte>, argv: seq<int>, name: seq<byte>, ws: seq<seq<byte>>)
    requires forall i :: 0 <= i < |name| ==> !Stops(name[i])
    requires AllWords(ws) && Placed(m, argv, Tokens(Join([name] + ws)), BUF_SIZE)
    ensures Arguments(m, argv, ws)
  {
    TokensOfJoin(name, ws);
    HandedOver(m, argv, Join([name] + ws));
    assert ([[DOT, SLASH] + name] + ws)[1..] == ws;
  }

  /** execute's argv, read by getargs in the program it starts. */
  method ExecuteThenGetargs(command: array<byte>, buf: array<byte>, args: array<int>, dest: array<byte>, nbytes: int)
    returns (started: bool, r: int)
    requires Terminated(command[..], 0) && buf != command && dest != buf && dest != command
    requires buf.Length == BUF_SIZE && args.Length == ARGV_SIZE && 0 <= nbytes < dest.Length
    modifies buf, args, dest
    ensures started <==> |old(CStr(command[..], 0))| <= 1023
    ensures var s := Join(Tokens(old(CStr(command[..], 0)))[1..]);
      started ==> r == (if |s| < nbytes then 0 else -1)
                  && (r == 0 ==> dest[..] == Patch(old(dest[..]), 0, s + [NUL]))
  {
    ghost var c := CStr(command[..], 0);
    var n := Tokenize(command, buf, args);
    if n.None? {
      return false, -1;
    }
    hide CStr, Terminated, Placed, Arguments, Tokens, EndsAt;
    HandedOver(buf[..], args[..n.value], c);
    r := Getargs(buf, args, n.value, dest, nbytes, Tokens(c)[1..]);
    started := true;
  }

  lemma ArgumentAt(m: seq<byte>, argv: seq<int>, ws: seq<seq<byte>>, idx: nat)
    requires Arguments(m, argv, ws) && 1 <= idx < |argv|
    ensures |argv| == |ws| + 1 && argv[idx] >= 0 && WordAt(m, argv[idx], ws[idx - 1])
  {
    assert WordAt(m, argv[idx - 1 + 1], ws[idx - 1]);
  }
}
