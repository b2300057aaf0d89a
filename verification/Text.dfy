/** Text files: their lines, and an open descriptor on one. */
module Text {
  import opened Bytes

  /** Index of the first newline, or the length when there is none. */
  function LineLength(f: seq<byte>): (k: nat)
    ensures k <= |f| && NEWLINE !in f[..k]
    ensures k < |f| ==> f[k] == NEWLINE
  {
    if f == [] || f[0] == NEWLINE then 0 else 1 + LineLength(f[1..])
  }

  /** The newline-separated pieces of a file. What follows the last newline is a line
      too, possibly an empty one. */
  function Lines(f: seq<byte>): (ls: seq<seq<byte>>)
    ensures |ls| > 0
  {
    var k := LineLength(f);
    if k == |f| then [f] else [f[..k]] + Lines(f[k + 1..])
  }

  /** A newline at k with none before it is the first one. */
  lemma LineLengthIs(f: seq<byte>, k: nat)
    requires k <= |f| && NEWLINE !in f[..k]
    requires k < |f| ==> f[k] == NEWLINE
    ensures LineLength(f) == k
  {
    var n := LineLength(f);
    assert forall i :: 0 <= i < k ==> f[i] == f[..k][i] && f[i] != NEWLINE;
    assert forall i :: 0 <= i < n ==> f[i] == f[..n][i] && f[i] != NEWLINE;
  }

  /** Lines put together again, with a newline between each two. */
  function Joined(ls: seq<seq<byte>>): seq<byte> {
    if ls == [] then [] else if |ls| == 1 then ls[0] else ls[0] + [10] + Joined(ls[1..])
  }

  lemma JoinedCons(line: seq<byte>, ls: seq<seq<byte>>)
    requires ls != []
    ensures Joined([line] + ls) == line + [10] + Joined(ls)
  {
    assert ([line] + ls)[1..] == ls;
  }

  lemma FirstOfLines(f: seq<byte>)
    ensures var k := LineLength(f);
      if k == |f| then Lines(f) == [f] else Lines(f) == [f[..k]] + Lines(f[k + 1..]) && f[k] == 10
  {
    hide LineLength;
  }

  lemma AtFirst(f: seq<byte>, k: nat)
    requires k < |f|
    ensures f == f[..k] + [f[k]] + f[k + 1..]
  {
  }

  /** A file is its lines, joined by newlines. */
  lemma {:induction false} LinesJoin(f: seq<byte>)
    ensures Joined(Lines(f)) == f
    decreases |f|
  {
    hide Joined, Lines, LineLength;
    var k := LineLength(f);
    FirstOfLines(f);
    if k == |f| {
      JoinedOne(f);
    } else {
      LinesJoin(f[k + 1..]);
      JoinedCons(f[..k], Lines(f[k + 1..]));
      AtFirst(f, k);
    }
  }

  lemma JoinedOne(f: seq<byte>)
    ensures Joined([f]) == f
  {
  }

  /** No line holds a newline. */
  lemma {:induction false} LinesHoldNone(f: seq<byte>, i: nat)
    requires i < |Lines(f)|
    ensures 10 !in Lines(f)[i]
    decreases |f|
  {
    hide Lines, LineLength;
    var k := LineLength(f);
    FirstOfLines(f);
    if k == |f| {
      assert f[..k] == f;
    } else if i > 0 {
      LinesHoldNone(f[k + 1..], i - 1);
    }
  }

  /** A regular file open for reading. */
  class File {
    const contents: seq<byte>
    var pos: nat

    predicate Valid() reads this { pos <= |contents| }

    constructor (contents: seq<byte>)
      ensures Valid() && pos == 0 && this.contents == contents
    {
      this.contents, pos := contents, 0;
    }

    /** The read system call on a regular file: as many bytes as were asked for and
        are left, zero at the end of the file. */
    method Read(buf: array<byte>, at: nat, n: nat) returns (cnt: nat)
      requires Valid() && at + n <= buf.Length
      modifies this`pos, buf
      ensures Valid() && cnt == Min(n, |contents| - old(pos)) && pos == old(pos) + cnt
      ensures buf[..] == old(buf[..at]) + contents[old(pos)..pos] + old(buf[at + cnt..])
    {
      cnt := Min(n, |contents| - pos);
      forall k | 0 <= k < cnt {
        buf[at + k] := contents[pos + k];
      }
      pos := pos + cnt;
    }
  }
}
