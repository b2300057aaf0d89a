/** fish.c: two text frames, read side by side, become requests for blinking characters. */
module Fish {
  import opened Bytes
  import opened Text
  import opened Blink

  const ROW: nat := 80
  const OFFSET: nat := 40
  const LENGTH: uint16 := 15
  const ZERO: byte := 48

  /** A line beyond a file's last one is empty. */
  function LineAt(ls: seq<seq<byte>>, r: nat): seq<byte> {
    if r < |ls| then ls[r] else []
  }

  /** A column beyond the end of a line is blank. */
  function Cell(line: seq<byte>, c: nat): byte {
    if c < |line| then line[c] else SPACE
  }

  function Ask(r: nat, c: nat, on: byte, off: byte): Blinker {
    Blinker((ROW * r + c + OFFSET) % 0x1_0000, on, off, LENGTH, LENGTH, 0, 0)
  }

  function Columns(a: seq<byte>, b: seq<byte>): nat { if |a| <= |b| then |b| else |a| }

  /** The requests for the first n columns of a row: every column that is not blank in both lines. */
  function RowAsks(a: seq<byte>, b: seq<byte>, r: nat, n: nat): seq<Blinker> {
    if n == 0 then [] else
      var x, y := Cell(a, n - 1), Cell(b, n - 1);
      RowAsks(a, b, r, n - 1) + if x == SPACE && y == SPACE then [] else [Ask(r, n - 1, x, y)]
  }

  function FrameAsks(ls: seq<seq<byte>>, ms: seq<seq<byte>>, rows: nat): seq<Blinker> {
    if rows == 0 then [] else
      var a, b := LineAt(ls, rows - 1), LineAt(ms, rows - 1);
      FrameAsks(ls, ms, rows - 1) + RowAsks(a, b, rows - 1, Columns(a, b))
  }

  // ----- one file, a byte at a time

  /** Where reading stands: `line` is what is left of the line being read and `later` are
      the lines behind it. A newline in c marks a line read to its end. */
  ghost predicate Stands(f: File, c: byte, eof: bool, line: seq<byte>, later: seq<seq<byte>>)
    reads f
  {
    && f.Valid()
    && (c != NEWLINE ==> !eof && Lines(f.contents[f.pos..]) == [line] + later)
    && (c == NEWLINE ==> line == [] && eof == (later == []) && (later != [] ==> Lines(f.contents[f.pos..]) == later))
  }

  lemma HeadAndTail(x: seq<byte>, xs: seq<seq<byte>>, line: seq<byte>, later: seq<seq<byte>>)
    requires [x] + xs == [line] + later
    ensures x == line && xs == later
  {
    assert ([x] + xs)[0] == x && ([line] + later)[0] == line;
    assert ([x] + xs)[1..] == xs && ([line] + later)[1..] == later;
  }

  lemma LineLengthStep(f: seq<byte>)
    requires f != [] && f[0] != NEWLINE
    ensures var k := LineLength(f);
      && k == LineLength(f[1..]) + 1 && f[..k][1..] == f[1..][..k - 1]
      && (k < |f| ==> f[k + 1..] == f[1..][k..])
  {
  }

  /** The first line of a file, by its first byte. */
  lemma FirstLine(f: seq<byte>, line: seq<byte>, later: seq<seq<byte>>)
    requires Lines(f) == [line] + later
    ensures f == [] ==> line == [] && later == []
    ensures f != [] && f[0] == NEWLINE ==> line == [] && later == Lines(f[1..])
    ensures f != [] && f[0] != NEWLINE ==> line != [] && line[0] == f[0] && Lines(f[1..]) == [line[1..]] + later
  {
    var k := LineLength(f);
    LinesAre(f);
    hide Lines;
    HeadAndTail(f[..k], if k == |f| then [] else Lines(f[k + 1..]), line, later);
    if f != [] && f[0] != NEWLINE {
      LineLengthStep(f);
      LinesAre(f[1..]);
    }
  }

  lemma LinesAre(f: seq<byte>)
    ensures LineLength(f) == |f| ==> Lines(f) == [f[..LineLength(f)]] + []
    ensures LineLength(f) < |f| ==> Lines(f) == [f[..LineLength(f)]] + Lines(f[LineLength(f) + 1..])
  {
    if LineLength(f) == |f| {
      assert f[..|f|] == f;
    }
  }

  function Tail(line: seq<byte>): seq<byte> { if line == [] then [] else line[1..] }

  method ReadByte(f: File) returns (n: nat, c: byte)
    requires f.Valid()
    modifies f
    ensures f.Valid()
    ensures var rest := old(f.contents[f.pos..]);
      if rest == [] then n == 0 else n == 1 && c == rest[0] && f.contents[f.pos..] == rest[1..]
  {
    var buf := new byte[1];
    n := f.Read(buf, 0, 1);
    c := buf[0];
  }

  /** Reads the next character, unless the line is over; the end of the file ends a line. */
  method Next(f: File, c: byte, eof: bool, ghost line: seq<byte>, ghost later: seq<seq<byte>>)
    returns (c': byte, eof': bool)
    requires Stands(f, c, eof, line, later)
    modifies f
    ensures Stands(f, c', eof', Tail(line), later)
    ensures c' == if line == [] then NEWLINE else line[0]
    ensures line != [] ==> line[0] != NEWLINE
  {
    c', eof' := c, eof;
    if c != NEWLINE {
      FirstLine(f.contents[f.pos..], line, later);
      hide Lines;
      var n, read := ReadByte(f);
      if n == 0 {
        c', eof' := NEWLINE, true;
      } else {
        c' := read;
      }
    }
  }

  function Drop(line: seq<byte>, n: nat): seq<byte> { if n <= |line| then line[n..] else [] }

  lemma DropStep(line: seq<byte>, n: nat)
    ensures Tail(Drop(line, n)) == Drop(line, n + 1)
    ensures Drop(line, n) == [] <==> n >= |line|
    ensures n < |line| ==> Drop(line, n)[0] == line[n]
  {
  }

  /** One column: a request, unless both characters are blank. */
  method AskFor(asked: seq<Blinker>, row: nat, col: nat, c0: byte, c1: byte, ghost a: seq<byte>, ghost b: seq<byte>)
    returns (all: seq<Blinker>)
    requires c0 == (if col < |a| then a[col] else NEWLINE) && c1 == if col < |b| then b[col] else NEWLINE
    requires (col < |a| ==> c0 != NEWLINE) && (col < |b| ==> c1 != NEWLINE)
    requires asked == RowAsks(a, b, row, col)
    ensures all == RowAsks(a, b, row, col + 1)
  {
    all := asked;
    if (c0 != SPACE && c0 != NEWLINE) || (c1 != SPACE && c1 != NEWLINE) {
      var on := if c0 == NEWLINE then SPACE else c0;
      var off := if c1 == NEWLINE then SPACE else c1;
      all := all + [Ask(row, col, on, off)];
    }
  }

  /** One row: reads a line of each file to its end. */
  method AddRow(f0: File, f1: File, row: nat, c0: byte, eof0: bool, c1: byte, eof1: bool,
                ghost a: seq<byte>, ghost la: seq<seq<byte>>, ghost b: seq<byte>, ghost lb: seq<seq<byte>>)
    returns (c0': byte, eof0': bool, c1': byte, eof1': bool, asked: seq<Blinker>)
    requires f0 != f1 && Stands(f0, c0, eof0, a, la) && Stands(f1, c1, eof1, b, lb)
    modifies f0, f1
    ensures Stands(f0, c0', eof0', [], la) && Stands(f1, c1', eof1', [], lb) && c0' == c1' == NEWLINE
    ensures asked == RowAsks(a, b, row, Columns(a, b))
  {
    c0', eof0', c1', eof1', asked := c0, eof0, c1, eof1, [];
    var col := 0;
    hide Stands, RowAsks, Drop, Tail;
    DropNone(a);
    DropNone(b);
    NoAsks(a, b, row);
    while true
      invariant col <= Columns(a, b)
      invariant Stands(f0, c0', eof0', Drop(a, col), la) && Stands(f1, c1', eof1', Drop(b, col), lb)
      invariant asked == RowAsks(a, b, row, col)
      decreases Columns(a, b) - col
    {
      DropStep(a, col);
      DropStep(b, col);
      c0', eof0' := Next(f0, c0', eof0', Drop(a, col), la);
      c1', eof1' := Next(f1, c1', eof1', Drop(b, col), lb);
      if c0' == NEWLINE && c1' == NEWLINE {
        break;
      }
      asked := AskFor(asked, row, col, c0', c1', a, b);
      col := col + 1;
    }
    DropStep(a, col + 1);
    DropStep(b, col + 1);
  }

  lemma DropNone(line: seq<byte>)
    ensures Drop(line, 0) == line
  {
  }

  lemma NoAsks(a: seq<byte>, b: seq<byte>, row: nat)
    ensures RowAsks(a, b, row, 0) == []
  {
  }

  /** The lines behind line r. */
  function Behind(ls: seq<seq<byte>>, r: nat): seq<seq<byte>> {
    if r < |ls| then ls[r + 1..] else []
  }

  ghost predicate AtRow(f: File, c: byte, eof: bool, ls: seq<seq<byte>>, r: nat)
    reads f
  {
    Stands(f, c, eof, LineAt(ls, r), Behind(ls, r)) && (eof <==> r >= |ls|)
  }

  /** Between two rows: a file that has ended keeps its newline, the other starts afresh. */
  lemma NextRow(f: File, c: byte, eof: bool, ls: seq<seq<byte>>, r: nat)
    requires Stands(f, NEWLINE, eof, [], Behind(ls, r))
    requires c == if eof then NEWLINE else ZERO
    ensures AtRow(f, c, eof, ls, r + 1)
  {
    if r + 1 < |ls| {
      assert ls[r + 1..] == [ls[r + 1]] + ls[r + 2..];
    }
  }

  /** A row, with everything made ready for the next one. */
  method FrameRow(f0: File, f1: File, row: nat, c0: byte, eof0: bool, c1: byte, eof1: bool, asked: seq<Blinker>,
                  ghost ls: seq<seq<byte>>, ghost ms: seq<seq<byte>>)
    returns (c0': byte, eof0': bool, c1': byte, eof1': bool, all: seq<Blinker>)
    requires f0 != f1 && AtRow(f0, c0, eof0, ls, row) && AtRow(f1, c1, eof1, ms, row)
    requires asked == FrameAsks(ls, ms, row)
    modifies f0, f1
    ensures AtRow(f0, c0', eof0', ls, row + 1) && AtRow(f1, c1', eof1', ms, row + 1)
    ensures all == FrameAsks(ls, ms, row + 1)
  {
    hide Stands, RowAsks, LineAt, Behind;
    var more;
    c0', eof0', c1', eof1', more := AddRow(f0, f1, row, c0, eof0, c1, eof1,
                                           LineAt(ls, row), Behind(ls, row), LineAt(ms, row), Behind(ms, row));
    all := asked + more;
    c0' := if eof0' then NEWLINE else ZERO;
    c1' := if eof1' then NEWLINE else ZERO;
    NextRow(f0, c0', eof0', ls, row);
    NextRow(f1, c1', eof1', ms, row);
  }

  function Rows(ls: seq<seq<byte>>, ms: seq<seq<byte>>): nat { if |ls| <= |ms| then |ms| else |ls| }

  lemma FirstRow(f: File)
    requires f.Valid() && f.pos == 0
    ensures AtRow(f, ZERO, false, Lines(f.contents), 0)
  {
    assert f.contents[0..] == f.contents;
  }

  /** The loop runs for as many rows as the longer file has lines. */
  lemma RowsLeft(f0: File, c0: byte, eof0: bool, f1: File, c1: byte, eof1: bool,
                 ls: seq<seq<byte>>, ms: seq<seq<byte>>, row: nat)
    requires AtRow(f0, c0, eof0, ls, row) && AtRow(f1, c1, eof1, ms, row)
    ensures (!eof0 || !eof1) <==> row < Rows(ls, ms)
  {
    hide Stands;
  }

  /** add_frames: the requests are those of the two files' lines, row by row. */
  method AddFrames(f0: File, f1: File) returns (asked: seq<Blinker>)
    requires f0 != f1 && f0.Valid() && f1.Valid() && f0.pos == f1.pos == 0
    modifies f0, f1
    ensures var ls, ms := Lines(f0.contents), Lines(f1.contents); asked == FrameAsks(ls, ms, Rows(ls, ms))
  {
    ghost var ls, ms := Lines(f0.contents), Lines(f1.contents);
    FirstRow(f0);
    FirstRow(f1);
    asked := [];
    assert asked == FrameAsks(ls, ms, 0);
    hide FrameAsks, Lines, AtRow, Rows;
    var row, eof0, eof1 := 0, false, false;
    var c0: byte, c1: byte := ZERO, ZERO;
    while !eof0 || !eof1
      invariant AtRow(f0, c0, eof0, ls, row) && AtRow(f1, c1, eof1, ms, row)
      invariant row <= Rows(ls, ms) && asked == FrameAsks(ls, ms, row)
      decreases Rows(ls, ms) - row
    {
      RowsLeft(f0, c0, eof0, f1, c1, eof1, ls, ms, row);
      c0, eof0, c1, eof1, asked := FrameRow(f0, f1, row, c0, eof0, c1, eof1, asked, ls, ms);
      row := row + 1;
    }
    RowsLeft(f0, c0, eof0, f1, c1, eof1, ls, ms, row);
  }
}
