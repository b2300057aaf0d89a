/** What the two frames look like on the screen: their requests given to the blinking list. */
module FishScreen {
  import opened Bytes
  import opened Blink
  import opened BlinkRuns
  import opened Fish

  /** Frames that fit on the screen: no row is longer than 80 characters, and none goes past
      the last cell. */
  ghost predicate Fits(ls: seq<seq<byte>>, ms: seq<seq<byte>>) {
    forall r: nat :: r < Rows(ls, ms) ==> RowFits(r, Columns(LineAt(ls, r), LineAt(ms, r)))
  }

  predicate RowFits(r: nat, n: nat) { n <= ROW && (n > 0 ==> Place(r, n - 1) < SCREEN_CELLS) }

  function Place(r: nat, c: nat): nat { ROW * r + c + OFFSET }

  // ----- the requests, taken together

  /** Requests in order of their locations, all in lo..hi. */
  ghost predicate Ascending(asks: seq<Blinker>, lo: nat, hi: nat) {
    && (forall i :: 0 <= i < |asks| ==> lo <= asks[i].location < hi)
    && (forall i, j :: 0 <= i < j < |asks| ==> asks[i].location < asks[j].location)
  }

  lemma AscendingAppend(p: seq<Blinker>, q: seq<Blinker>, lo: nat, mid: nat, hi: nat)
    requires Ascending(p, lo, mid) && Ascending(q, mid, hi) && lo <= mid <= hi
    ensures Ascending(p + q, lo, hi)
  {
  }

  lemma {:induction false} RowAscending(a: seq<byte>, b: seq<byte>, r: nat, n: nat)
    requires RowFits(r, n)
    ensures Ascending(RowAsks(a, b, r, n), Place(r, 0), Place(r, n))
  {
    if n > 0 {
      RowAscending(a, b, r, n - 1);
      var x, y := Cell(a, n - 1), Cell(b, n - 1);
      AscendingAppend(RowAsks(a, b, r, n - 1), if x == SPACE && y == SPACE then [] else [Ask(r, n - 1, x, y)],
                      Place(r, 0), Place(r, n - 1), Place(r, n));
    }
  }

  /** A row's requests behind those of the rows above it. */
  lemma AppendRow(before: seq<Blinker>, asks: seq<Blinker>, r: nat, n: nat)
    requires RowFits(r, n) && (n == 0 ==> asks == [])
    requires Ascending(before, OFFSET, Min(Place(r, 0), SCREEN_CELLS)) && Ascending(asks, Place(r, 0), Place(r, n))
    ensures Ascending(before + asks, OFFSET, Min(Place(r + 1, 0), SCREEN_CELLS))
  {
    if n == 0 {
      assert before + asks == before;
    } else {
      AscendingAppend(before, asks, OFFSET, Place(r, 0), Place(r, n));
    }
  }

  lemma {:induction false} FrameAscending(ls: seq<seq<byte>>, ms: seq<seq<byte>>, rows: nat)
    requires Fits(ls, ms) && rows <= Rows(ls, ms)
    ensures Ascending(FrameAsks(ls, ms, rows), OFFSET, Min(Place(rows, 0), SCREEN_CELLS))
  {
    if rows > 0 {
      var r, a, b := rows - 1, LineAt(ls, rows - 1), LineAt(ms, rows - 1);
      FrameAscending(ls, ms, r);
      assert RowFits(r, Columns(a, b));
      RowAscending(a, b, r, Columns(a, b));
      NoColumns(a, b, r);
      hide Fits, RowAsks, Ascending, RowFits, Place;
      AppendRow(FrameAsks(ls, ms, r), RowAsks(a, b, r, Columns(a, b)), r, Columns(a, b));
    }
  }

  lemma NoColumns(a: seq<byte>, b: seq<byte>, r: nat)
    ensures Columns(a, b) == 0 ==> RowAsks(a, b, r, Columns(a, b)) == []
  {
  }

  predicate Blank(a: seq<byte>, b: seq<byte>, c: nat) { Cell(a, c) == SPACE && Cell(b, c) == SPACE }

  ghost predicate Asked(asks: seq<Blinker>, q: Blinker) { exists i :: 0 <= i < |asks| && asks[i] == q }

  lemma AskedAppend(p: seq<Blinker>, q: seq<Blinker>, b: Blinker)
    ensures Asked(p + q, b) <==> Asked(p, b) || Asked(q, b)
  {
    if Asked(p, b) {
      var i :| 0 <= i < |p| && p[i] == b;
      assert (p + q)[i] == b;
    }
    if Asked(q, b) {
      var i :| 0 <= i < |q| && q[i] == b;
      assert (p + q)[|p| + i] == b;
    }
  }

  /** q asks for column c of row r: cell 80 r + c + 40 blinks between the two characters, 15
      ticks each, unless both are blank. A line that is over is blank. */
  ghost predicate AskOf(a: seq<byte>, b: seq<byte>, r: nat, c: nat, q: Blinker) {
    var x: byte, y: byte := if c < |a| then a[c] else 32, if c < |b| then b[c] else 32;
    !(x == 32 && y == 32) && q == Blinker((80 * r + c + 40) % 65536, x, y, 15, 15, 0, 0)
  }

  /** A row asks for exactly its columns that are not blank. */
  lemma {:induction false} RowAsked(a: seq<byte>, b: seq<byte>, r: nat, n: nat, q: Blinker)
    ensures Asked(RowAsks(a, b, r, n), q) <==> exists c: nat :: c < n && AskOf(a, b, r, c, q)
  {
    if n > 0 {
      RowAsked(a, b, r, n - 1, q);
      var last := if Blank(a, b, n - 1) then [] else [Ask(r, n - 1, Cell(a, n - 1), Cell(b, n - 1))];
      AskedAppend(RowAsks(a, b, r, n - 1), last, q);
      assert Asked(last, q) <==> AskOf(a, b, r, n - 1, q) by {
        if AskOf(a, b, r, n - 1, q) { assert last[0] == q; }
      }
    }
  }

  ghost predicate InRow(ls: seq<seq<byte>>, ms: seq<seq<byte>>, r: nat, q: Blinker) {
    exists c: nat ::
      (c < |LineAt(ls, r)| || c < |LineAt(ms, r)|) && AskOf(LineAt(ls, r), LineAt(ms, r), r, c, q)
  }

  /** The two frames ask for exactly the cells that are not blank in both. */
  lemma {:induction false} FrameAsked(ls: seq<seq<byte>>, ms: seq<seq<byte>>, rows: nat, q: Blinker)
    ensures Asked(FrameAsks(ls, ms, rows), q) <==> exists r: nat :: r < rows && InRow(ls, ms, r, q)
  {
    if rows > 0 {
      var a, b := LineAt(ls, rows - 1), LineAt(ms, rows - 1);
      FrameAsked(ls, ms, rows - 1, q);
      RowAsked(a, b, rows - 1, Columns(a, b), q);
      AskedAppend(FrameAsks(ls, ms, rows - 1), RowAsks(a, b, rows - 1, Columns(a, b)), q);
      assert Asked(RowAsks(a, b, rows - 1, Columns(a, b)), q) <==> InRow(ls, ms, rows - 1, q);
      hide InRow, RowAsks, Asked;
    }
  }

  // ----- the list they make

  function AddAll(s: State, asks: seq<Blinker>): State {
    if asks == [] then s else Add(AddAll(s, asks[..|asks| - 1]), asks[|asks| - 1])
  }

  /** Every request finds a slot, and the list holds them all, the last one in front. */
  lemma {:induction false} AddsAll(screen: seq<byte>, asks: seq<Blinker>)
    requires |screen| == 2 * SCREEN_CELLS && Ascending(asks, 1, SCREEN_CELLS)
    ensures var t := AddAll(State([], screen), asks);
      && ScreenAgrees(t) && |t.list| == |asks|
      && forall i :: 0 <= i < |asks| ==> t.list[i] == Fresh(asks[|asks| - 1 - i])
  {
    if asks != [] {
      var before, q := asks[..|asks| - 1], asks[|asks| - 1];
      AddsAll(screen, before);
      var s := AddAll(State([], screen), before);
      RoomForEveryCell(s, q);
      AddAgrees(s, q);
    }
  }

  // ----- the picture

  ghost predicate OnlyTicks(ops: seq<Op>) { forall i :: 0 <= i < |ops| ==> ops[i] == DoTick }

  lemma {:induction false} CountTicks(ops: seq<Op>)
    requires OnlyTicks(ops)
    ensures Ticks(ops) == |ops|
  {
    if ops != [] {
      CountTicks(ops[..|ops| - 1]);
    }
  }

  lemma {:induction false} TicksSpare(t: State, ops: seq<Op>, i: nat)
    requires OnlyTicks(ops)
    ensures Spared(t, ops, i) && Pos(t, ops, i) == i
  {
    if ops != [] {
      TicksSpare(t, ops[..|ops| - 1], i);
    }
  }

  /** The node of one request after k ticks. */
  lemma NodeAfterTicks(t: State, q: Blinker, i: nat, ops: seq<Op>)
    requires ScreenAgrees(t) && i < |t.list| && t.list[i] == Fresh(q) && OnlyTicks(ops)
    requires q.onLength == q.offLength == LENGTH
    ensures var u := Run(t, ops);
      && |u.screen| == 2 * SCREEN_CELLS && q.location < SCREEN_CELLS
      && u.screen[2 * q.location] == if |ops| % 30 < 15 then q.onChar else q.offChar
  {
    TicksSpare(t, ops, i);
    CountTicks(ops);
    ScreenAgreesInRun(t, ops);
    assert Effective(q.onLength) == Effective(q.offLength) == 15;
    hide Phase, ScreenAgrees, Run, Effective, Ticks, Spared, Pos;
    NodeRun(t, ops, i);
    TimerClosedForm(q, Ticks(ops));
    PhaseDisplayed(Run(t, ops), q, |ops| % 30, i);
  }

  ghost predicate Unasked(asks: seq<Blinker>, l: nat) { forall i :: 0 <= i < |asks| ==> asks[i].location != l }

  lemma {:induction false} UnaskedAfterAdds(s: State, asks: seq<Blinker>, l: nat)
    requires |s.screen| == 2 * SCREEN_CELLS && l < SCREEN_CELLS
    requires Unasked(asks, l)
    ensures |AddAll(s, asks).screen| == 2 * SCREEN_CELLS && AddAll(s, asks).screen[2 * l] == s.screen[2 * l]
  {
    if asks != [] {
      UnaskedAfterAdds(s, asks[..|asks| - 1], l);
    }
  }

  ghost predicate Unlisted(s: State, l: nat) {
    l < SCREEN_CELLS && ScreenAgrees(s) && forall i :: 0 <= i < |s.list| ==> s.list[i].location != l
  }

  lemma {:induction false} UnlistedAfterTicks(s: State, ops: seq<Op>, l: nat)
    requires Unlisted(s, l) && OnlyTicks(ops)
    ensures Unlisted(Run(s, ops), l) && Run(s, ops).screen[2 * l] == s.screen[2 * l]
  {
    if ops != [] {
      var t := Run(s, ops[..|ops| - 1]);
      UnlistedAfterTicks(s, ops[..|ops| - 1], l);
      TickScreenCell(t.screen, t.list, l);
      TickAgrees(t);
    }
  }

  lemma PlaceOnScreen(ls: seq<seq<byte>>, ms: seq<seq<byte>>, r: nat, c: nat)
    requires Fits(ls, ms) && r < Rows(ls, ms) && c < Columns(LineAt(ls, r), LineAt(ms, r))
    ensures c < ROW && Place(r, c) < SCREEN_CELLS
    ensures forall on, off :: Ask(r, c, on, off).location == Place(r, c)
  {
  }

  lemma PlacesDiffer(r: nat, c: nat, r': nat, c': nat)
    requires c < ROW && c' < ROW && Place(r, c) == Place(r', c')
    ensures r == r' && c == c'
  {
  }

  lemma BlankUnasked(ls: seq<seq<byte>>, ms: seq<seq<byte>>, r: nat, c: nat)
    requires Fits(ls, ms) && r < Rows(ls, ms) && c < Columns(LineAt(ls, r), LineAt(ms, r))
    requires Blank(LineAt(ls, r), LineAt(ms, r), c)
    ensures Unasked(FrameAsks(ls, ms, Rows(ls, ms)), Place(r, c))
  {
    hide FrameAsks, InRow, Fits, Rows, Columns, LineAt, Blank, Cell;
    var asks := FrameAsks(ls, ms, Rows(ls, ms));
    forall i | 0 <= i < |asks|
      ensures asks[i].location != Place(r, c)
    {
      FrameAsked(ls, ms, Rows(ls, ms), asks[i]);
      assert Asked(asks, asks[i]);
      var r': nat :| r' < Rows(ls, ms) && InRow(ls, ms, r', asks[i]);
      RowElsewhere(ls, ms, r, c, r', asks[i]);
    }
  }

  lemma RowElsewhere(ls: seq<seq<byte>>, ms: seq<seq<byte>>, r: nat, c: nat, r': nat, q: Blinker)
    requires Fits(ls, ms) && r < Rows(ls, ms) && c < Columns(LineAt(ls, r), LineAt(ms, r))
    requires Blank(LineAt(ls, r), LineAt(ms, r), c) && r' < Rows(ls, ms) && InRow(ls, ms, r', q)
    ensures q.location != Place(r, c)
  {
    hide Fits, Rows, LineAt;
    var a, b := LineAt(ls, r'), LineAt(ms, r');
    var c': nat :| (c' < |a| || c' < |b|) && AskOf(a, b, r', c', q);
    PlaceOnScreen(ls, ms, r', c');
    PlaceOnScreen(ls, ms, r, c);
    if Place(r', c') == Place(r, c) {
      PlacesDiffer(r, c, r', c');
    }
  }

  lemma OthersAsked(ls: seq<seq<byte>>, ms: seq<seq<byte>>, r: nat, c: nat) returns (i: nat)
    requires Fits(ls, ms) && r < Rows(ls, ms) && c < Columns(LineAt(ls, r), LineAt(ms, r))
    requires !Blank(LineAt(ls, r), LineAt(ms, r), c)
    ensures var asks := FrameAsks(ls, ms, Rows(ls, ms));
      i < |asks| && asks[i] == Ask(r, c, Cell(LineAt(ls, r), c), Cell(LineAt(ms, r), c))
  {
    var a, b, asks := LineAt(ls, r), LineAt(ms, r), FrameAsks(ls, ms, Rows(ls, ms));
    var q := Ask(r, c, Cell(a, c), Cell(b, c));
    assert AskOf(a, b, r, c, q) && InRow(ls, ms, r, q);
    FrameAsked(ls, ms, Rows(ls, ms), q);
    i :| 0 <= i < |asks| && asks[i] == q;
  }

  lemma UnaskedUnlisted(t: State, asks: seq<Blinker>, l: nat)
    requires l < SCREEN_CELLS && ScreenAgrees(t) && |t.list| == |asks|
    requires forall i :: 0 <= i < |asks| ==> t.list[i] == Fresh(asks[|asks| - 1 - i])
    requires Unasked(asks, l)
    ensures Unlisted(t, l)
  {
    forall i | 0 <= i < |t.list|
      ensures t.list[i].location != l
    {
      assert t.list[i] == Fresh(asks[|asks| - 1 - i]);
    }
  }

  /** A cell without a request keeps what it showed. */
  lemma CellLeftAlone(screen: seq<byte>, asks: seq<Blinker>, ops: seq<Op>, l: nat)
    requires |screen| == 2 * SCREEN_CELLS && l < SCREEN_CELLS && Unasked(asks, l) && OnlyTicks(ops)
    requires Ascending(asks, 1, SCREEN_CELLS)
    ensures var u := Run(AddAll(State([], screen), asks), ops);
      |u.screen| == 2 * SCREEN_CELLS && u.screen[2 * l] == screen[2 * l]
  {
    var s := State([], screen);
    AddsAll(screen, asks);
    UnaskedAfterAdds(s, asks, l);
    UnaskedUnlisted(AddAll(s, asks), asks, l);
    hide OnlyTicks, Ascending, Run, AddAll;
    UnlistedAfterTicks(AddAll(s, asks), ops, l);
  }

  /** A request's cell shows its two characters in turn. */
  lemma CellAlternates(screen: seq<byte>, asks: seq<Blinker>, ops: seq<Op>, i: nat)
    requires |screen| == 2 * SCREEN_CELLS && OnlyTicks(ops) && Ascending(asks, 1, SCREEN_CELLS)
    requires i < |asks| && asks[i].onLength == asks[i].offLength == LENGTH
    ensures var u := Run(AddAll(State([], screen), asks), ops);
      && |u.screen| == 2 * SCREEN_CELLS && asks[i].location < SCREEN_CELLS
      && u.screen[2 * asks[i].location] == if |ops| % 30 < 15 then asks[i].onChar else asks[i].offChar
  {
    AddsAll(screen, asks);
    assert AddAll(State([], screen), asks).list[|asks| - 1 - i] == Fresh(asks[i]);
    NodeAfterTicks(AddAll(State([], screen), asks), asks[i], |asks| - 1 - i, ops);
  }

  /** The animation: frames that fit are shown in turn, 15 ticks each, and cells that are
      blank in both are left alone. */
  lemma FramesAlternate(ls: seq<seq<byte>>, ms: seq<seq<byte>>, screen: seq<byte>, ops: seq<Op>, r: nat, c: nat)
    requires Fits(ls, ms) && |screen| == 2 * SCREEN_CELLS && OnlyTicks(ops)
    requires r < Rows(ls, ms) && c < Columns(LineAt(ls, r), LineAt(ms, r))
    ensures var a, b := LineAt(ls, r), LineAt(ms, r);
      var x, y := if c < |a| then a[c] else 32, if c < |b| then b[c] else 32;
      var u, cell := Run(AddAll(State([], screen), FrameAsks(ls, ms, Rows(ls, ms))), ops), 80 * r + c + 40;
      && |u.screen| == 4000 && cell < 2000
      && u.screen[2 * cell] == if x == 32 && y == 32 then screen[2 * cell] else if |ops| % 30 < 15 then x else y
  {
    var a, b, asks := LineAt(ls, r), LineAt(ms, r), FrameAsks(ls, ms, Rows(ls, ms));
    FrameAscending(ls, ms, Rows(ls, ms));
    PlaceOnScreen(ls, ms, r, c);
    assert Ascending(asks, 1, SCREEN_CELLS);
    hide FrameAsks, Fits, AddAll, Ascending, Run, OnlyTicks, Rows, Columns, LineAt;
    if Blank(a, b, c) {
      BlankUnasked(ls, ms, r, c);
      CellLeftAlone(screen, asks, ops, Place(r, c));
    } else {
      var i := OthersAsked(ls, ms, r, c);
      CellAlternates(screen, asks, ops, i);
    }
  }
}
