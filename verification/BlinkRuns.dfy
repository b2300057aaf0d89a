/** What holds of the blinking list over whole runs of add, remove, find, sync and tick. */
module BlinkRuns {
  import opened Bytes
  import opened Blink

  datatype Op = DoAdd(user: Blinker) | DoRemove(location: uint16) | DoFind(location: uint16)
              | DoSync(first: uint16, second: uint16) | DoTick

  function Step(s: State, op: Op): State {
    match op
    case DoAdd(user) => Add(s, user)
    case DoRemove(location) => Remove(s, location)
    case DoFind(_) => s
    case DoSync(first, second) => Sync(s, first, second)
    case DoTick => Tick(s)
  }

  function Run(s: State, ops: seq<Op>): State {
    if ops == [] then s else Step(Run(s, ops[..|ops| - 1]), ops[|ops| - 1])
  }

  function Ticks(ops: seq<Op>): nat {
    if ops == [] then 0 else Ticks(ops[..|ops| - 1]) + if ops[|ops| - 1].DoTick? then 1 else 0
  }

  // ----- one node through a run

  predicate Listed(list: seq<Blinker>, location: uint16) {
    FirstAt(list, location) < |list|
  }

  predicate Syncs(list: seq<Blinker>, first: uint16, second: uint16) {
    Listed(list, first) && Listed(list, second)
  }

  /** The operation takes the i-th node off the list, or makes it take over another's timing. */
  predicate Hits(s: State, op: Op, i: nat) {
    match op
    case DoRemove(location) => FirstAt(s.list, location) == i
    case DoSync(first, second) => Syncs(s.list, first, second) && FirstAt(s.list, second) == i
    case _ => false
  }

  /** Where the i-th node is after an operation that does not remove it. */
  function Moved(s: State, op: Op, i: nat): nat {
    match op
    case DoAdd(user) => if AddFails(s, user) then i else i + 1
    case DoRemove(location) => if FirstAt(s.list, location) < i then i - 1 else i
    case _ => i
  }

  function Pos(s: State, ops: seq<Op>, i: nat): nat {
    if ops == [] then i
    else var before := ops[..|ops| - 1]; Moved(Run(s, before), ops[|ops| - 1], Pos(s, before, i))
  }

  /** No operation of the run removes the node that was i-th, or syncs it to another. */
  predicate Spared(s: State, ops: seq<Op>, i: nat) {
    ops == [] ||
    var before := ops[..|ops| - 1];
    Spared(s, before, i) && !Hits(Run(s, before), ops[|ops| - 1], Pos(s, before, i))
  }

  function After(b: Blinker, k: nat): (r: Blinker)
    ensures r.location == b.location && r.onChar == b.onChar && r.offChar == b.offChar
    ensures r.onLength == b.onLength && r.offLength == b.offLength
  {
    if k == 0 then b else TickOne(After(b, k - 1))
  }

  lemma NodeStep(s: State, op: Op, i: nat)
    requires i < |s.list| && !Hits(s, op, i)
    ensures var k := Moved(s, op, i);
      k < |Step(s, op).list| && Step(s, op).list[k] == if op.DoTick? then TickOne(s.list[i]) else s.list[i]
  {
  }

  /** A node that is spared sees ticks only, whatever happens around it. */
  lemma {:induction false} NodeRun(s: State, ops: seq<Op>, i: nat)
    requires i < |s.list| && Spared(s, ops, i)
    ensures Pos(s, ops, i) < |Run(s, ops).list|
    ensures Run(s, ops).list[Pos(s, ops, i)] == After(s.list[i], Ticks(ops))
  {
    hide Step, Hits, Moved, TickOne;
    if ops != [] {
      var before := ops[..|ops| - 1];
      NodeRun(s, before, i);
      NodeStep(Run(s, before), ops[|ops| - 1], Pos(s, before, i));
    }
  }

  // ----- what an add and a sync change

  /** An add refuses locations off the screen and a full pool. Otherwise it puts a node in
      front that starts its on phase, and draws one character. */
  lemma AddPutsInFront(s: State, user: Blinker)
    requires |s.screen| == 4000
    ensures var t := Add(s, user);
      if user.location >= 2000 || |s.list| >= 2000 then t == s
      else
        && |t.list| == |s.list| + 1 && t.list[1..] == s.list
        && t.list[0] == Blinker(user.location, user.onChar, user.offChar,
                                user.onLength, user.offLength, user.onLength, 1)
        && |t.screen| == 4000
        && forall k :: 0 <= k < 4000 ==> t.screen[k] == if k == 2 * user.location then user.onChar else s.screen[k]
  {
  }

  /** A sync needs both nodes. It gives the second the timing of the first and draws the
      second's off character; nothing else changes. */
  lemma SyncCopiesTiming(s: State, first: uint16, second: uint16)
    requires |s.screen| == 4000 && forall i :: 0 <= i < |s.list| ==> s.list[i].location < 2000
    ensures var t, i, j := Sync(s, first, second), FirstAt(s.list, first), FirstAt(s.list, second);
      if i == |s.list| || j == |s.list| then t == s
      else
        && var a, b := s.list[i], s.list[j];
        && t.list == s.list[j := Blinker(b.location, b.onChar, b.offChar,
                                         a.onLength, a.offLength, a.countdown, a.status)]
        && |t.screen| == 4000
        && forall k :: 0 <= k < 4000 ==> t.screen[k] == if k == 2 * second then b.offChar else s.screen[k]
  {
  }

  // ----- what a remove takes away

  /** A remove takes exactly the first node at its location off the list. The order of the
      others stays, and so does everything on the screen. */
  lemma RemoveTakesFirst(s: State, location: uint16)
    ensures var t := Remove(s, location);
      && t.screen == s.screen
      && (!Listed(s.list, location) ==> t == s)
      && (Listed(s.list, location) ==>
            var k := FirstAt(s.list, location);
            && |t.list| == |s.list| - 1
            && s.list[k].location == location && (forall i :: 0 <= i < k ==> s.list[i].location != location)
            && (forall i :: 0 <= i < |t.list| ==> t.list[i] == s.list[if i < k then i else i + 1])
            && multiset(s.list) == multiset(t.list) + multiset{s.list[k]})
  {
    var k := FirstAt(s.list, location);
    if k < |s.list| {
      assert s.list == s.list[..k] + [s.list[k]] + s.list[k + 1..];
    }
  }

  lemma RemoveUnlists(s: State, location: uint16)
    requires DistinctLocations(s.list)
    ensures !Listed(Remove(s, location).list, location)
  {
    RemoveTakesFirst(s, location);
    var k, t := FirstAt(s.list, location), Remove(s, location);
    if k < |s.list| {
      forall i | 0 <= i < |t.list|
        ensures t.list[i].location != location
      {
        assert t.list[i] == s.list[if i < k then i else i + 1];
      }
    }
  }

  predicate AddsNone(ops: seq<Op>, location: uint16) {
    forall i :: 0 <= i < |ops| ==> !(ops[i].DoAdd? && ops[i].user.location == location)
  }

  lemma UnlistedStep(s: State, op: Op, location: uint16)
    requires !Listed(s.list, location) && !(op.DoAdd? && op.user.location == location)
    ensures !Listed(Step(s, op).list, location)
  {
    var t := Step(s, op);
    assert forall i :: 0 <= i < |s.list| ==> s.list[i].location != location;
    forall i | 0 <= i < |t.list|
      ensures t.list[i].location != location
    {
      match op
      case DoRemove(l) =>
        RemoveTakesFirst(s, l);
      case _ =>
    }
  }

  lemma {:induction false} UnlistedRun(s: State, ops: seq<Op>, location: uint16)
    requires !Listed(s.list, location) && AddsNone(ops, location)
    ensures !Listed(Run(s, ops).list, location)
  {
    hide Step, Listed;
    if ops != [] {
      var before := ops[..|ops| - 1];
      UnlistedRun(s, before, location);
      UnlistedStep(Run(s, before), ops[|ops| - 1], location);
    }
  }

  /** A location that was removed stays off the list until an add names it again. */
  lemma RemovedStaysOff(s: State, location: uint16, ops: seq<Op>)
    requires DistinctLocations(s.list) && AddsNone(ops, location)
    ensures !Listed(Run(Remove(s, location), ops).list, location)
  {
    RemoveUnlists(s, location);
    UnlistedRun(Remove(s, location), ops, location);
  }

  // ----- the timer in closed form

  /** The number of ticks a length stands for: 0, and what is negative as a signed
      countdown after one step, runs out at the first tick. */
  function Effective(length: uint16): (e: nat)
    ensures 1 <= e <= 0x8000
  {
    if 1 <= length <= 0x8000 then length else 1
  }

  lemma ModStep(k: nat, p: nat)
    requires p > 0
    ensures (k + 1) % p == if k % p + 1 == p then 0 else k % p + 1
  {
    var q, m := k / p, k % p;
    assert k == q * p + m;
    if m + 1 == p {
      assert k + 1 == (q + 1) * p;
      ModUnique(k + 1, p, q + 1, 0);
    } else {
      ModUnique(k + 1, p, q, m + 1);
    }
  }

  lemma ModUnique(n: nat, p: nat, q: nat, r: nat)
    requires r < p && n == q * p + r
    ensures n % p == r
  {
    var d := n / p - q;
    assert n % p - r == -d * p;
    Multiple(d, p);
  }

  lemma Multiple(d: int, p: nat)
    ensures d >= 1 ==> d * p >= p
    ensures d <= -1 ==> -d * p >= p
  {
    if d >= 1 {
      assert d * p == p + (d - 1) * p;
    } else if d <= -1 {
      assert -d * p == p + (-d - 1) * p;
    }
  }

  /** What a node shows at m ticks into its period. */
  function Phase(user: Blinker, m: nat): Blinker
    requires m < Effective(user.onLength) + Effective(user.offLength)
  {
    if m < Effective(user.onLength)
    then user.(status := 1, countdown := if m == 0 then user.onLength else user.onLength - m)
    else var n := m - Effective(user.onLength);
      user.(status := 0, countdown := if n == 0 then user.offLength else user.offLength - n)
  }

  lemma PhaseStep(user: Blinker, m: nat)
    requires m < Effective(user.onLength) + Effective(user.offLength)
    ensures var p := Effective(user.onLength) + Effective(user.offLength);
      TickOne(Phase(user, m)) == Phase(user, if m + 1 == p then 0 else m + 1)
  {
  }

  /** k ticks after its add a node is k modulo the period into its period. */
  lemma {:induction false} TimerClosedForm(user: Blinker, k: nat)
    ensures var p := Effective(user.onLength) + Effective(user.offLength);
      After(Fresh(user), k) == Phase(user, k % p)
  {
    var p := Effective(user.onLength) + Effective(user.offLength);
    if k == 0 {
      ModUnique(0, p, 0, 0);
    } else {
      TimerClosedForm(user, k - 1);
      ModStep(k - 1, p);
      PhaseStep(user, (k - 1) % p);
    }
  }

  /** The period the caller asks for. */
  function Period(user: Blinker): nat { user.onLength as int + user.offLength as int }

  ghost predicate BlinksAsAsked(user: Blinker)
    requires Period(user) > 0
  {
    forall k: nat :: On(After(Fresh(user), k)) <==> k % Period(user) < user.onLength
  }

  /** A node is on for onLength ticks and off for offLength ticks, over and over, if and
      only if both lengths lie in 1..32768. */
  lemma TimerExact(user: Blinker)
    requires Period(user) > 0
    ensures BlinksAsAsked(user) <==> 1 <= user.onLength <= 0x8000 && 1 <= user.offLength <= 0x8000
  {
    var on: nat, off: nat := user.onLength, user.offLength;
    if 1 <= on <= 0x8000 && 1 <= off <= 0x8000 {
      forall k: nat
        ensures On(After(Fresh(user), k)) <==> k % Period(user) < on
      {
        TimerClosedForm(user, k);
      }
    } else {
      var k := if on == 0 then 0 else if on > 0x8000 then 1 else if off == 0 then on else on + 1;
      LengthsMisread(user, k);
    }
  }

  /** The first tick at which a length outside 1..32768 shows. */
  lemma LengthsMisread(user: Blinker, k: nat)
    requires Period(user) > 0 && !(1 <= user.onLength <= 0x8000 && 1 <= user.offLength <= 0x8000)
    requires k == if user.onLength == 0 then 0 else if user.onLength > 0x8000 then 1
      else if user.offLength == 0 then user.onLength else user.onLength + 1
    ensures !(On(After(Fresh(user), k)) <==> k % Period(user) < user.onLength)
  {
    var p, e := Period(user), Effective(user.onLength) + Effective(user.offLength);
    TimerClosedForm(user, k);
    if user.onLength == 0 || user.onLength > 0x8000 {
      ModUnique(k, p, 0, k);
      ModUnique(k, e, 0, k);
    } else if user.offLength == 0 {
      ModUnique(k, p, 1, 0);
      ModUnique(k, e, 0, k);
    } else {
      ModUnique(k, p, 0, k);
      ModUnique(k, e, 1, 0);
    }
  }

  /** From its add on, until it is removed or synced, a node follows its own timer. */
  lemma AddedNodeFollowsTimer(s: State, user: Blinker, ops: seq<Op>)
    requires !AddFails(s, user) && Spared(Add(s, user), ops, 0)
    ensures var p, t := Effective(user.onLength) + Effective(user.offLength), Run(Add(s, user), ops);
      var k := Pos(Add(s, user), ops, 0);
      k < |t.list| && t.list[k] == Phase(user, Ticks(ops) % p)
  {
    NodeRun(Add(s, user), ops, 0);
    TimerClosedForm(user, Ticks(ops));
  }

  // ----- sync

  predicate SameTiming(a: Blinker, b: Blinker) {
    a.onLength == b.onLength && a.offLength == b.offLength && a.countdown == b.countdown && a.status == b.status
  }

  lemma {:induction false} SameTimingAfter(a: Blinker, b: Blinker, k: nat)
    requires SameTiming(a, b)
    ensures SameTiming(After(a, k), After(b, k))
  {
    if k > 0 {
      SameTimingAfter(a, b, k - 1);
    }
  }

  /** After a sync the two nodes have the same timing until one of them is removed or synced
      again, whatever other nodes share their locations. */
  lemma SyncedStayInStep(s: State, first: uint16, second: uint16, ops: seq<Op>)
    requires Syncs(s.list, first, second)
    requires Spared(Sync(s, first, second), ops, FirstAt(s.list, first))
    requires Spared(Sync(s, first, second), ops, FirstAt(s.list, second))
    ensures var t, u := Sync(s, first, second), Run(Sync(s, first, second), ops);
      var a, b := Pos(t, ops, FirstAt(s.list, first)), Pos(t, ops, FirstAt(s.list, second));
      a < |u.list| && b < |u.list| && SameTiming(u.list[a], u.list[b])
  {
    var t, i, j := Sync(s, first, second), FirstAt(s.list, first), FirstAt(s.list, second);
    NodeRun(t, ops, i);
    NodeRun(t, ops, j);
    SameTimingAfter(t.list[i], t.list[j], Ticks(ops));
  }

  // ----- the screen

  ghost predicate DistinctLocations(list: seq<Blinker>) {
    forall i, j :: 0 <= i < j < |list| ==> list[i].location != list[j].location
  }

  function Shown(b: Blinker): byte { if On(b) then b.onChar else b.offChar }

  ghost predicate Displayed(screen: seq<byte>, b: Blinker) {
    |screen| == 2 * SCREEN_CELLS && b.location < SCREEN_CELLS && screen[2 * b.location] == Shown(b)
  }

  /** Every listed node has a cell of its own, and none has cell 0. */
  ghost predicate Cells(list: seq<Blinker>) {
    DistinctLocations(list) && forall i :: 0 <= i < |list| ==> 0 < list[i].location < SCREEN_CELLS
  }

  /** Each of those cells shows what its node says. */
  ghost predicate ScreenAgrees(s: State) {
    && |s.screen| == 2 * SCREEN_CELLS && Cells(s.list)
    && forall i :: 0 <= i < |s.list| ==> Displayed(s.screen, s.list[i])
  }

  lemma {:induction false} TickScreenCell(screen: seq<byte>, list: seq<Blinker>, location: uint16)
    requires |screen| == 2 * SCREEN_CELLS && location < SCREEN_CELLS && DistinctLocations(list)
    requires forall i :: 0 <= i < |list| ==> list[i].location < SCREEN_CELLS
    ensures forall i :: 0 <= i < |list| && list[i].location == location ==>
      TickScreen(screen, list)[2 * location] ==
        if Expires(list[i]) then Shown(TickOne(list[i])) else screen[2 * location]
    ensures (forall i :: 0 <= i < |list| ==> list[i].location != location) ==>
      TickScreen(screen, list)[2 * location] == screen[2 * location]
  {
    if list != [] {
      TickScreenCell(screen, list[..|list| - 1], location);
    }
  }

  /** The last node of the list that runs out on a cell decides what a tick draws there,
      whatever else is on the cell. */
  lemma {:induction false} LastDraws(screen: seq<byte>, list: seq<Blinker>, location: uint16, i: nat)
    requires |screen| == 4000 && location < 2000 && i < |list| && list[i].location == location && Expires(list[i])
    requires forall j :: i < j < |list| && list[j].location == location ==> !Expires(list[j])
    ensures TickScreen(screen, list)[2 * location] == if On(list[i]) then list[i].offChar else list[i].onChar
  {
    if i < |list| - 1 {
      LastDraws(screen, list[..|list| - 1], location, i);
    }
  }

  /** A tick leaves the other cells alone, and every cell's colour. */
  lemma {:induction false} OthersStay(screen: seq<byte>, list: seq<Blinker>, k: nat)
    requires k < |screen|
    requires forall i :: 0 <= i < |list| ==> !(Expires(list[i]) && k == 2 * list[i].location)
    ensures TickScreen(screen, list)[k] == screen[k]
  {
    if list != [] {
      OthersStay(screen, list[..|list| - 1], k);
    }
  }

  lemma TickAgrees(s: State)
    requires ScreenAgrees(s)
    ensures ScreenAgrees(Tick(s))
  {
    var t := Tick(s);
    forall i | 0 <= i < |t.list|
      ensures Displayed(t.screen, t.list[i])
    {
      assert Displayed(s.screen, s.list[i]);
      TickScreenCell(s.screen, s.list, s.list[i].location);
    }
  }

  /** An add names a cell that is in use by no node. */
  predicate Apart(s: State, op: Op) {
    op.DoAdd? ==> op.user.location != 0 && !Listed(s.list, op.user.location)
  }

  /** A sync changes nothing that shows: it fails, or the node it takes the timing from is
      off, or the second node looks the same on and off. */
  predicate Harmless(s: State, first: uint16, second: uint16) {
    Syncs(s.list, first, second) ==>
      var a, b := s.list[FirstAt(s.list, first)], s.list[FirstAt(s.list, second)];
      !On(a) || b.onChar == b.offChar
  }

  predicate Plain(s: State, op: Op) {
    Apart(s, op) && (op.DoSync? ==> Harmless(s, op.first, op.second))
  }

  lemma AddAgrees(s: State, user: Blinker)
    requires ScreenAgrees(s) && user.location != 0 && !Listed(s.list, user.location)
    ensures ScreenAgrees(Add(s, user))
  {
    forall i | 0 <= i < |s.list|
      ensures Displayed(Add(s, user).screen, s.list[i])
    {
      assert Displayed(s.screen, s.list[i]) && s.list[i].location != user.location;
    }
  }

  lemma RemoveAgrees(s: State, location: uint16)
    requires ScreenAgrees(s)
    ensures ScreenAgrees(Remove(s, location))
  {
  }

  lemma PlainStep(s: State, op: Op)
    requires ScreenAgrees(s) && Plain(s, op)
    ensures ScreenAgrees(Step(s, op))
  {
    match op
    case DoAdd(user) => AddAgrees(s, user);
    case DoRemove(location) => RemoveAgrees(s, location);
    case DoFind(_) =>
    case DoSync(first, second) => SyncAgreesIff(s, first, second);
    case DoTick => TickAgrees(s);
  }

  ghost predicate PlainRun(s: State, ops: seq<Op>) {
    forall n :: 0 <= n < |ops| ==> Plain(Run(s, ops[..n]), ops[n])
  }

  lemma {:induction false} ScreenAgreesInRun(s: State, ops: seq<Op>)
    requires ScreenAgrees(s) && PlainRun(s, ops)
    ensures ScreenAgrees(Run(s, ops))
  {
    if ops != [] {
      var before := ops[..|ops| - 1];
      assert forall n :: 0 <= n < |before| ==> before[..n] == ops[..n];
      ScreenAgreesInRun(s, before);
      PlainStep(Run(s, before), ops[|ops| - 1]);
    }
  }

  /** In such a run the cell of a node that is spared shows its on character for the first
      part of each period and its off character for the rest. */
  lemma CellFollowsTimer(s: State, user: Blinker, ops: seq<Op>)
    requires ScreenAgrees(s) && Plain(s, DoAdd(user)) && !AddFails(s, user)
    requires PlainRun(Add(s, user), ops) && Spared(Add(s, user), ops, 0)
    ensures var p := Effective(user.onLength) + Effective(user.offLength);
      var t := Run(Add(s, user), ops);
      |t.screen| == 2 * SCREEN_CELLS &&
      t.screen[2 * user.location] == if Ticks(ops) % p < Effective(user.onLength) then user.onChar else user.offChar
  {
    hide Phase, Effective, Run, Add, ScreenAgrees, PlainRun, Spared, Pos;
    AddAgrees(s, user);
    ScreenAgreesInRun(Add(s, user), ops);
    AddedNodeFollowsTimer(s, user, ops);
    PhaseDisplayed(Run(Add(s, user), ops), user, Ticks(ops) % (Effective(user.onLength) + Effective(user.offLength)),
                   Pos(Add(s, user), ops, 0));
  }

  lemma PhaseDisplayed(t: State, user: Blinker, m: nat, i: nat)
    requires m < Effective(user.onLength) + Effective(user.offLength)
    requires ScreenAgrees(t) && i < |t.list| && t.list[i] == Phase(user, m)
    ensures |t.screen| == 2 * SCREEN_CELLS && user.location < SCREEN_CELLS
    ensures t.screen[2 * user.location] == if m < Effective(user.onLength) then user.onChar else user.offChar
  {
    assert Displayed(t.screen, t.list[i]);
  }

  /** Sync keeps the screen in agreement exactly when it changes nothing that shows. */
  lemma SyncAgreesIff(s: State, first: uint16, second: uint16)
    requires ScreenAgrees(s)
    ensures ScreenAgrees(Sync(s, first, second)) <==> Harmless(s, first, second)
  {
    if Syncs(s.list, first, second) {
      var i, j, t := FirstAt(s.list, first), FirstAt(s.list, second), Sync(s, first, second);
      assert t.list[j] == Synced(s.list[i], s.list[j]);
      forall k | 0 <= k < |t.list| && k != j
        ensures Displayed(t.screen, t.list[k])
      {
        assert Displayed(s.screen, s.list[k]) && s.list[k].location != s.list[j].location;
      }
    }
  }

  // ----- room in the pool

  ghost function Locations(list: seq<Blinker>): set<int> { set i | 0 <= i < |list| :: list[i].location as int }

  lemma {:induction false} LocationsSize(list: seq<Blinker>)
    requires DistinctLocations(list)
    ensures |Locations(list)| == |list|
  {
    if list != [] {
      var rest, last := list[..|list| - 1], list[|list| - 1];
      LocationsSize(rest);
      assert Locations(list) == Locations(rest) + {last.location as int};
    }
  }

  ghost function From1(n: nat): (r: set<int>)
    ensures |r| == n && forall i :: i in r <==> 1 <= i <= n
  {
    if n == 0 then {} else From1(n - 1) + {n}
  }

  lemma CellsAdd(list: seq<Blinker>, b: Blinker)
    requires Cells(list) && 0 < b.location < SCREEN_CELLS && !Listed(list, b.location)
    ensures Cells([b] + list)
  {
  }

  lemma CellsWithout(list: seq<Blinker>, k: nat)
    requires Cells(list) && k < |list|
    ensures Cells(Without(list, k))
  {
    assert forall i :: 0 <= i < |list| - 1 ==> Without(list, k)[i] == list[if i < k then i else i + 1];
  }

  lemma CellsMoveNot(list: seq<Blinker>, now: seq<Blinker>)
    requires Cells(list) && |now| == |list|
    requires forall i :: 0 <= i < |list| ==> now[i].location == list[i].location
    ensures Cells(now)
  {
  }

  lemma CellsStep(s: State, op: Op)
    requires Cells(s.list) && Apart(s, op)
    ensures Cells(Step(s, op).list)
  {
    hide Cells;
    match op
    case DoAdd(user) =>
      if !AddFails(s, user) {
        CellsAdd(s.list, Fresh(user));
      }
    case DoRemove(location) =>
      if FirstAt(s.list, location) < |s.list| {
        CellsWithout(s.list, FirstAt(s.list, location));
      }
    case DoFind(_) =>
    case DoSync(_, _) => CellsMoveNot(s.list, Step(s, op).list);
    case DoTick => CellsMoveNot(s.list, Step(s, op).list);
  }

  ghost predicate ApartRun(s: State, ops: seq<Op>) {
    forall n :: 0 <= n < |ops| ==> Apart(Run(s, ops[..n]), ops[n])
  }

  /** Runs in which each add names a cell in use by no node keep the cells distinct, syncs
      of every kind included. */
  lemma {:induction false} CellsInRun(s: State, ops: seq<Op>)
    requires Cells(s.list) && ApartRun(s, ops)
    ensures Cells(Run(s, ops).list)
  {
    if ops != [] {
      var before := ops[..|ops| - 1];
      assert forall n :: 0 <= n < |before| ==> before[..n] == ops[..n];
      CellsInRun(s, before);
      CellsStep(Run(s, before), ops[|ops| - 1]);
    }
  }

  /** Distinct cells other than cell 0 leave at least one of the 2000 slots free, so an add
      fails for its location only. */
  lemma RoomForEveryCell(s: State, user: Blinker)
    requires Cells(s.list)
    ensures |s.list| <= 1999
    ensures AddFails(s, user) <==> user.location >= 2000
  {
    LocationsSize(s.list);
    var have, all := Locations(s.list), From1(SCREEN_CELLS - 1);
    assert have <= all;
    assert |all| == |have| + |all - have|;
  }

  /** So over every such run from an empty list, whatever is on the screen. */
  lemma RoomInEveryRun(screen: seq<byte>, ops: seq<Op>, user: Blinker)
    requires ApartRun(State([], screen), ops)
    ensures var t := Run(State([], screen), ops);
      |t.list| <= 1999 && (AddFails(t, user) <==> user.location >= 2000)
  {
    CellsInRun(State([], screen), ops);
    RoomForEveryCell(Run(State([], screen), ops), user);
  }

  // ----- the failing case

  /** A node that shows A when on and B when off, and one to take the timing from. */
  function Sample(location: uint16): Blinker { Blinker(location, 65, 66, 5, 5, 0, 0) }

  lemma TwoSteps(s: State, first: Op, second: Op)
    ensures Run(s, [first]) == Step(s, first) && Run(s, [first, second]) == Step(Step(s, first), second)
  {
    assert [first][..0] == [] && [first, second][..1] == [first];
  }

  lemma TwoPlain(s: State, first: Op, second: Op)
    requires Plain(s, first) && Plain(Step(s, first), second)
    ensures PlainRun(s, [first, second])
  {
    TwoSteps(s, first, second);
    assert [first, second][..0] == [] && [first, second][..1] == [first];
  }

  /** Two adds and a sync: the second node is on, and its cell shows the off character. */
  lemma SyncSpoilsScreen(screen: seq<byte>)
    requires |screen| == 2 * SCREEN_CELLS
    ensures var s, ops := State([], screen), [DoAdd(Sample(1)), DoAdd(Sample(2))];
      ScreenAgrees(s) && PlainRun(s, ops) && !ScreenAgrees(Sync(Run(s, ops), 1, 2))
  {
    var s, ops := State([], screen), [DoAdd(Sample(1)), DoAdd(Sample(2))];
    var t := Add(s, Sample(1));
    assert t.list == [Fresh(Sample(1))] && FirstAt(t.list, 2) == 1;
    TwoPlain(s, ops[0], ops[1]);
    TwoSteps(s, ops[0], ops[1]);
    ScreenAgreesInRun(s, ops);
    var u := Run(s, ops);
    assert u.list == [Fresh(Sample(2)), Fresh(Sample(1))];
    FirstAtIs(u.list, 2, 0);
    FirstAtIs(u.list, 1, 1);
    SyncAgreesIff(u, 1, 2);
  }
}
