/** blink.S and the slot pool of fish.c in place: a linked list through a fixed array of
    nodes, where a slot is free when its location is 0. */
module BlinkDriver {
  import opened Bytes
  import opened Blink
  import R = BlinkRuns

  class Node {
    var location: uint16
    var onChar: byte
    var offChar: byte
    var onLength: uint16
    var offLength: uint16
    var countdown: uint16
    var status: uint16
    var next: Node?

    constructor ()
      ensures location == 0 && next == null
    {
      location, onChar, offChar, onLength, offLength, countdown, status, next := 0, 0, 0, 0, 0, 0, 0, null;
    }

    function Value(): Blinker reads this {
      Blinker(location, onChar, offChar, onLength, offLength, countdown, status)
    }

    method Store(b: Blinker)
      modifies this
      ensures Value() == b && next == old(next)
    {
      location, onChar, offChar := b.location, b.onChar, b.offChar;
      onLength, offLength, countdown, status := b.onLength, b.offLength, b.countdown, b.status;
    }
  }

  ghost predicate Distinct<T>(s: seq<T>) {
    forall i, j :: 0 <= i < j < |s| ==> s[i] != s[j]
  }

  ghost function Elements(s: seq<nat>): set<nat> { set i | i in s }

  lemma {:induction false} DistinctSize(s: seq<nat>)
    requires Distinct(s)
    ensures |Elements(s)| == |s|
  {
    if s != [] {
      DistinctSize(s[1..]);
      assert Elements(s) == {s[0]} + Elements(s[1..]);
    }
  }

  ghost function Below(n: nat): (b: set<nat>)
    ensures |b| == n && forall i :: i in b <==> 0 <= i < n
  {
    if n == 0 then {} else Below(n - 1) + {n - 1}
  }

  /** Pigeonhole: distinct slots cover all of them exactly when they are as many. */
  lemma Covering(s: seq<nat>, n: nat)
    requires Distinct(s) && forall i :: 0 <= i < |s| ==> s[i] < n
    ensures |s| <= n && (|s| == n <==> forall i :: 0 <= i < n ==> i in s)
  {
    DistinctSize(s);
    var have, all := Elements(s), Below(n);
    assert have <= all && |all| == |have| + |all - have|;
    if forall i :: 0 <= i < n ==> i in s {
      assert all <= have;
      assert all - have == {};
    } else {
      var i :| 0 <= i < n && i !in s;
      assert i in all - have;
    }
  }

  // ----- the list as it lies in the pool: `list` holds slots, `slots` and `nexts` what the slots hold

  ghost function At(pool: seq<Node>, list: seq<nat>, k: nat): Node? {
    if k < |list| && list[k] < |pool| then pool[list[k]] else null
  }

  ghost predicate InPool(list: seq<nat>) {
    forall i :: 0 <= i < |list| ==> list[i] < POOL_SIZE
  }

  /** The links lead through the listed slots, each once, and then to null. */
  ghost predicate Linked(pool: seq<Node>, head: Node?, list: seq<nat>, nexts: seq<Node?>) {
    && |nexts| == |pool| == POOL_SIZE && Distinct(list) && InPool(list)
    && head == At(pool, list, 0)
    && (forall i :: 0 <= i < |list| ==> nexts[list[i]] == At(pool, list, i + 1))
  }

  /** A slot is marked free exactly when it is not on the list. */
  ghost predicate Marked(list: seq<nat>, slots: seq<Blinker>) {
    && |slots| == POOL_SIZE && InPool(list)
    && (forall i :: 0 <= i < |list| ==> 0 < slots[list[i]].location < SCREEN_CELLS)
    && (forall s :: 0 <= s < POOL_SIZE && slots[s].location != 0 ==> s in list)
  }

  ghost predicate Listed(pool: seq<Node>, head: Node?, list: seq<nat>, nexts: seq<Node?>, slots: seq<Blinker>) {
    Linked(pool, head, list, nexts) && Marked(list, slots)
  }

  ghost function Pick(slots: seq<Blinker>, list: seq<nat>): (vs: seq<Blinker>)
    requires |slots| == POOL_SIZE && InPool(list)
    ensures |vs| == |list| && forall i :: 0 <= i < |list| ==> vs[i] == slots[list[i]]
  {
    seq(|list|, i requires 0 <= i < |list| && list[i] < POOL_SIZE => slots[list[i]])
  }

  ghost predicate AllUsed(slots: seq<Blinker>) {
    forall s :: 0 <= s < |slots| ==> slots[s].location != 0
  }

  /** The pool has no free slot exactly when the list holds as many nodes as there are slots. */
  lemma FullMeansLong(list: seq<nat>, slots: seq<Blinker>)
    requires Distinct(list) && Marked(list, slots)
    ensures |list| <= POOL_SIZE
    ensures |list| == POOL_SIZE <==> AllUsed(slots)
  {
    Covering(list, POOL_SIZE);
    assert forall s :: s in list ==> slots[s].location != 0;
  }

  lemma FreeNotListed(list: seq<nat>, slots: seq<Blinker>, slot: nat)
    requires Marked(list, slots) && slot < POOL_SIZE && slots[slot].location == 0
    ensures slot !in list
  {
  }

  lemma FreeMarkListed(list: seq<nat>, slots: seq<Blinker>, slot: nat)
    requires list != [] && list[0] == slot < |slots| && slots[slot].location == 0
    ensures !Marked(list, slots)
  {
  }

  lemma LinkFront(pool: seq<Node>, head: Node?, list: seq<nat>, nexts: seq<Node?>, slot: nat)
    requires Linked(pool, head, list, nexts) && slot < POOL_SIZE && slot !in list
    ensures Linked(pool, pool[slot], [slot] + list, nexts[slot := head])
  {
    var l := [slot] + list;
    assert forall i :: 0 < i < |l| ==> l[i] == list[i - 1] && l[i] != slot;
    forall i | 0 <= i < |l|
      ensures nexts[slot := head][l[i]] == At(pool, l, i + 1)
    {
      assert At(pool, l, i + 1) == At(pool, list, i);
    }
  }

  lemma MarkFront(list: seq<nat>, slots: seq<Blinker>, slot: nat, b: Blinker)
    requires Marked(list, slots) && slot < POOL_SIZE && slot !in list && 0 < b.location < SCREEN_CELLS
    ensures Marked([slot] + list, slots[slot := b])
  {
    StillListed(list, slots, slot, b);
    forall i | 0 <= i < |[slot] + list|
      ensures ([slot] + list)[i] < POOL_SIZE && 0 < slots[slot := b][([slot] + list)[i]].location < SCREEN_CELLS
    {
      assert i > 0 ==> ([slot] + list)[i] == list[i - 1] != slot;
    }
  }

  lemma PickFront(list: seq<nat>, slots: seq<Blinker>, slot: nat, b: Blinker)
    requires InPool(list) && |slots| == POOL_SIZE && slot < POOL_SIZE && slot !in list
    ensures InPool([slot] + list) && Pick(slots[slot := b], [slot] + list) == [b] + Pick(slots, list)
  {
    assert forall i :: 0 < i <= |list| ==> ([slot] + list)[i] == list[i - 1] != slot;
  }

  lemma StillListed(list: seq<nat>, slots: seq<Blinker>, slot: nat, b: Blinker)
    requires Marked(list, slots) && slot < POOL_SIZE
    ensures forall s :: 0 <= s < POOL_SIZE && slots[slot := b][s].location != 0 ==> s in [slot] + list
  {
    forall s | 0 <= s < POOL_SIZE && slots[slot := b][s].location != 0
      ensures s in [slot] + list
    {
      assert s != slot ==> s in list;
    }
  }

  lemma UnlinkAt(pool: seq<Node>, list: seq<nat>, k: nat, i: nat)
    requires k < |list| && i < |list|
    ensures At(pool, Without(list, k), i) == At(pool, list, if i < k then i else i + 1)
  {
  }

  /** Bypassing the k-th node: its predecessor takes over its link, which is then cleared. */
  ghost function Bypassed(nexts: seq<Node?>, list: seq<nat>, k: nat): seq<Node?>
    requires k < |list| && InPool(list) && |nexts| == POOL_SIZE
  {
    (if k == 0 then nexts else nexts[list[k - 1] := nexts[list[k]]])[list[k] := null]
  }

  lemma BypassedIs(nexts: seq<Node?>, list: seq<nat>, k: nat)
    requires k < |list| && InPool(list) && |nexts| == POOL_SIZE
    ensures Bypassed(nexts, list, k) == (if k == 0 then nexts else nexts[list[k - 1] := nexts[list[k]]])[list[k] := null]
  {
  }

  lemma BypassedSlot(nexts: seq<Node?>, list: seq<nat>, k: nat, s: nat)
    requires k < |list| && InPool(list) && |nexts| == POOL_SIZE && s < POOL_SIZE && s != list[k]
    ensures |Bypassed(nexts, list, k)| == POOL_SIZE
    ensures Bypassed(nexts, list, k)[s] == if k > 0 && s == list[k - 1] then nexts[list[k]] else nexts[s]
  {
  }

  lemma Differ(list: seq<nat>, i: nat, j: nat)
    requires Distinct(list) && i < |list| && j < |list| && i != j
    ensures list[i] != list[j]
  {
  }

  lemma LinkedAt(pool: seq<Node>, head: Node?, list: seq<nat>, nexts: seq<Node?>, i: nat)
    requires Linked(pool, head, list, nexts) && i < |list|
    ensures list[i] < |nexts| == POOL_SIZE && nexts[list[i]] == At(pool, list, i + 1)
  {
  }

  lemma BypassedAt(pool: seq<Node>, head: Node?, list: seq<nat>, nexts: seq<Node?>, k: nat, i: nat)
    requires Linked(pool, head, list, nexts) && k < |list| && i < |list| - 1
    ensures |Bypassed(nexts, list, k)| == POOL_SIZE && Without(list, k)[i] < POOL_SIZE
    ensures Bypassed(nexts, list, k)[Without(list, k)[i]] == At(pool, Without(list, k), i + 1)
  {
    var from := if i < k then i else i + 1;
    assert Distinct(list) && InPool(list) && Without(list, k)[i] == list[from];
    LinkedAt(pool, head, list, nexts, from);
    LinkedAt(pool, head, list, nexts, k);
    hide Linked, Bypassed, Distinct, InPool;
    UnlinkAt(pool, list, k, i + 1);
    hide At, Without;
    Differ(list, from, k);
    if k > 0 && from != k - 1 {
      Differ(list, from, k - 1);
    }
    BypassedSlot(nexts, list, k, list[from]);
  }

  lemma UnlinkNode(pool: seq<Node>, head: Node?, list: seq<nat>, nexts: seq<Node?>, k: nat)
    requires Linked(pool, head, list, nexts) && k < |list|
    ensures Linked(pool, if k == 0 then nexts[list[0]] else head, Without(list, k), Bypassed(nexts, list, k))
  {
    UnlinkAt(pool, list, k, 0);
    StillDistinct(list, k);
    BypassedSize(nexts, list, k);
    forall i | 0 <= i < |list| - 1
      ensures Bypassed(nexts, list, k)[Without(list, k)[i]] == At(pool, Without(list, k), i + 1)
    {
      BypassedAt(pool, head, list, nexts, k, i);
    }
  }

  lemma BypassedSize(nexts: seq<Node?>, list: seq<nat>, k: nat)
    requires k < |list| && InPool(list) && |nexts| == POOL_SIZE
    ensures |Bypassed(nexts, list, k)| == POOL_SIZE
  {
  }

  lemma StillDistinct(list: seq<nat>, k: nat)
    requires Distinct(list) && InPool(list) && k < |list|
    ensures Distinct(Without(list, k)) && InPool(Without(list, k))
  {
  }

  lemma UnmarkNode(list: seq<nat>, slots: seq<Blinker>, k: nat, free: Blinker)
    requires Distinct(list) && Marked(list, slots) && k < |list| && free.location == 0
    ensures Marked(Without(list, k), slots[list[k] := free])
  {
    var l := Without(list, k);
    forall i | 0 <= i < |l|
      ensures l[i] != list[k] && 0 < slots[l[i]].location < SCREEN_CELLS
    {
      assert l[i] == list[if i < k then i else i + 1];
    }
    forall s | 0 <= s < POOL_SIZE && slots[list[k] := free][s].location != 0
      ensures s in l
    {
      var i :| 0 <= i < |list| && list[i] == s;
      assert l[if i < k then i else i - 1] == s;
    }
  }

  lemma NotLeft(list: seq<nat>, k: nat)
    requires Distinct(list) && k < |list|
    ensures list[k] !in Without(list, k)
  {
    assert forall i :: 0 <= i < |list| - 1 ==> Without(list, k)[i] == list[if i < k then i else i + 1];
  }

  lemma PickWithout(list: seq<nat>, slots: seq<Blinker>, k: nat, free: Blinker)
    requires Distinct(list) && InPool(list) && |slots| == POOL_SIZE && k < |list|
    ensures InPool(Without(list, k)) && Pick(slots[list[k] := free], Without(list, k)) == Without(Pick(slots, list), k)
  {
    var l := Without(list, k);
    assert forall i :: 0 <= i < |l| ==> l[i] != list[k];
  }

  /** A change of a listed node that leaves its location alone. */
  lemma UpdateNode(list: seq<nat>, slots: seq<Blinker>, k: nat, b: Blinker)
    requires Distinct(list) && Marked(list, slots) && k < |list| && b.location == slots[list[k]].location
    ensures Marked(list, slots[list[k] := b])
    ensures Pick(slots[list[k] := b], list) == Pick(slots, list)[k := b]
  {
  }

  function Cleared(): Blinker { Blinker(0, 0, 0, 0, 0, 0, 0) }

  class Driver {
    const pool: seq<Node>
    const screen: array<byte>
    var head: Node?
    /** The slots of the listed nodes, from the head on. */
    ghost var list: seq<nat>

    ghost predicate Shape() reads this {
      |pool| == POOL_SIZE && Distinct(pool) && screen.Length == 2 * SCREEN_CELLS
    }

    ghost function Slots(): (bs: seq<Blinker>)
      reads pool
      ensures |bs| == |pool| && forall i :: 0 <= i < |pool| ==> bs[i] == pool[i].Value()
    {
      seq(|pool|, i requires 0 <= i < |pool| reads pool => pool[i].Value())
    }

    ghost function Nexts(): (ns: seq<Node?>)
      reads pool
      ensures |ns| == |pool| && forall i :: 0 <= i < |pool| ==> ns[i] == pool[i].next
    {
      seq(|pool|, i requires 0 <= i < |pool| reads pool => pool[i].next)
    }

    ghost predicate Valid() reads this, pool {
      Shape() && Listed(pool, head, list, Nexts(), Slots())
    }

    ghost function View(): State
      requires Valid()
      reads this, pool, screen
    {
      State(Pick(Slots(), list), screen[..])
    }

    constructor ()
      ensures Valid() && list == [] && fresh(pool) && fresh(screen)
    {
      var nodes: seq<Node> := [];
      while |nodes| < POOL_SIZE
        invariant |nodes| <= POOL_SIZE && Distinct(nodes) && fresh(nodes)
        invariant forall i :: 0 <= i < |nodes| ==> nodes[i].location == 0
      {
        var n := new Node();
        nodes := nodes + [n];
      }
      pool := nodes;
      screen := new byte[2 * SCREEN_CELLS](_ => 0);
      head, list := null, [];
    }

    /** mp1_malloc: the first slot whose location is 0. */
    method Malloc() returns (n: Node?, ghost slot: nat)
      ensures n == null <==> AllUsed(Slots())
      ensures n != null ==> FirstFree(Slots(), slot) && n == pool[slot]
    {
      var i := 0;
      while i < |pool|
        invariant 0 <= i <= |pool| && forall j :: 0 <= j < i ==> pool[j].location != 0
      {
        if pool[i].location == 0 {
          return pool[i], i;
        }
        i := i + 1;
      }
      return null, 0;
    }

    method DrawChar(location: uint16, c: byte)
      requires location < SCREEN_CELLS && screen.Length == 2 * SCREEN_CELLS
      modifies screen
      ensures screen[..] == Poke(old(screen[..]), location, c)
    {
      screen[2 * location] := c;
    }

    /** A slot gets contents, and the old list behind it. */
    method FillSlot(n: Node, b: Blinker, ghost slot: nat)
      requires Shape() && slot < POOL_SIZE && n == pool[slot]
      modifies n
      ensures n.Value() == b && Slots() == old(Slots())[slot := b] && Nexts() == old(Nexts())[slot := head]
    {
      ghost var slots, nexts := Slots(), Nexts();
      assert forall s :: 0 <= s < POOL_SIZE && s != slot ==> pool[s] != n;
      n.Store(b);
      n.next := head;
      assert Slots() == slots[slot := b];
      assert Nexts() == nexts[slot := head];
    }

    /** mp1_ioctl_add. A location of 0 is accepted, although it marks a free slot. */
    method AddAnywhere(user: Blinker) returns (r: int, ghost slot: nat)
      requires Shape()
      modifies this, pool, screen
      ensures r == if user.location >= SCREEN_CELLS || AllUsed(old(Slots())) then -1 else 0
      ensures r == -1 ==> unchanged(this) && unchanged(pool) && unchanged(screen)
      ensures r == 0 ==> FirstFree(old(Slots()), slot) && head == pool[slot] && list == [slot] + old(list)
      ensures r == 0 ==> Slots() == old(Slots())[slot := Fresh(user)] && Nexts() == old(Nexts())[slot := old(head)]
      ensures r == 0 ==> screen[..] == Poke(old(screen[..]), user.location, user.onChar)
    {
      slot := 0;
      if user.location >= SCREEN_CELLS {
        return -1, slot;
      }
      var n: Node?;
      n, slot := Malloc();
      if n == null {
        return -1, slot;
      }
      FillSlot(n, Fresh(user), slot);
      head := n;
      list := [slot] + list;
      DrawChar(n.location, n.onChar);
      return 0, slot;
    }

    /** mp1_ioctl_add on a well-formed list: the list stays well formed exactly when the add
        fails or its location does not mark a free slot. */
    method Add(user: Blinker) returns (r: int)
      requires Valid()
      modifies this, pool, screen
      ensures r == if AddFails(old(View()), user) then -1 else 0
      ensures Valid() <==> r == -1 || user.location != 0
      ensures Valid() ==> View() == Blink.Add(old(View()), user)
    {
      FullMeansLong(list, Slots());
      ghost var slot: nat;
      r, slot := AddAnywhere(user);
      if r == 0 {
        FreeNotListed(old(list), old(Slots()), slot);
        if user.location == 0 {
          FreeMarkListed(list, Slots(), slot);
        } else {
          LinkFront(pool, old(head), old(list), old(Nexts()), slot);
          MarkFront(old(list), old(Slots()), slot, Fresh(user));
          PickFront(old(list), old(Slots()), slot, Fresh(user));
        }
      }
    }

    lemma NodeAt(n: Node, k: nat)
      requires Valid() && k < |list| && n == At(pool, list, k)
      ensures n.location == View().list[k].location && n.next == At(pool, list, k + 1)
    {
      assert n == pool[list[k]];
      assert n.location == Slots()[list[k]].location && n.next == Nexts()[list[k]];
    }

    /** mp1_find_helper: the first node at a location. */
    method FindHelper(location: uint16) returns (n: Node?, ghost k: nat)
      requires Valid()
      ensures k == FirstAt(View().list, location) && n == At(pool, list, FirstAt(View().list, location))
    {
      ghost var nodes := View().list;
      hide Listed, Pick, FirstAt;
      n, k := head, 0;
      assert |nodes| == |list| && n == At(pool, list, 0) by { Start(); }
      while n != null
        invariant k <= |list| && n == At(pool, list, k)
        invariant forall i :: 0 <= i < k ==> nodes[i].location != location
        decreases |list| - k
      {
        NodeAt(n, k);
        if n.location == location {
          break;
        }
        n, k := n.next, k + 1;
      }
      EndOfList(k);
      FirstAtIs(nodes, location, k);
    }

    lemma Start()
      requires Valid()
      ensures |View().list| == |list| && head == At(pool, list, 0)
    {
    }

    lemma EndOfList(k: nat)
      requires Valid() && k <= |list|
      ensures At(pool, list, k) == null <==> k == |list|
      ensures k < |list| ==> list[k] < |pool| && At(pool, list, k).location == View().list[k].location
    {
      if k < |list| {
        NodeAt(pool[list[k]], k);
      }
    }

    /** One node of mp1_rtc_tasklet. */
    method TickNode(n: Node)
      requires n.location < SCREEN_CELLS && screen.Length == 2 * SCREEN_CELLS
      modifies n, screen
      ensures n.Value() == TickOne(old(n.Value())) && n.next == old(n.next)
      ensures screen[..] == DrawTick(old(screen[..]), old(n.Value()))
    {
      n.countdown := Decremented(n.countdown);
      if Signed(n.countdown) > 0 {
        return;
      }
      if n.status % 2 == 1 {
        DrawChar(n.location, n.offChar);
        n.countdown := n.offLength;
      } else {
        DrawChar(n.location, n.onChar);
        n.countdown := n.onLength;
      }
      n.status := Flipped(n.status);
    }

    /** The list after its k-th node, and nothing else in the pool, got new contents. */
    lemma NodeUpdated(k: nat, slots: seq<Blinker>, nexts: seq<Node?>)
      requires Shape() && Listed(pool, head, list, nexts, slots) && k < |list| && nexts == Nexts()
      requires forall s :: 0 <= s < POOL_SIZE && s != list[k] ==> pool[s].Value() == slots[s]
      requires pool[list[k]].location == slots[list[k]].location
      ensures Valid() && View().list == Pick(slots, list)[k := pool[list[k]].Value()]
    {
      var b := pool[list[k]].Value();
      assert Slots() == slots[list[k] := b];
      UpdateNode(list, slots, k, b);
    }

    /** A tick reaches the k-th listed node. */
    method TickListed(n: Node, ghost k: nat)
      requires Valid() && k < |list| && n == pool[list[k]]
      modifies n, screen
      ensures Valid() && n.next == At(pool, list, k + 1)
      ensures View().list == old(View().list)[k := TickOne(old(View().list)[k])]
      ensures View().screen == DrawTick(old(View().screen), old(View().list)[k])
    {
      hide TickOne, DrawTick;
      ghost var slots, nexts := Slots(), Nexts();
      assert Listed(pool, head, list, nexts, slots);
      assert n.Value() == slots[list[k]] && n.next == nexts[list[k]];
      assert forall s :: 0 <= s < |pool| && s != list[k] ==> pool[s] != n;
      TickNode(n);
      assert forall s :: 0 <= s < POOL_SIZE && s != list[k] ==> pool[s].Value() == slots[s];
      assert Nexts() == nexts;
      NodeUpdated(k, slots, nexts);
    }

    /** mp1_rtc_tasklet: every node of the list once, from the head on. */
    method Tick()
      requires Valid()
      modifies pool, screen
      ensures Valid() && View() == Blink.Tick(old(View())) && list == old(list)
    {
      hide Ticked, Blink.Tick, TickOne, DrawTick;
      ghost var was := View();
      var n, k := head, 0;
      TickedNone(was);
      while n != null
        invariant list == old(list) && 0 <= k <= |list| && n == At(pool, list, k)
        invariant Valid() && View() == Ticked(was, k)
        decreases |list| - k
      {
        TickListed(n, k);
        TickedOneMore(was, k);
        n, k := n.next, k + 1;
      }
      TickedAll(was);
    }

    /** The node before the k-th, null for the list head itself. */
    method FindPrev(n: Node, ghost k: nat) returns (prev: Node?)
      requires Valid() && k < |list| && n == pool[list[k]]
      ensures if k == 0 then prev == null else prev == pool[list[k - 1]]
    {
      prev := null;
      var cur, i := head, 0;
      while cur != n
        invariant 0 <= i <= k && cur == pool[list[i]] && if i == 0 then prev == null else prev == pool[list[i - 1]]
        decreases k - i
      {
        assert cur.next == Nexts()[list[i]];
        prev := cur;
        cur, i := cur.next, i + 1;
      }
      assert list[i] == list[k];
    }

    /** mp1_free clears the whole slot. */
    method Free(n: Node)
      modifies n
      ensures n.Value() == Cleared() && n.next == null
    {
      n.Store(Cleared());
      n.next := null;
    }

    lemma ListedSlot(k: nat)
      requires Valid() && k < |list|
      ensures list[k] < POOL_SIZE && (k > 0 ==> list[k - 1] < POOL_SIZE) && InPool(list)
    {
    }

    /** The k-th node's predecessor, or the list head, takes over its link. */
    method Bypass(n: Node, ghost k: nat)
      requires Valid() && k < |list| && n == pool[list[k]]
      modifies this`head, pool
      ensures head == if k == 0 then old(n.next) else old(head)
      ensures Slots() == old(Slots())
      ensures Nexts() == if k == 0 then old(Nexts()) else old(Nexts())[list[k - 1] := old(n.next)]
    {
      hide Listed;
      ListedSlot(k);
      var prev := FindPrev(n, k);
      if prev == null {
        head := n.next;
      } else {
        Relink(prev, n.next, list[k - 1]);
      }
    }

    method UnlinkSlot(n: Node, ghost k: nat) returns (ghost free: Blinker)
      requires Valid() && k < |list| && n == pool[list[k]]
      modifies this`head, pool
      ensures head == if k == 0 then old(n.next) else old(head)
      ensures Nexts() == Bypassed(old(Nexts()), list, k)
      ensures free.location == 0 && Slots() == old(Slots())[list[k] := free]
    {
      hide Listed, Bypassed;
      ListedSlot(k);
      ghost var nexts, slots, slot := Nexts(), Slots(), list[k];
      assert n.next == nexts[slot];
      Bypass(n, k);
      BypassedIs(nexts, list, k);
      ClearSlot(n, slot);
      assert Slots() == slots[slot := n.Value()];
      free := n.Value();
    }

    /** Taking the k-th node out of the list and clearing its slot. */
    method Unlink(n: Node, ghost k: nat) returns (ghost free: Blinker)
      requires Valid() && k < |list| && n == pool[list[k]]
      modifies this, pool
      ensures list == Without(old(list), k) && head == if k == 0 then old(n.next) else old(head)
      ensures Nexts() == Bypassed(old(Nexts()), old(list), k)
      ensures free.location == 0 && Slots() == old(Slots())[old(list)[k] := free]
    {
      hide Bypassed, Listed;
      free := UnlinkSlot(n, k);
      list := Without(list, k);
    }

    method Relink(n: Node, next: Node?, ghost slot: nat)
      requires Shape() && slot < POOL_SIZE && n == pool[slot]
      modifies n
      ensures Nexts() == old(Nexts())[slot := next] && Slots() == old(Slots())
    {
      ghost var slots, nexts := Slots(), Nexts();
      assert forall s :: 0 <= s < POOL_SIZE && s != slot ==> pool[s] != n;
      n.next := next;
      assert Nexts() == nexts[slot := next];
      assert Slots() == slots;
    }

    method ClearSlot(n: Node, ghost slot: nat)
      requires Shape() && slot < POOL_SIZE && n == pool[slot]
      modifies n
      ensures n.location == 0
      ensures Nexts() == old(Nexts())[slot := null] && Slots() == old(Slots())[slot := n.Value()]
    {
      ghost var slots, nexts := Slots(), Nexts();
      assert forall s :: 0 <= s < POOL_SIZE && s != slot ==> pool[s] != n;
      Free(n);
      assert Nexts() == nexts[slot := null];
      assert Slots() == slots[slot := n.Value()];
    }

    /** mp1_ioctl_remove: the argument is truncated to 16 bits. */
    method Remove(arg: uint32) returns (r: int)
      requires Valid()
      modifies this, pool
      ensures Valid() && View() == Blink.Remove(old(View()), arg % 0x1_0000)
      ensures r == 0 ==> var k := FirstAt(old(View()).list, arg % 0x1_0000);
        && |list| == |old(list)| - 1 && k < |old(list)| && old(list)[k] < |pool|
        && old(list)[k] !in list && pool[old(list)[k]].location == 0
      ensures r == -1 ==> list == old(list)
      ensures r == if FirstAt(old(View()).list, arg % 0x1_0000) == |old(View()).list| then -1 else 0
    {
      var n, k := FindHelper(arg % 0x1_0000);
      if n == null {
        return -1;
      }
      FoundAt(n, k);
      RemoveNode(n, k);
      return 0;
    }

    method RemoveNode(n: Node, ghost k: nat)
      requires Valid() && k < |list| && n == pool[list[k]]
      modifies this, pool
      ensures Valid() && View() == State(Without(old(View()).list, k), old(View()).screen)
      ensures list == Without(old(list), k) && old(list)[k] !in list && n.location == 0
    {
      ghost var was, slots := list, Slots();
      assert n.next == Nexts()[list[k]];
      UnlinkNode(pool, head, list, Nexts(), k);
      ghost var free := Unlink(n, k);
      UnmarkNode(was, slots, k, free);
      NotLeft(was, k);
      PickWithout(was, slots, k, free);
    }

    method CopyTiming(a: Node, b: Node)
      modifies b
      ensures b.Value() == Synced(old(a.Value()), old(b.Value())) && b.next == old(b.next)
    {
      b.onLength := a.onLength;
      b.offLength := a.offLength;
      b.countdown := a.countdown;
      b.status := a.status;
    }

    method CopyListed(a: Node, b: Node, ghost i: nat, ghost j: nat)
      requires Valid() && i < |list| && j < |list| && a == pool[list[i]] && b == pool[list[j]]
      modifies b
      ensures Valid() && b.location == old(b.location) && b.offChar == old(b.offChar)
      ensures View().list == old(View()).list[j := Synced(old(View()).list[i], old(View()).list[j])]
    {
      hide Synced;
      ghost var slots, nexts := Slots(), Nexts();
      assert Listed(pool, head, list, nexts, slots);
      assert a.Value() == slots[list[i]] && b.Value() == slots[list[j]];
      assert forall s :: 0 <= s < |pool| && s != list[j] ==> pool[s] != b;
      CopyTiming(a, b);
      assert forall s :: 0 <= s < POOL_SIZE && s != list[j] ==> pool[s].Value() == slots[s];
      assert Nexts() == nexts;
      NodeUpdated(j, slots, nexts);
    }

    method DrawListed(location: uint16, c: byte)
      requires Valid() && location < SCREEN_CELLS
      modifies screen
      ensures Valid() && View() == State(old(View()).list, Poke(old(View()).screen, location, c))
    {
      DrawChar(location, c);
    }

    method SyncNodes(a: Node, b: Node, ghost i: nat, ghost j: nat)
      requires Valid() && i < |list| && j < |list| && a == pool[list[i]] && b == pool[list[j]]
      modifies b, screen
      ensures Valid()
      ensures var was := old(View()); View() == State(was.list[j := Synced(was.list[i], was.list[j])],
                                                     Poke(was.screen, was.list[j].location, was.list[j].offChar))
    {
      hide Synced, Poke;
      assert b.Value() == View().list[j];
      CopyListed(a, b, i, j);
      DrawListed(b.location, b.offChar);
    }

    lemma FoundAt(n: Node?, k: nat)
      requires Valid() && n == At(pool, list, k) && k <= |list|
      ensures |View().list| == |list| && (n == null <==> k == |list|)
      ensures n != null ==> list[k] < |pool| && n == pool[list[k]]
    {
      EndOfList(k);
    }

    /** mp1_ioctl_sync: the first location is the high half of the argument. */
    method Sync(arg: uint32) returns (r: int)
      requires Valid()
      modifies pool, screen
      ensures Valid() && View() == Blink.Sync(old(View()), arg / 0x1_0000, arg % 0x1_0000)
      ensures r == if FirstAt(old(View()).list, arg / 0x1_0000) == |old(View()).list|
        || FirstAt(old(View()).list, arg % 0x1_0000) == |old(View()).list| then -1 else 0
    {
      hide Listed, FirstAt, Synced, Poke;
      ghost var was := View();
      var a, i := FindHelper(arg / 0x1_0000);
      FoundAt(a, i);
      if a == null {
        return -1;
      }
      var b, j := FindHelper(arg % 0x1_0000);
      FoundAt(b, j);
      if b == null {
        return -1;
      }
      SyncNodes(a, b, i, j);
      return 0;
    }

    /** mp1_ioctl_find: a copy of the first node at a location. */
    method Find(location: uint16) returns (r: int, found: Option<Blinker>)
      requires Valid()
      ensures var k := FirstAt(View().list, location);
        if k == |View().list| then r == -1 && found == None else r == 0 && found == Some(View().list[k])
    {
      var n, k := FindHelper(location);
      if n == null {
        return -1, None;
      }
      return 0, Some(n.Value());
    }
  }

  // ----- whole runs

  predicate NoZeroAdd(op: R.Op) { op.DoAdd? ==> op.user.location != 0 }

  method PerformSync(d: Driver, first: uint16, second: uint16)
    requires d.Valid()
    modifies d.pool, d.screen
    ensures d.Valid() && d.View() == Blink.Sync(old(d.View()), first, second)
  {
    hide Listed, Blink.Sync;
    var arg: uint32 := first * 0x1_0000 + second;
    assert arg / 0x1_0000 == first && arg % 0x1_0000 == second;
    var r := d.Sync(arg);
  }

  method PerformOne(d: Driver, op: R.Op)
    requires d.Valid() && NoZeroAdd(op)
    modifies d, d.pool, d.screen
    ensures d.Valid() && d.View() == R.Step(old(d.View()), op)
  {
    hide Listed, Blink.Add, Blink.Remove, Blink.Sync, Blink.Tick, AddFails, FirstAt;
    if op.DoAdd? {
      var r := d.Add(op.user);
    } else if op.DoRemove? {
      var r := d.Remove(op.location);
    } else if op.DoFind? {
      var r, found := d.Find(op.location);
    } else if op.DoSync? {
      PerformSync(d, op.first, op.second);
    } else {
      d.Tick();
    }
  }

  /** A sequence of commands and ticks on the nodes is the run of the same operations on
      values, so every statement about runs is one about the driver. */
  method Perform(d: Driver, ops: seq<R.Op>)
    requires d.Valid() && forall i :: 0 <= i < |ops| ==> NoZeroAdd(ops[i])
    modifies d, d.pool, d.screen
    ensures d.Valid() && d.View() == R.Run(old(d.View()), ops)
  {
    ghost var was := d.View();
    hide R.Step, Blink.Add, NoZeroAdd;
    assert ops[..0] == [];
    for i := 0 to |ops|
      invariant d.Valid() && d.View() == R.Run(was, ops[..i])
    {
      assert NoZeroAdd(ops[i]);
      PerformOne(d, ops[i]);
      assert ops[..i + 1][..i] == ops[..i];
    }
    assert ops[..|ops|] == ops;
  }

  /** Two adds, the first at location 0: the slot is handed out twice and the list head
      becomes its own successor, so that the next tick does not end. */
  method AddAtZeroMakesACycle(d: Driver, zero: Blinker, user: Blinker)
    requires d.Valid() && zero.location == 0 && user.location < SCREEN_CELLS && !AllUsed(d.Slots())
    modifies d, d.pool, d.screen
    ensures d.head != null && d.head.next == d.head
  {
    var r, slot := d.AddAnywhere(zero);
    assert FirstFree(d.Slots(), slot);
    r, slot := d.AddAnywhere(user);
  }

  /** The state when a tick has passed over the first k nodes. */
  ghost function Ticked(was: State, k: nat): State
    requires k <= |was.list|
  {
    State(TickList(was.list)[..k] + was.list[k..], TickScreen(was.screen, was.list[..k]))
  }

  lemma TickedNone(was: State)
    ensures Ticked(was, 0) == was
  {
    assert was.list[0..] == was.list && was.list[..0] == [];
  }

  lemma TickedOneMore(was: State, k: nat)
    requires k < |was.list|
    ensures var now := Ticked(was, k);
      now.list[k] == was.list[k] &&
      Ticked(was, k + 1) == State(now.list[k := TickOne(now.list[k])], DrawTick(now.screen, now.list[k]))
  {
    assert was.list[..k + 1][..k] == was.list[..k];
    var now := Ticked(was, k);
    assert Ticked(was, k + 1).list == now.list[k := TickOne(now.list[k])];
  }

  lemma TickedAll(was: State)
    ensures Ticked(was, |was.list|) == Blink.Tick(was)
  {
    assert was.list[..|was.list|] == was.list;
    assert TickList(was.list)[..|was.list|] + was.list[|was.list|..] == TickList(was.list);
  }

  ghost predicate FirstFree(slots: seq<Blinker>, i: nat) {
    i < |slots| && slots[i].location == 0 && forall j :: 0 <= j < i ==> slots[j].location != 0
  }
}
