/** blink.S on values: the blinking characters, what one tick does to them, and the four
    commands as functions on the list of characters and the screen. */
module Blink {
  import opened Bytes

  const SCREEN_CELLS: nat := 2000
  const POOL_SIZE: nat := 2000

  /** A mp1_blink_struct without its link. */
  datatype Blinker = Blinker(location: uint16, onChar: byte, offChar: byte,
                             onLength: uint16, offLength: uint16, countdown: uint16, status: uint16)

  datatype State = State(list: seq<Blinker>, screen: seq<byte>)

  predicate On(b: Blinker) { b.status % 2 == 1 }

  function Signed(x: uint16): int { if x < 0x8000 then x else x - 0x1_0000 }

  /** decw */
  function Decremented(x: uint16): uint16 { if x == 0 then 0xFFFF else x - 1 }

  /** xorw $1 */
  function Flipped(x: uint16): uint16 { if x % 2 == 1 then x - 1 else x + 1 }

  predicate Expires(b: Blinker) { Signed(Decremented(b.countdown)) <= 0 }

  function TickOne(b: Blinker): (t: Blinker)
    ensures t.location == b.location && t.onChar == b.onChar && t.offChar == b.offChar
    ensures t.onLength == b.onLength && t.offLength == b.offLength
  {
    if !Expires(b) then b.(countdown := Decremented(b.countdown))
    else b.(countdown := if On(b) then b.offLength else b.onLength, status := Flipped(b.status))
  }

  /** mp1_poke at twice the location: the character byte of a text-mode cell. */
  function Poke(screen: seq<byte>, location: uint16, c: byte): (s: seq<byte>)
    ensures |s| == |screen|
  {
    if 2 * location < |screen| then screen[2 * location := c] else screen
  }

  function DrawTick(screen: seq<byte>, b: Blinker): (s: seq<byte>)
    ensures |s| == |screen|
  {
    if Expires(b) then Poke(screen, b.location, if On(b) then b.offChar else b.onChar) else screen
  }

  function TickList(list: seq<Blinker>): (t: seq<Blinker>)
    ensures |t| == |list| && forall i :: 0 <= i < |list| ==> t[i] == TickOne(list[i])
  {
    seq(|list|, i requires 0 <= i < |list| => TickOne(list[i]))
  }

  /** The list is drawn from its head on. */
  function TickScreen(screen: seq<byte>, list: seq<Blinker>): (s: seq<byte>)
    ensures |s| == |screen|
  {
    if list == [] then screen else DrawTick(TickScreen(screen, list[..|list| - 1]), list[|list| - 1])
  }

  function Tick(s: State): State {
    State(TickList(s.list), TickScreen(s.screen, s.list))
  }

  /** Position of the first node at a location, |list| when there is none. */
  function FirstAt(list: seq<Blinker>, location: uint16): (k: nat)
    ensures k <= |list| && (k < |list| ==> list[k].location == location)
    ensures forall i :: 0 <= i < k ==> list[i].location != location
  {
    if list == [] || list[0].location == location then 0 else 1 + FirstAt(list[1..], location)
  }

  lemma {:induction false} FirstAtIs(list: seq<Blinker>, location: uint16, k: nat)
    requires k <= |list| && (k < |list| ==> list[k].location == location)
    requires forall i :: 0 <= i < k ==> list[i].location != location
    ensures FirstAt(list, location) == k
  {
    if k > 0 {
      FirstAtIs(list[1..], location, k - 1);
    }
  }

  /** What add makes of the caller's struct: it starts out on. */
  function Fresh(user: Blinker): Blinker {
    user.(status := 1, countdown := user.onLength)
  }

  predicate AddFails(s: State, user: Blinker) {
    user.location >= SCREEN_CELLS || |s.list| >= POOL_SIZE
  }

  function Add(s: State, user: Blinker): State {
    if AddFails(s, user) then s
    else State([Fresh(user)] + s.list, Poke(s.screen, user.location, user.onChar))
  }

  function Without<T>(s: seq<T>, k: nat): (r: seq<T>)
    requires k < |s|
    ensures |r| == |s| - 1 && forall i :: 0 <= i < |r| ==> r[i] == if i < k then s[i] else s[i + 1]
  {
    s[..k] + s[k + 1..]
  }

  function Remove(s: State, location: uint16): State {
    var k := FirstAt(s.list, location);
    if k == |s.list| then s else s.(list := Without(s.list, k))
  }

  /** The second node takes over the timing of the first. */
  function Synced(first: Blinker, second: Blinker): (b: Blinker)
    ensures b.location == second.location && b.onChar == second.onChar && b.offChar == second.offChar
  {
    second.(onLength := first.onLength, offLength := first.offLength,
            countdown := first.countdown, status := first.status)
  }

  /** The conditional move after testb never moves, so sync draws the off character. */
  function Sync(s: State, first: uint16, second: uint16): State {
    var i, j := FirstAt(s.list, first), FirstAt(s.list, second);
    if i == |s.list| || j == |s.list| then s
    else State(s.list[j := Synced(s.list[i], s.list[j])], Poke(s.screen, second, s.list[j].offChar))
  }
}
