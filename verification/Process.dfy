/** syscall_functions.c and scheduling.c on values: process slots, terminals, the program
    page and the kernel stack, as one state and one function for each system call. */
module Process {
  import opened Bytes
  import opened CString
  import opened Paging

  const SLOTS: nat := 6
  const TERMINALS: nat := 3
  const ARGS_SIZE: nat := 4096
  const NAME_KEY: nat := 32
  const SCREEN_BYTES: nat := 4096
  /** parent_pid of the first shell: -1 in an unsigned field. */
  const NO_PARENT: uint32 := 0xFFFF_FFFF

  datatype Pcb = Pcb(pid: uint32, parentPid: uint32, active: bool, esp0: uint32, terminal: int, args: seq<byte>)

  datatype Terminal = Terminal(cursorX: uint16, cursorY: uint16, running: bool, latestPid: int)

  /** `video` is memory from 0xB8000 on: the visible screen, then a saved one for each
      terminal. */
  datatype State = State(pid: int, cur: nat, procs: seq<Pcb>, terms: seq<Terminal>, esp0: uint32,
                         space: Space, video: seq<byte>, cursorX: uint16, cursorY: uint16)

  /** The files of the boot image by name, and whether each starts like an executable. */
  type Directory = map<seq<byte>, bool>

  /** A system call returns a value, or leaves for user mode. */
  datatype Outcome = Returns(value: int) | EntersUser

  ghost predicate Formed(s: State) {
    && |s.procs| == SLOTS && |s.terms| == TERMINALS && s.cur < TERMINALS && WellFormed(s.space)
    && |s.video| == SCREEN_BYTES * (1 + TERMINALS)
    && forall p :: 0 <= p < SLOTS ==> |s.procs[p].args| == ARGS_SIZE
  }

  /** Power-on: no process, no terminal in use, paging as init_paging leaves it. */
  ghost predicate PowerOn(s: State) {
    && Formed(s) && s.pid == -1 && s.cur == 0 && Guarded(s.space, None)
    && (forall p :: 0 <= p < SLOTS ==> !s.procs[p].active && s.procs[p].args == Zeros(ARGS_SIZE))
    && (forall t :: 0 <= t < TERMINALS ==> s.terms[t].latestPid == 0 && !s.terms[t].running)
  }

  // ----- the command line

  /** Characters before the first space. */
  function NameLength(c: seq<byte>): (n: nat)
    ensures n <= |c| && SPACE !in c[..n] && (n < |c| ==> c[n] == SPACE)
  {
    if c == [] || c[0] == SPACE then 0 else 1 + NameLength(c[1..])
  }

  /** Spaces from position at on. */
  function Spaces(c: seq<byte>, at: nat): (n: nat)
    requires at <= |c|
    ensures at + n <= |c| && (forall i :: at <= i < at + n ==> c[i] == SPACE) && (at + n < |c| ==> c[at + n] != SPACE)
    decreases |c| - at
  {
    if at == |c| || c[at] != SPACE then 0 else 1 + Spaces(c, at + 1)
  }

  /** The name is cut off at its length modulo 256, which is kept in a byte, and the
      directory looks at 32 characters of it. */
  function NameKey(c: seq<byte>): seq<byte> {
    Prefix32(c[..NameLength(c) % 0x100])
  }

  function Prefix32(name: seq<byte>): seq<byte> { name[..Min(|name|, NAME_KEY)] }

  function TailStart(c: seq<byte>): (t: nat)
    ensures NameLength(c) <= t <= |c|
  {
    NameLength(c) + Spaces(c, NameLength(c))
  }

  /** What follows the name and the spaces behind it. */
  function Tail(c: seq<byte>): seq<byte> { c[TailStart(c)..] }

  /** The count handed to strncpy for the arguments. */
  function TailCount(c: seq<byte>): nat {
    |c| - NameLength(c) % 0x100 - Spaces(c, NameLength(c))
  }

  // ----- execute

  function FirstInactive(procs: seq<Pcb>): (i: nat)
    ensures i <= |procs| && (i < |procs| ==> !procs[i].active) && forall j :: 0 <= j < i ==> procs[j].active
  {
    if procs == [] || !procs[0].active then 0 else 1 + FirstInactive(procs[1..])
  }

  /** Top of the 8 KB kernel stack of process p, below 8 MB. */
  function StackTop(p: int): uint32 { (0x80_0000 - 0x2000 * p - 4) % 0x1_0000_0000 }

  function SetProgramPage(s: Space, p: nat): Space
    requires WellFormed(s)
  {
    s.(dir := s.dir[PROGRAM_ENTRY := Large(true, true, true, false, (0x80_0000 + 0x40_0000 * p) / 0x40_0000)])
  }

  datatype ExecuteCase = NoCommand | NoFile | NoSlot | NotExecutable | Starts

  function Classify(s: State, command: Option<seq<byte>>, files: Directory): ExecuteCase {
    if command.None? then NoCommand
    else if NameKey(command.value) !in files then NoFile
    else if FirstInactive(s.procs) == |s.procs| then NoSlot
    else if !files[NameKey(command.value)] then NotExecutable
    else Starts
  }

  /** Slot taken and arguments stored, which happens before the file is looked at. */
  function TakeSlot(s: State, c: seq<byte>): State
    requires FirstInactive(s.procs) < |s.procs|
    requires TailCount(c) <= |s.procs[FirstInactive(s.procs)].args|
  {
    var i := FirstInactive(s.procs);
    var pcb := s.procs[i];
    s.(pid := i, procs := s.procs[i := pcb.(args := CopyN(pcb.args, Tail(c), TailCount(c)))])
  }

  function Launch(s: State, oldPid: int): State
    requires 0 <= s.pid < |s.procs| && s.cur < |s.terms| && WellFormed(s.space)
  {
    var p := s.pid;
    s.(procs := s.procs[p := s.procs[p].(pid := p % 0x1_0000_0000, parentPid := oldPid % 0x1_0000_0000, active := true,
                                         esp0 := StackTop(p), terminal := s.cur)],
       terms := s.terms[s.cur := s.terms[s.cur].(latestPid := p)],
       esp0 := StackTop(p),
       space := SetProgramPage(s.space, p))
  }

  /** Whether the arguments fit the slot they are copied to. */
  predicate Fits(command: Option<seq<byte>>) {
    command.Some? ==> TailCount(command.value) <= ARGS_SIZE
  }

  ghost function Execute(s: State, command: Option<seq<byte>>, files: Directory): (State, Outcome)
    requires Formed(s) && Fits(command)
  {
    match Classify(s, command, files)
    case NoCommand => (s, Returns(-1))
    case NoFile => (s, Returns(-1))
    case NoSlot => (s, Returns(0))
    case NotExecutable => (TakeSlot(s, command.value), Returns(-1))
    case Starts => (Launch(TakeSlot(s, command.value), s.pid), EntersUser)
  }

  // ----- halt, switch, vidmap, getargs

  ghost predicate CanHalt(s: State) {
    Formed(s) && 0 < s.pid < SLOTS && s.procs[s.pid].parentPid < SLOTS
  }

  ghost function Halt(s: State): State
    requires CanHalt(s)
  {
    var parent := s.procs[s.pid].parentPid;
    var stopped := s.procs[s.pid := s.procs[s.pid].(active := false, args := Zeros(ARGS_SIZE))];
    var space := SetProgramPage(s.space, parent);
    s.(pid := parent,
       procs := stopped[parent := stopped[parent].(active := true)],
       terms := s.terms[s.cur := s.terms[s.cur].(latestPid := parent)],
       esp0 := StackTop(parent),
       space := space.(dir := space.dir[0 := Table(true, true, false, space.firstFrame)],
                       video := space.video[s.cur := PageEntry(false, true, true, VIDEO_FRAME + s.cur * 0x1000)]))
  }

  function Copied(video: seq<byte>, to: nat, from: nat): (v: seq<byte>)
    requires to + SCREEN_BYTES <= |video| && from + SCREEN_BYTES <= |video|
    ensures |v| == |video|
  {
    video[..to] + video[from..from + SCREEN_BYTES] + video[to + SCREEN_BYTES..]
  }

  lemma CopiedAt(video: seq<byte>, to: nat, from: nat, i: nat)
    requires to + SCREEN_BYTES <= |video| && from + SCREEN_BYTES <= |video| && i < |video|
    ensures Copied(video, to, from)[i] == if to <= i < to + SCREEN_BYTES then video[from + (i - to)] else video[i]
  {
  }

  /** clear: 2000 cells of a space in light grey. */
  function Cleared(video: seq<byte>): (v: seq<byte>)
    requires |video| >= 4000
    ensures |v| == |video|
  {
    seq(4000, i => if i % 2 == 0 then SPACE else 7) + video[4000..]
  }

  function ScreenAt(t: nat): nat { SCREEN_BYTES * (1 + t) }

  /** "shell" */
  function Shell(): seq<byte> { [115, 104, 101, 108, 108] }

  /** The switch proper, before a terminal that is shown for the first time starts a shell. */
  ghost function Show(s: State, to: nat): State
    requires Formed(s) && to < TERMINALS
  {
    var saved := s.terms[s.cur := s.terms[s.cur].(cursorX := s.cursorX, cursorY := s.cursorY)];
    s.(terms := saved, cur := to, pid := saved[to].latestPid,
       cursorX := saved[to].cursorX, cursorY := saved[to].cursorY,
       video := Copied(Copied(s.video, ScreenAt(s.cur), 0), 0, ScreenAt(to)))
  }

  ghost function Started(s: State): State
    requires Formed(s)
  {
    s.(terms := s.terms[s.cur := s.terms[s.cur].(running := true)], video := Cleared(s.video))
  }

  ghost predicate StartsShell(s: State, to: nat)
    requires Formed(s) && to < TERMINALS
  {
    s.cur != to && !s.terms[to].running && to != 0
  }

  ghost function Switch(s: State, to: nat, files: Directory): State
    requires Formed(s) && to < TERMINALS
  {
    if s.cur == to then s
    else if StartsShell(s, to) then Execute(Started(Show(s, to)), Some(Shell()), files).0
    else Show(s, to)
  }

  predicate VidmapAccepts(screenStart: uint32) {
    0x800_0000 <= screenStart <= 0x840_0000
  }

  ghost function Vidmap(s: State, screenStart: uint32): State
    requires Formed(s)
  {
    if !VidmapAccepts(screenStart) then s
    else s.(space := s.space.(video := s.space.video[0 := PageEntry(true, true, true, VIDEO_FRAME)]))
  }

  /** What getargs leaves in a buffer. */
  ghost function Getargs(s: State, buf: seq<byte>, nbytes: nat): seq<byte>
    requires Formed(s) && 0 <= s.pid < SLOTS && nbytes <= |buf|
  {
    CopyN(buf, CStr(s.procs[s.pid].args, 0), nbytes)
  }
}
