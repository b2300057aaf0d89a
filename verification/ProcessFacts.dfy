/** What the system calls promise beyond the tree: where the documented behaviour holds,
    and exactly when it does not. */
module ProcessFacts {
  import opened Bytes
  import opened CString
  import opened Paging
  import opened Process
  import opened ProcessRuns

  /** A file that reaches slot allocation and is no executable leaves the new slot number
      in pid: execute keeps the process tree exactly when that does not happen. */
  lemma ExecuteKeepsTreeIff(s: State, command: Option<seq<byte>>, files: Directory)
    requires Good(s) && Fits(command)
    ensures Good(Execute(s, command, files).0) <==> Classify(s, command, files) != NotExecutable
  {
    if Classify(s, command, files) == NotExecutable {
      NotExecutableShape(s, command.value, files);
    } else {
      ExecuteGood(s, command, files);
    }
  }

  lemma NotExecutableShape(s: State, c: seq<byte>, files: Directory)
    requires Good(s) && Fits(Some(c)) && Classify(s, Some(c), files) == NotExecutable
    ensures !Good(Execute(s, Some(c), files).0)
  {
    var chains, q: nat :| Tree(s, chains) && Memory(s, q);
    var t := Execute(s, Some(c), files).0;
    assert Chain(s.procs, s.terms[s.cur].latestPid, s.cur, chains[s.cur]);
    if chains[s.cur] != [] {
      ChainTail(s.procs, s.pid, s.cur, chains[s.cur]);
      ChainActive(s.procs, s.pid, s.cur, chains[s.cur], s.pid);
    }
    assert s.procs[s.pid].active && t.pid == FirstInactive(s.procs) && t.terms == s.terms;
  }

  /** After an event: is the program page the page of the process that pid names? */
  ghost predicate PageMatches(s: State) {
    Formed(s) && 0 <= s.pid < SLOTS && s.space.dir[PROGRAM_ENTRY] == ProgramPage(s.pid) && s.esp0 == StackTop(s.pid)
  }

  lemma PagesDiffer(p: nat, q: nat)
    requires p < SLOTS && q < SLOTS
    ensures ProgramPage(p) == ProgramPage(q) <==> p == q
    ensures StackTop(p) == StackTop(q) <==> p == q
  {
  }

  lemma StartAndHaltMatch(s: State, command: Option<seq<byte>>, files: Directory)
    requires Good(s)
    ensures Fits(command) && Classify(s, command, files) == Starts ==> PageMatches(Execute(s, command, files).0)
    ensures s.pid != 0 ==> CanHalt(s) && PageMatches(Halt(s))
  {
    var chains, q: nat :| Tree(s, chains) && Memory(s, q);
    if Fits(command) && Classify(s, command, files) == Starts {
      ExecuteMemory(s, command.value, files, q);
      ExecuteFacts(s, command.value, files, chains);
    }
    if s.pid != 0 {
      HaltFacts(s, chains);
      HaltMemory(s, q);
    }
  }

  lemma SlotInRange(s: State, to: nat)
    requires Good(s) && to < TERMINALS
    ensures Formed(s) && s.pid == s.terms[s.cur].latestPid && 0 <= s.pid < SLOTS && 0 <= s.terms[to].latestPid < SLOTS
  {
    hide Ancestors;
    TerminalsPartitionProcesses(s, to);
    TerminalsPartitionProcesses(s, s.cur);
    var chains, q: nat :| Tree(s, chains) && Memory(s, q);
  }

  lemma MatchesOwn(s: State, q: nat)
    requires Formed(s) && Memory(s, q) && 0 <= s.pid < SLOTS
    ensures PageMatches(s) <==> s.pid == q
  {
    PagesDiffer(s.pid, q);
  }

  /** A switch maps nothing unless it starts a shell: with the page of process q mapped,
      page and stack match pid afterwards exactly when a shell was started or q is the
      latest process of the terminal shown. */
  lemma SwitchMatchesIff(s: State, to: nat, files: Directory, q: nat)
    requires Good(s) && Memory(s, q) && Regular(s, DoSwitch(to, files))
    ensures PageMatches(Switch(s, to, files)) <==>
      (StartsShell(s, to) && Classify(s, Some(Shell()), files) == Starts) || s.terms[to].latestPid == q
  {
    hide Good, PageMatches, Memory, Execute, Shell, Classify, Fits;
    SlotInRange(s, to);
    if s.cur == to {
      MatchesOwn(s, q);
    } else {
      ShownMatches(s, to, q);
      if StartsShell(s, to) {
        StartedMatches(Started(Show(s, to)), s, to, files);
      }
    }
  }

  lemma ShownMatches(s: State, to: nat, q: nat)
    requires Good(s) && Memory(s, q) && to < TERMINALS
    ensures PageMatches(Show(s, to)) <==> s.terms[to].latestPid == q
    ensures PageMatches(Started(Show(s, to))) <==> s.terms[to].latestPid == q
    ensures Good(Started(Show(s, to)))
  {
    ShowGood(s, to);
    SlotInRange(s, to);
    hide Good, PageMatches, Guarded;
    MatchesOwn(Show(s, to), q);
    MatchesOwn(Started(Show(s, to)), q);
  }

  lemma StartedMatches(t: State, s: State, to: nat, files: Directory)
    requires Formed(s) && to < TERMINALS && t == Started(Show(s, to)) && Good(t)
    requires Executable(s, Some(Shell()), files)
    ensures var u := Execute(t, Some(Shell()), files).0;
      if Classify(s, Some(Shell()), files) == Starts then PageMatches(u) else u == t
  {
    hide Good, PageMatches;
    assert Classify(t, Some(Shell()), files) == Classify(s, Some(Shell()), files);
    StartAndHaltMatch(t, Some(Shell()), files);
  }

  /** Kernel stacks of different processes do not overlap, and lie in the kernel's page. */
  lemma StacksDisjoint(p: nat, q: nat, a: int)
    requires p < q < SLOTS
    requires StackTop(p) + 4 - 0x2000 <= a < StackTop(p) + 4
    ensures !(StackTop(q) + 4 - 0x2000 <= a < StackTop(q) + 4)
    ensures LARGE_PAGE <= a < 2 * LARGE_PAGE
  {
  }

  /** User mode reaches the 4 MB page of process q and the text screen, nothing else. */
  ghost predicate ReachesOnly(s: State, q: nat) requires Formed(s) {
    forall va: uint32, write: bool :: Within(Walk(s.space, va, true, write), q)
  }

  predicate Within(pa: Option<uint32>, q: nat) {
    pa.Some? && pa.value / PAGE != VIDEO_FRAME ==> pa.value / LARGE_PAGE == 2 + q
  }

  /** After every run user mode is confined to the page of one process, and the kernel stack
      is that process's. */
  lemma RunConfinesUser(s: State, es: seq<Event>)
    requires Good(s) && RegularRun(s, es)
    ensures Good(Run(s, es))
    ensures exists q: nat :: q < SLOTS && ReachesOnly(Run(s, es), q) && Run(s, es).esp0 == StackTop(q)
  {
    RunGood(s, es);
    var t := Run(s, es);
    var chains, q: nat :| Tree(t, chains) && Memory(t, q);
    forall va: uint32, write: bool
      ensures Within(Walk(t.space, va, true, write), q)
    {
      UserNeverReachesKernel(t.space, Some(q), va, write);
    }
    assert ReachesOnly(t, q);
  }

  // ----- vidmap

  /** A store of the kernel goes to the page of process q. */
  predicate InProgramPage(s: State, va: uint32, q: nat)
    requires Formed(s)
  {
    var pa := Walk(s.space, va, false, true);
    pa.Some? && pa.value / LARGE_PAGE == 2 + q
  }

  /** The four bytes that vidmap stores through an accepted pointer all go to the program
      page exactly when the pointer leaves room for them. */
  lemma VidmapStoreIff(s: State, screenStart: uint32, q: nat)
    requires Formed(s) && Memory(s, q) && VidmapAccepts(screenStart)
    ensures InProgramPage(s, screenStart, q) && InProgramPage(s, screenStart + 1, q)
      && InProgramPage(s, screenStart + 2, q) && InProgramPage(s, screenStart + 3, q)
      <==> screenStart <= 0x840_0000 - 4
  {
    KernelStore(s, screenStart, q);
    KernelStore(s, screenStart + 1, q);
    KernelStore(s, screenStart + 2, q);
    KernelStore(s, screenStart + 3, q);
  }

  /** Between 128 MB and a little over 132 MB only addresses below 132 MB are the program's. */
  lemma KernelStore(s: State, va: uint32, q: nat)
    requires Formed(s) && Memory(s, q) && 0x800_0000 <= va < 0x840_0000 + 4
    ensures InProgramPage(s, va, q) <==> va < 0x840_0000
  {
    SplitAddress(va);
    if va < 0x840_0000 {
      assert va / LARGE_PAGE == PROGRAM_ENTRY && s.space.dir[PROGRAM_ENTRY].high == (2 + q) * 0x400;
    } else {
      assert va / LARGE_PAGE == VIDEO_ENTRY && va / PAGE % ENTRIES == 0;
    }
  }

  /** vidmap makes the text screen readable and writable at 132 MB. */
  lemma VidmapReaches(s: State, screenStart: uint32, q: nat, offset: nat, write: bool)
    requires Formed(s) && Memory(s, q) && VidmapAccepts(screenStart) && offset < PAGE
    ensures Formed(Vidmap(s, screenStart))
    ensures Walk(Vidmap(s, screenStart).space, 0x840_0000 + offset, true, write) == Some(0xB8000 + offset)
  {
    VidmapMemory(s, screenStart, q);
    UserReach(Vidmap(s, screenStart).space, Some(q), 0x840_0000 + offset, write);
  }

  /** A halt takes the screen away from user mode only on terminal 0: it clears the entry of
      the current terminal, and vidmap always sets the first one. */
  lemma HaltUnmapsScreenIff(s: State, q: nat)
    requires CanHalt(s) && Memory(s, q) && s.space.video[0] == PageEntry(true, true, true, VIDEO_FRAME)
    ensures Formed(Halt(s)) && (Walk(Halt(s).space, 0x840_0000, true, false).None? <==> s.cur == 0)
  {
    HaltMemory(s, q);
    UserReach(Halt(s).space, Some(s.procs[s.pid].parentPid), 0x840_0000, false);
  }

  // ----- screens

  /** Byte i of the screen a terminal shows, or will show when it is switched to. */
  ghost function ScreenByte(s: State, t: nat, i: nat): byte
    requires Formed(s) && t < TERMINALS && i < SCREEN_BYTES
  {
    s.video[if t == s.cur then i else ScreenAt(t) + i]
  }

  ghost function CursorOf(s: State, t: nat): (uint16, uint16)
    requires Formed(s) && t < TERMINALS
  {
    if t == s.cur then (s.cursorX, s.cursorY) else (s.terms[t].cursorX, s.terms[t].cursorY)
  }

  /** A switch between terminals keeps every terminal's screen and cursor. */
  lemma ShowKeepsScreens(s: State, to: nat, t: nat, i: nat)
    requires Formed(s) && to < TERMINALS && t < TERMINALS && s.cur != to && i < SCREEN_BYTES
    ensures Formed(Show(s, to))
    ensures ScreenByte(Show(s, to), t, i) == ScreenByte(s, t, i) && CursorOf(Show(s, to), t) == CursorOf(s, t)
  {
    hide Copied;
    ScreensCopied(s.video, s.cur, to, t, i);
  }

  /** Saving the visible screen and bringing back another, byte by byte. */
  lemma ScreensCopied(video: seq<byte>, from: nat, to: nat, t: nat, i: nat)
    requires |video| == SCREEN_BYTES * (1 + TERMINALS) && from < TERMINALS && to < TERMINALS && from != to
    requires t < TERMINALS && i < SCREEN_BYTES
    ensures var w := Copied(Copied(video, ScreenAt(from), 0), 0, ScreenAt(to));
      && |w| == |video|
      && (if t == to then w[i] == video[ScreenAt(to) + i]
          else w[ScreenAt(t) + i] == if t == from then video[i] else video[ScreenAt(t) + i])
  {
    hide Copied;
    var v, k := Copied(video, ScreenAt(from), 0), ScreenAt(t) + i;
    CopiedAt(video, ScreenAt(from), 0, k);
    CopiedAt(v, 0, ScreenAt(to), if t == to then i else k);
  }

  // ----- arguments

  /** A command is a name without spaces, spaces, and a tail that does not start with one. */
  lemma CommandParts(c: seq<byte>)
    ensures var n, t := NameLength(c), TailStart(c);
      && SPACE !in c[..n] && (forall i :: n <= i < t ==> c[i] == SPACE) && (t < |c| ==> c[t] != SPACE)
      && c == c[..n] + c[n..t] + Tail(c)
  {
    hide NameLength, Spaces;
    Partition(c, NameLength(c), TailStart(c));
  }

  lemma Partition(c: seq<byte>, n: nat, t: nat)
    requires n <= t <= |c|
    ensures c == c[..n] + c[n..t] + c[t..]
  {
  }

  /** For a name of fewer than 256 characters the count given to strncpy is the length of
      the tail. */
  lemma TailCountExact(c: seq<byte>)
    requires NameLength(c) < 0x100
    ensures TailCount(c) == |Tail(c)|
  {
  }

  lemma TailFits(c: seq<byte>)
    requires NulFree(c)
    ensures |Tail(c)| <= TailCount(c) && NulFree(Tail(c))
  {
  }

  lemma CopiedToZeros(tail: seq<byte>, n: nat)
    requires |tail| <= n <= ARGS_SIZE
    ensures CopyN(Zeros(ARGS_SIZE), tail, n) == tail + Zeros(ARGS_SIZE - |tail|)
  {
    var d := CopyN(Zeros(ARGS_SIZE), tail, n);
    forall k | n <= k < ARGS_SIZE
      ensures d[k] == NUL
    {
      assert d[k] == d[n..][k - n];
    }
  }

  /** A slot that is taken holds the tail of the command and zeros, whatever ran there before. */
  lemma StartStoresTail(s: State, c: seq<byte>, files: Directory)
    requires Good(s) && Fits(Some(c)) && Classify(s, Some(c), files) == Starts && NulFree(c)
    ensures var t := Execute(s, Some(c), files).0;
      && Formed(t) && t.pid == FirstInactive(s.procs) < SLOTS && t.procs[t.pid].active
      && |Tail(c)| <= ARGS_SIZE && t.procs[t.pid].args == Tail(c) + Zeros(ARGS_SIZE - |Tail(c)|)
  {
    hide Execute, NameLength, TailStart, Spaces, NulFree, Tail, TailCount, CopyN, FirstInactive, Classify, Chain, Zeros;
    PidInRange(s);
    var chains, q: nat :| Tree(s, chains) && Memory(s, q);
    ExecuteFacts(s, c, files, chains);
    ExecuteShape(s, c, files);
    TailFits(c);
    assert SlotOk(s.procs[FirstInactive(s.procs)], FirstInactive(s.procs), chains);
    CopiedToZeros(Tail(c), TailCount(c));
  }

  lemma ExecuteKeepsArgs(s: State, command: Option<seq<byte>>, files: Directory, p: nat)
    requires Formed(s) && Executable(s, command, files) && p < SLOTS && s.procs[p].active && -1 <= s.pid < SLOTS
    ensures var t := Execute(s, command, files).0;
      Formed(t) && t.procs[p].active && t.procs[p].args == s.procs[p].args
  {
    if Classify(s, command, files) == Starts {
      ExecuteShape(s, command.value, files);
    }
  }

  lemma SameExecutable(t: State, s: State, files: Directory)
    requires t.procs == s.procs && Executable(s, Some(Shell()), files)
    ensures Executable(t, Some(Shell()), files)
  {
  }

  lemma SwitchKeepsArgs(s: State, to: nat, files: Directory, p: nat)
    requires Good(s) && Regular(s, DoSwitch(to, files)) && p < SLOTS && s.procs[p].active
    ensures var t := Switch(s, to, files);
      Formed(t) && t.procs[p].active && t.procs[p].args == s.procs[p].args
  {
    hide Good, Execute, Shell, Fits, Classify;
    SlotInRange(s, to);
    if s.cur != to && StartsShell(s, to) {
      ShowGood(s, to);
      SameExecutable(Started(Show(s, to)), s, files);
      ExecuteKeepsArgs(Started(Show(s, to)), Some(Shell()), files, p);
    }
  }

  lemma PidInRange(s: State)
    requires Good(s)
    ensures Formed(s) && 0 <= s.pid < SLOTS
  {
    var chains, q: nat :| Tree(s, chains) && Memory(s, q);
    assert Chain(s.procs, s.terms[s.cur].latestPid, s.cur, chains[s.cur]);
  }

  /** Only its own halt changes the arguments of an active process. */
  lemma ArgsKept(s: State, e: Event, p: nat)
    requires Good(s) && Regular(s, e) && p < SLOTS && s.procs[p].active
    requires e.DoHalt? ==> s.pid != p
    ensures Good(Next(s, e)) && Next(s, e).procs[p].active && Next(s, e).procs[p].args == s.procs[p].args
  {
    NextGood(s, e);
    PidInRange(s);
    hide Good;
    match e
    case DoExecute(command, files) => ExecuteKeepsArgs(s, command, files, p);
    case DoHalt => HaltResumesParent(s);
    case DoSwitch(to, files) => SwitchKeepsArgs(s, to, files, p);
    case DoVidmap(_) =>
  }

  ghost predicate StaysActive(s: State, es: seq<Event>, p: nat)
    requires Good(s) && RegularRun(s, es)
    decreases |es|
  {
    es == [] || ((es[0].DoHalt? ==> s.pid != p) && (NextGood(s, es[0]); StaysActive(Next(s, es[0]), es[1..], p)))
  }

  lemma {:induction false} ArgsKeptInRun(s: State, es: seq<Event>, p: nat)
    requires Good(s) && RegularRun(s, es) && p < SLOTS && s.procs[p].active && StaysActive(s, es, p)
    ensures Good(Run(s, es)) && Run(s, es).procs[p].args == s.procs[p].args
    decreases |es|
  {
    RunGood(s, es);
    if es != [] {
      ArgsKept(s, es[0], p);
      ArgsKeptInRun(Next(s, es[0]), es[1..], p);
    }
  }

  /** getargs gives a process exactly the tail of the command that started it, zero padded
      or cut off, however many system calls later. A tail that fills the slot has no
      terminator there, so its copy would run on behind the slot. */
  lemma GetargsGivesTail(s: State, c: seq<byte>, files: Directory, es: seq<Event>, buf: seq<byte>, nbytes: nat)
    requires Good(s) && NulFree(c) && Fits(Some(c)) && Classify(s, Some(c), files) == Starts && nbytes <= |buf|
    requires |Tail(c)| < ARGS_SIZE
    requires Good(Execute(s, Some(c), files).0)
    requires RegularRun(Execute(s, Some(c), files).0, es)
    requires StaysActive(Execute(s, Some(c), files).0, es, FirstInactive(s.procs))
    requires Run(Execute(s, Some(c), files).0, es).pid == FirstInactive(s.procs) < SLOTS
    ensures var t := Run(Execute(s, Some(c), files).0, es);
      Good(t) && Getargs(t, buf, nbytes) == CopyN(buf, Tail(c), nbytes)
  {
    hide Execute, NameLength, TailStart, Spaces, NulFree, Tail, TailCount, CopyN, Good, Classify, FirstInactive, CStr;
    PidInRange(s);
    var u := Execute(s, Some(c), files).0;
    StartStoresTail(s, c, files);
    TailFits(c);
    ArgsKeptInRun(u, es, u.pid);
    ZeroPadded(u.procs[u.pid].args, Tail(c));
  }

  lemma ZeroPadded(args: seq<byte>, tail: seq<byte>)
    requires |tail| < |args| && args == tail + Zeros(|args| - |tail|) && NulFree(tail)
    ensures CStr(args, 0) == tail
  {
    assert args[0..|tail|] == tail;
    CStrIs(args, 0, |tail|);
  }
}
