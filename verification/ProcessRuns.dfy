/** What every run of execute, halt, terminal switch and vidmap keeps. */
module ProcessRuns {
  import opened Bytes
  import opened CString
  import opened Paging
  import opened Process

  // ----- the process tree

  /** The processes of terminal t other than process 0, the running one first. */
  ghost predicate Chain(procs: seq<Pcb>, latest: int, t: nat, chain: seq<nat>)
    requires |procs| == SLOTS
  {
    && latest == Link(chain, 0)
    && (forall i :: 0 <= i < |chain| ==> 0 < chain[i] < SLOTS)
    && (forall i, j :: 0 <= i < j < |chain| ==> chain[i] != chain[j])
    && (forall i :: 0 <= i < |chain| ==> OnChain(procs[chain[i]], chain[i], t, Link(chain, i + 1)))
  }

  function Link(chain: seq<nat>, i: nat): nat {
    if i < |chain| then chain[i] else 0
  }

  predicate OnChain(pcb: Pcb, p: nat, t: nat, parent: nat) {
    pcb.active && pcb.pid == p && pcb.terminal == t && pcb.parentPid == parent
  }

  /** An active process other than 0 is on the chain of its own terminal; an inactive slot
      holds no arguments. */
  predicate SlotOk(pcb: Pcb, p: nat, chains: seq<seq<nat>>)
    requires |chains| == TERMINALS
  {
    if pcb.active then p != 0 ==> 0 <= pcb.terminal < TERMINALS && p in chains[pcb.terminal]
    else pcb.args == Zeros(ARGS_SIZE)
  }

  ghost predicate Tree(s: State, chains: seq<seq<nat>>)
    requires Formed(s)
  {
    && |chains| == TERMINALS
    && s.pid == s.terms[s.cur].latestPid
    && s.procs[0].active && s.procs[0].pid == 0 && s.procs[0].parentPid == NO_PARENT
    && (forall t :: 0 <= t < TERMINALS ==> Chain(s.procs, s.terms[t].latestPid, t, chains[t]))
    && (forall p :: 0 <= p < SLOTS ==> SlotOk(s.procs[p], p, chains))
  }

  /** The program page and the kernel stack belong to one and the same process. */
  ghost predicate Memory(s: State, q: nat) requires Formed(s) {
    Guarded(s.space, Some(q)) && s.esp0 == StackTop(q)
  }

  ghost predicate Good(s: State) {
    Formed(s) && exists chains, q: nat :: Tree(s, chains) && Memory(s, q)
  }

  lemma ChainActive(procs: seq<Pcb>, latest: int, t: nat, chain: seq<nat>, p: nat)
    requires |procs| == SLOTS && Chain(procs, latest, t, chain) && p in chain
    ensures 0 < p < SLOTS && procs[p].active && procs[p].terminal == t && procs[p].pid == p
  {
    var i :| 0 <= i < |chain| && chain[i] == p;
    assert OnChain(procs[chain[i]], chain[i], t, Link(chain, i + 1));
  }

  lemma ChainKept(procs: seq<Pcb>, latest: int, t: nat, chain: seq<nat>, p: nat, pcb: Pcb)
    requires |procs| == SLOTS && Chain(procs, latest, t, chain) && p < SLOTS && p !in chain
    ensures Chain(procs[p := pcb], latest, t, chain)
  {
  }

  lemma ChainPush(procs: seq<Pcb>, latest: int, t: nat, chain: seq<nat>, p: nat, pcb: Pcb)
    requires |procs| == SLOTS && Chain(procs, latest, t, chain) && 0 < p < SLOTS && p !in chain
    requires OnChain(pcb, p, t, Link(chain, 0))
    ensures Chain(procs[p := pcb], p, t, [p] + chain)
  {
    var longer := [p] + chain;
    forall i | 0 <= i < |longer|
      ensures 0 < longer[i] < SLOTS && OnChain(procs[p := pcb][longer[i]], longer[i], t, Link(longer, i + 1))
    {
      assert Link(longer, i + 1) == Link(chain, i);
      if i > 0 {
        assert longer[i] == chain[i - 1] && chain[i - 1] in chain;
      }
    }
  }

  lemma ChainPop(procs: seq<Pcb>, latest: int, t: nat, chain: seq<nat>, pcb: Pcb)
    requires |procs| == SLOTS && Chain(procs, latest, t, chain) && chain != []
    ensures Chain(procs[chain[0] := pcb], procs[chain[0]].parentPid, t, chain[1..])
  {
    var rest := chain[1..];
    assert OnChain(procs[chain[0]], chain[0], t, Link(chain, 1));
    forall i | 0 <= i < |rest|
      ensures OnChain(procs[chain[0] := pcb][rest[i]], rest[i], t, Link(rest, i + 1))
    {
      assert Link(rest, i + 1) == Link(chain, i + 2);
    }
  }

  /** What a start changes: one slot, the current terminal's latest process, page and stack. */
  lemma ExecuteShape(s: State, c: seq<byte>, files: Directory)
    requires Formed(s) && Fits(Some(c)) && Classify(s, Some(c), files) == Starts && -1 <= s.pid < SLOTS
    ensures var i, t := FirstInactive(s.procs), Execute(s, Some(c), files).0;
      && i < SLOTS && !s.procs[i].active && t.procs == s.procs[i := t.procs[i]]
      && OnChain(t.procs[i], i, s.cur, if s.pid == -1 then NO_PARENT else s.pid)
      && t.procs[i].args == CopyN(s.procs[i].args, Tail(c), TailCount(c))
      && Formed(t) && t.cur == s.cur && t.pid == i && t.terms == s.terms[s.cur := s.terms[s.cur].(latestPid := i)]
      && t.esp0 == StackTop(i) && t.space == SetProgramPage(s.space, i) && t.video == s.video
  {
    hide NameLength, Spaces, CopyN;
  }

  /** A start takes one inactive slot other than 0, for a child of the running process. */
  lemma ExecuteFacts(s: State, c: seq<byte>, files: Directory, chains: seq<seq<nat>>)
    requires Formed(s) && Fits(Some(c)) && Tree(s, chains) && Classify(s, Some(c), files) == Starts
    ensures var i, t := FirstInactive(s.procs), Execute(s, Some(c), files).0;
      && 0 < i < SLOTS && !s.procs[i].active && t.procs == s.procs[i := t.procs[i]]
      && OnChain(t.procs[i], i, s.cur, s.terms[s.cur].latestPid)
      && Formed(t) && t.cur == s.cur && t.pid == i && t.terms == s.terms[s.cur := s.terms[s.cur].(latestPid := i)]
  {
    hide Execute, FirstInactive, Classify, Fits, CopyN, Tail, TailCount;
    assert Chain(s.procs, s.terms[s.cur].latestPid, s.cur, chains[s.cur]);
    ExecuteShape(s, c, files);
  }

  lemma ChainFront(procs: seq<Pcb>, latest: int, t: nat, chain: seq<nat>)
    requires |procs| == SLOTS && Chain(procs, latest, t, chain)
    ensures latest == Link(chain, 0)
  {
  }

  lemma ExecuteChains(s: State, c: seq<byte>, files: Directory, chains: seq<seq<nat>>, u: nat)
    requires Formed(s) && Fits(Some(c)) && Tree(s, chains) && Classify(s, Some(c), files) == Starts && u < TERMINALS
    ensures var i, t := FirstInactive(s.procs), Execute(s, Some(c), files).0;
      Formed(t) && Chain(t.procs, t.terms[u].latestPid, u, if u == s.cur then [i] + chains[u] else chains[u])
  {
    hide Execute, FirstInactive, Classify, Fits, Chain;
    var i, latest := FirstInactive(s.procs), s.terms[u].latestPid;
    ExecuteFacts(s, c, files, chains);
    var t := Execute(s, Some(c), files).0;
    assert Chain(s.procs, latest, u, chains[u]);
    ChainFront(s.procs, latest, u, chains[u]);
    if i in chains[u] {
      ChainActive(s.procs, latest, u, chains[u], i);
    }
    if u == s.cur {
      ChainPush(s.procs, latest, u, chains[u], i, t.procs[i]);
    } else {
      ChainKept(s.procs, latest, u, chains[u], i, t.procs[i]);
    }
  }

  lemma ExecuteSlot(s: State, c: seq<byte>, files: Directory, chains: seq<seq<nat>>, p: nat)
    requires Formed(s) && Fits(Some(c)) && Tree(s, chains) && Classify(s, Some(c), files) == Starts && p < SLOTS
    ensures SlotOk(Execute(s, Some(c), files).0.procs[p], p, chains[s.cur := [FirstInactive(s.procs)] + chains[s.cur]])
  {
    hide Execute, FirstInactive, Classify, Fits, Chain, Zeros;
    ExecuteFacts(s, c, files, chains);
    assert SlotOk(s.procs[p], p, chains);
    PushedSlot(s.procs[p], p, chains, s.cur, FirstInactive(s.procs));
  }

  /** A slot stays in order when a slot goes to the front of a chain. */
  lemma PushedSlot(pcb: Pcb, p: nat, chains: seq<seq<nat>>, t: nat, i: nat)
    requires |chains| == TERMINALS && t < TERMINALS && SlotOk(pcb, p, chains)
    ensures SlotOk(pcb, p, chains[t := [i] + chains[t]])
  {
  }

  lemma ExecuteTree(s: State, c: seq<byte>, files: Directory, chains: seq<seq<nat>>)
    requires Formed(s) && Fits(Some(c)) && Tree(s, chains) && Classify(s, Some(c), files) == Starts
    ensures var t := Execute(s, Some(c), files).0;
      Formed(t) && Tree(t, chains[s.cur := [FirstInactive(s.procs)] + chains[s.cur]])
  {
    hide Execute, Chain, SlotOk, Classify, FirstInactive, Fits;
    ExecuteFacts(s, c, files, chains);
    var i, t := FirstInactive(s.procs), Execute(s, Some(c), files).0;
    var now := chains[s.cur := [i] + chains[s.cur]];
    forall u | 0 <= u < TERMINALS
      ensures Chain(t.procs, t.terms[u].latestPid, u, now[u])
    {
      ExecuteChains(s, c, files, chains, u);
    }
    forall p | 0 <= p < SLOTS
      ensures SlotOk(t.procs[p], p, now)
    {
      ExecuteSlot(s, c, files, chains, p);
    }
  }

  /** The running process has an active parent, and a halt changes its own slot only. */
  lemma HaltFacts(s: State, chains: seq<seq<nat>>)
    requires Formed(s) && Tree(s, chains) && s.pid != 0
    ensures CanHalt(s) && chains[s.cur] != [] && chains[s.cur][0] == s.pid
    ensures s.procs[s.procs[s.pid].parentPid].active && s.procs[s.pid].parentPid != s.pid
    ensures Halt(s).procs == s.procs[s.pid := s.procs[s.pid].(active := false, args := Zeros(ARGS_SIZE))]
    ensures Halt(s).cur == s.cur && Halt(s).pid == s.procs[s.pid].parentPid
  {
    var chain := chains[s.cur];
    assert Chain(s.procs, s.terms[s.cur].latestPid, s.cur, chain);
    assert OnChain(s.procs[chain[0]], chain[0], s.cur, Link(chain, 1));
    assert |chain| > 1 ==> OnChain(s.procs[chain[1]], chain[1], s.cur, Link(chain, 2));
  }

  lemma OtherChain(s: State, chains: seq<seq<nat>>, u: nat)
    requires Formed(s) && Tree(s, chains) && s.pid != 0 && u < TERMINALS && u != s.cur
    ensures s.pid !in chains[u]
  {
    assert Chain(s.procs, s.terms[s.cur].latestPid, s.cur, chains[s.cur]);
    ChainActive(s.procs, s.pid, s.cur, chains[s.cur], s.pid);
    if s.pid in chains[u] {
      ChainActive(s.procs, s.terms[u].latestPid, u, chains[u], s.pid);
    }
  }

  lemma HaltChains(s: State, chains: seq<seq<nat>>, u: nat)
    requires Formed(s) && Tree(s, chains) && s.pid != 0 && u < TERMINALS && CanHalt(s) && chains[s.cur] != []
    ensures Chain(Halt(s).procs, Halt(s).terms[u].latestPid, u, if u == s.cur then chains[u][1..] else chains[u])
  {
    HaltFacts(s, chains);
    var pcb := Halt(s).procs[s.pid];
    if u == s.cur {
      ChainPop(s.procs, s.pid, u, chains[u], pcb);
    } else {
      OtherChain(s, chains, u);
      ChainKept(s.procs, s.terms[u].latestPid, u, chains[u], s.pid, pcb);
    }
  }

  lemma HaltSlot(s: State, chains: seq<seq<nat>>, p: nat)
    requires Formed(s) && Tree(s, chains) && s.pid != 0 && p < SLOTS && CanHalt(s) && chains[s.cur] != []
    ensures SlotOk(Halt(s).procs[p], p, chains[s.cur := chains[s.cur][1..]])
  {
    HaltFacts(s, chains);
    assert SlotOk(s.procs[p], p, chains);
    if p != s.pid && p in chains[s.cur] {
      var i :| 0 <= i < |chains[s.cur]| && chains[s.cur][i] == p;
      assert chains[s.cur][1..][i - 1] == p;
    }
  }

  lemma HaltTree(s: State, chains: seq<seq<nat>>)
    requires Formed(s) && Tree(s, chains) && s.pid != 0
    ensures CanHalt(s) && chains[s.cur] != []
    ensures Formed(Halt(s)) && Tree(Halt(s), chains[s.cur := chains[s.cur][1..]])
  {
    HaltFacts(s, chains);
    var t, now := Halt(s), chains[s.cur := chains[s.cur][1..]];
    forall u | 0 <= u < TERMINALS
      ensures Chain(t.procs, t.terms[u].latestPid, u, now[u])
    {
      HaltChains(s, chains, u);
    }
    hide Chain;
    forall p | 0 <= p < SLOTS
      ensures SlotOk(t.procs[p], p, now)
    {
      HaltSlot(s, chains, p);
    }
  }

  lemma ShowTree(s: State, to: nat, chains: seq<seq<nat>>)
    requires Formed(s) && Tree(s, chains) && to < TERMINALS
    ensures Formed(Show(s, to)) && Tree(Show(s, to), chains)
    ensures s.cur == to ==> Tree(s, chains)
  {
    var t := Show(s, to);
    forall u | 0 <= u < TERMINALS
      ensures Chain(t.procs, t.terms[u].latestPid, u, chains[u])
    {
      assert Chain(s.procs, s.terms[u].latestPid, u, chains[u]);
    }
  }

  lemma StartedTree(s: State, chains: seq<seq<nat>>)
    requires Formed(s) && Tree(s, chains)
    ensures Formed(Started(s)) && Tree(Started(s), chains)
  {
    var t := Started(s);
    forall u | 0 <= u < TERMINALS
      ensures Chain(t.procs, t.terms[u].latestPid, u, chains[u])
    {
      assert Chain(s.procs, s.terms[u].latestPid, u, chains[u]);
    }
  }

  // ----- memory

  lemma LaunchMemory(s: Space, q: Option<nat>, p: nat)
    requires Guarded(s, q) && p < SLOTS
    ensures Guarded(SetProgramPage(s, p), Some(p))
  {
    assert (0x80_0000 + 0x40_0000 * p) / 0x40_0000 == 2 + p;
  }

  lemma ExecuteMemory(s: State, c: seq<byte>, files: Directory, q: nat)
    requires Formed(s) && Fits(Some(c)) && Memory(s, q) && Classify(s, Some(c), files) == Starts
    ensures Formed(Execute(s, Some(c), files).0) && Memory(Execute(s, Some(c), files).0, FirstInactive(s.procs))
  {
    hide Execute, SetProgramPage, Guarded, Classify, Fits, FirstInactive, StackTop;
    ExecuteSpace(s, c, files);
    LaunchMemory(s.space, Some(q), FirstInactive(s.procs));
  }

  lemma ExecuteSpace(s: State, c: seq<byte>, files: Directory)
    requires Formed(s) && Fits(Some(c)) && Classify(s, Some(c), files) == Starts
    ensures var i, t := FirstInactive(s.procs), Execute(s, Some(c), files).0;
      i < SLOTS && Formed(t) && t.space == SetProgramPage(s.space, i) && t.esp0 == StackTop(i)
  {
    hide NameLength, Spaces, CopyN, StackTop, Tail, TailCount, Large;
  }

  lemma HaltMemory(s: State, q: nat)
    requires CanHalt(s) && Memory(s, q)
    ensures Formed(Halt(s)) && Memory(Halt(s), s.procs[s.pid].parentPid)
  {
    hide StackTop, Large;
    LaunchMemory(s.space, Some(q), s.procs[s.pid].parentPid);
  }

  lemma VidmapMemory(s: State, screenStart: uint32, q: nat)
    requires Formed(s) && Memory(s, q)
    ensures Formed(Vidmap(s, screenStart)) && Memory(Vidmap(s, screenStart), q)
  {
  }

  // ----- runs

  datatype Event = DoExecute(command: Option<seq<byte>>, files: Directory) | DoHalt
                 | DoSwitch(to: nat, files: Directory) | DoVidmap(screenStart: uint32)

  /** A command that reaches slot allocation names an executable. */
  predicate Executable(s: State, command: Option<seq<byte>>, files: Directory) {
    Fits(command) && Classify(s, command, files) != NotExecutable
  }

  /** The events that can happen, but for a halt of the first shell and for a command that
      gets a slot although its file is no executable. */
  ghost predicate Regular(s: State, e: Event)
    requires Formed(s)
  {
    match e
    case DoExecute(command, files) => Executable(s, command, files)
    case DoHalt => s.pid != 0
    case DoSwitch(to, files) => to < TERMINALS && (StartsShell(s, to) ==> Executable(s, Some(Shell()), files))
    case DoVidmap(_) => true
  }

  ghost function Next(s: State, e: Event): State
    requires Good(s) && Regular(s, e)
  {
    match e
    case DoExecute(command, files) => Execute(s, command, files).0
    case DoHalt => HaltFromGood(s); Halt(s)
    case DoSwitch(to, files) => Switch(s, to, files)
    case DoVidmap(screenStart) => Vidmap(s, screenStart)
  }

  lemma HaltFromGood(s: State)
    requires Good(s) && s.pid != 0
    ensures CanHalt(s)
  {
    var chains, q: nat :| Tree(s, chains) && Memory(s, q);
    HaltTree(s, chains);
  }

  lemma ExecuteGood(s: State, command: Option<seq<byte>>, files: Directory)
    requires Good(s) && Executable(s, command, files)
    ensures Good(Execute(s, command, files).0)
  {
    hide NameLength, Spaces, TailStart, CopyN;
    var chains, q: nat :| Tree(s, chains) && Memory(s, q);
    if Classify(s, command, files) == Starts {
      ExecuteTree(s, command.value, files, chains);
      ExecuteMemory(s, command.value, files, q);
    }
  }

  lemma ShowGood(s: State, to: nat)
    requires Good(s) && to < TERMINALS
    ensures Good(Show(s, to)) && Good(Started(Show(s, to)))
  {
    var chains, q: nat :| Tree(s, chains) && Memory(s, q);
    ShowTree(s, to, chains);
    StartedTree(Show(s, to), chains);
    assert Memory(Show(s, to), q) && Memory(Started(Show(s, to)), q);
  }

  lemma HaltGood(s: State)
    requires Good(s) && s.pid != 0
    ensures CanHalt(s) && Good(Halt(s))
  {
    var chains, q: nat :| Tree(s, chains) && Memory(s, q);
    HaltTree(s, chains);
    HaltMemory(s, q);
  }

  lemma SwitchGood(s: State, to: nat, files: Directory)
    requires Good(s) && to < TERMINALS && (StartsShell(s, to) ==> Executable(s, Some(Shell()), files))
    ensures Good(Switch(s, to, files))
  {
    if s.cur != to {
      ShowGood(s, to);
      hide Good;
      if StartsShell(s, to) {
        var t := Started(Show(s, to));
        assert Classify(t, Some(Shell()), files) == Classify(s, Some(Shell()), files);
        ExecuteGood(t, Some(Shell()), files);
      }
    }
  }

  lemma VidmapGood(s: State, screenStart: uint32)
    requires Good(s)
    ensures Good(Vidmap(s, screenStart))
  {
    var chains, q: nat :| Tree(s, chains) && Memory(s, q);
    VidmapMemory(s, screenStart, q);
    assert Tree(Vidmap(s, screenStart), chains);
  }

  /** Each event keeps the process tree, and page and stack of one process in place. */
  lemma NextGood(s: State, e: Event)
    requires Good(s) && Regular(s, e)
    ensures Good(Next(s, e))
  {
    match e
    case DoExecute(command, files) => ExecuteGood(s, command, files);
    case DoHalt => HaltGood(s);
    case DoSwitch(to, files) => SwitchGood(s, to, files);
    case DoVidmap(screenStart) => VidmapGood(s, screenStart);
  }

  ghost predicate RegularRun(s: State, es: seq<Event>)
    requires Good(s)
    decreases |es|
  {
    es == [] || (Regular(s, es[0]) && (NextGood(s, es[0]); RegularRun(Next(s, es[0]), es[1..])))
  }

  ghost function Run(s: State, es: seq<Event>): State
    requires Good(s) && RegularRun(s, es)
    decreases |es|
  {
    if es == [] then s else (NextGood(s, es[0]); Run(Next(s, es[0]), es[1..]))
  }

  lemma {:induction false} RunGood(s: State, es: seq<Event>)
    requires Good(s) && RegularRun(s, es)
    ensures Good(Run(s, es))
    decreases |es|
  {
    if es != [] {
      NextGood(s, es[0]);
      RunGood(Next(s, es[0]), es[1..]);
    }
  }

  // ----- boot

  lemma BootTree(s: State, files: Directory)
    requires PowerOn(s) && Shell() in files && files[Shell()]
    ensures Classify(s, Some(Shell()), files) == Starts && Fits(Some(Shell()))
    ensures var t := Execute(s, Some(Shell()), files).0;
      Formed(t) && t.pid == 0 && Tree(t, [[], [], []]) && t.space == SetProgramPage(s.space, 0) && t.esp0 == StackTop(0)
  {
    ShellCommand();
    hide NameLength, Spaces, Shell, NameKey, Tail, TailCount;
    assert !s.procs[0].active && FirstInactive(s.procs) == 0;
    ExecuteShape(s, Shell(), files);
    var t := Execute(s, Some(Shell()), files).0;
    hide Execute, FirstInactive, Guarded;
    assert forall p :: 0 <= p < SLOTS ==> SlotOk(t.procs[p], p, [[], [], []]);
    assert forall u :: 0 <= u < TERMINALS ==> Chain(t.procs, t.terms[u].latestPid, u, []);
  }

  /** The first shell makes the state good. */
  lemma BootGood(s: State, files: Directory)
    requires PowerOn(s) && Shell() in files && files[Shell()]
    ensures Fits(Some(Shell())) && Good(Execute(s, Some(Shell()), files).0)
  {
    BootTree(s, files);
    LaunchMemory(s.space, None, 0);
    hide Execute, Tree, Classify, NameLength, Spaces, Shell, NameKey, TailCount, Guarded, SetProgramPage;
    assert Memory(Execute(s, Some(Shell()), files).0, 0);
  }

  lemma {:induction false} NoSpace(c: seq<byte>)
    requires SPACE !in c
    ensures NameLength(c) == |c|
  {
    if c != [] {
      NoSpace(c[1..]);
    }
  }

  lemma ShellCommand()
    ensures NameKey(Shell()) == Shell() && Tail(Shell()) == [] && TailCount(Shell()) == 0
  {
    NoSpace(Shell());
  }

  // ----- what a good state means

  /** The processes from p up to process 0, following the parent links. */
  function Ancestors(procs: seq<Pcb>, p: nat, fuel: nat): seq<nat>
    decreases fuel
  {
    if p == 0 || fuel == 0 || p >= |procs| then [p] else [p] + Ancestors(procs, procs[p].parentPid, fuel - 1)
  }

  lemma ChainTail(procs: seq<Pcb>, latest: int, t: nat, chain: seq<nat>)
    requires |procs| == SLOTS && Chain(procs, latest, t, chain) && chain != []
    ensures 0 < latest < SLOTS && chain[0] == latest
    ensures Chain(procs, procs[latest].parentPid, t, chain[1..])
  {
    var rest := chain[1..];
    assert OnChain(procs[chain[0]], chain[0], t, Link(chain, 1));
    forall i | 0 <= i < |rest|
      ensures OnChain(procs[rest[i]], rest[i], t, Link(rest, i + 1))
    {
      assert Link(rest, i + 1) == Link(chain, i + 2);
    }
  }

  lemma AncestorsCons(procs: seq<Pcb>, p: nat, fuel: nat, rest: seq<nat>)
    requires 0 < p < |procs| && fuel > 0 && Ancestors(procs, procs[p].parentPid, fuel - 1) == rest
    ensures Ancestors(procs, p, fuel) == [p] + rest
  {
  }

  lemma NoAncestors(procs: seq<Pcb>, latest: int, t: nat, fuel: nat)
    requires |procs| == SLOTS && Chain(procs, latest, t, [])
    ensures latest == 0 && Ancestors(procs, 0, fuel) == [0]
  {
  }

  lemma {:induction false} ChainIsAncestors(procs: seq<Pcb>, latest: nat, t: nat, chain: seq<nat>, fuel: nat)
    requires |procs| == SLOTS && Chain(procs, latest, t, chain) && |chain| <= fuel
    ensures Ancestors(procs, latest, fuel) == chain + [0]
    decreases fuel
  {
    hide Chain, Ancestors;
    if chain == [] {
      NoAncestors(procs, latest, t, fuel);
    } else {
      ChainTail(procs, latest, t, chain);
      ChainIsAncestors(procs, procs[latest].parentPid, t, chain[1..], fuel - 1);
      AncestorsCons(procs, latest, fuel, chain[1..] + [0]);
      Regroup(chain);
    }
  }

  lemma Regroup(chain: seq<nat>)
    requires chain != []
    ensures [chain[0]] + (chain[1..] + [0]) == chain + [0]
  {
  }

  lemma {:induction false} FewDistinct(chain: seq<nat>, n: nat)
    requires forall i :: 0 <= i < |chain| ==> 0 < chain[i] < n
    requires forall i, j :: 0 <= i < j < |chain| ==> chain[i] != chain[j]
    ensures |chain| < n || chain == []
    decreases n
  {
    if chain != [] {
      assert 0 < chain[0] < n;
      if i :| 0 <= i < |chain| && chain[i] == n - 1 {
        var rest := chain[..i] + chain[i + 1..];
        assert forall j :: 0 <= j < |rest| ==> rest[j] == chain[if j < i then j else j + 1];
        FewDistinct(rest, n - 1);
      } else {
        FewDistinct(chain, n - 1);
      }
    }
  }

  /** In a good state each terminal's parent links lead from its latest process through
      active processes to process 0 in at most five steps; two terminals share process 0
      only; and every active process but 0 is an ancestor, or the latest, of its terminal. */
  lemma TerminalsPartitionProcesses(s: State, t: nat)
    requires Good(s) && t < TERMINALS
    ensures 0 <= s.terms[t].latestPid < SLOTS
    ensures var line := Ancestors(s.procs, s.terms[t].latestPid, SLOTS);
      && 1 <= |line| <= SLOTS && line[|line| - 1] == 0
      && (forall i :: 0 <= i < |line| ==> line[i] < SLOTS && s.procs[line[i]].active && s.procs[line[i]].pid == line[i])
      && (forall p :: 0 < p < SLOTS ==> (p in line <==> s.procs[p].active && s.procs[p].terminal == t))
  {
    var chains, q: nat :| Tree(s, chains) && Memory(s, q);
    var chain, latest := chains[t], s.terms[t].latestPid;
    assert Chain(s.procs, latest, t, chain);
    FewDistinct(chain, SLOTS);
    ChainIsAncestors(s.procs, latest, t, chain, SLOTS);
    var line := chain + [0];
    forall i | 0 <= i < |line|
      ensures line[i] < SLOTS && s.procs[line[i]].active && s.procs[line[i]].pid == line[i]
    {
      if i < |chain| {
        ChainActive(s.procs, latest, t, chain, line[i]);
      }
    }
    forall p | 0 < p < SLOTS
      ensures p in line <==> s.procs[p].active && s.procs[p].terminal == t
    {
      OnLine(s, chains, t, p);
    }
  }

  lemma OnLine(s: State, chains: seq<seq<nat>>, t: nat, p: nat)
    requires Formed(s) && Tree(s, chains) && t < TERMINALS && 0 < p < SLOTS
    ensures p in chains[t] + [0] <==> s.procs[p].active && s.procs[p].terminal == t
  {
    assert Chain(s.procs, s.terms[t].latestPid, t, chains[t]);
    assert SlotOk(s.procs[p], p, chains);
    if p in chains[t] {
      ChainActive(s.procs, s.terms[t].latestPid, t, chains[t], p);
    }
  }

  /** A halt of a process other than 0 always resumes an active parent, and frees exactly one
      slot. */
  lemma HaltResumesParent(s: State)
    requires Good(s) && s.pid != 0
    ensures CanHalt(s)
    ensures var t := Halt(s);
      && s.procs[t.pid].active && t.procs[t.pid].active && t.pid != s.pid
      && (forall p :: 0 <= p < SLOTS ==> (t.procs[p].active <==> s.procs[p].active && p != s.pid))
  {
    var chains, q: nat :| Tree(s, chains) && Memory(s, q);
    HaltFacts(s, chains);
  }

  /** The terminal's line of ancestors, from its latest process down to process 0. */
  function LineOf(s: State, t: nat): seq<nat>
    requires |s.terms| == TERMINALS && t < TERMINALS
  {
    if s.terms[t].latestPid < 0 then [] else Ancestors(s.procs, s.terms[t].latestPid, SLOTS)
  }

  lemma LineIsChain(s: State, chains: seq<seq<nat>>, t: nat)
    requires Formed(s) && Tree(s, chains) && t < TERMINALS
    ensures LineOf(s, t) == chains[t] + [0]
  {
    hide Ancestors;
    assert Chain(s.procs, s.terms[t].latestPid, t, chains[t]);
    FewDistinct(chains[t], SLOTS);
    ChainIsAncestors(s.procs, s.terms[t].latestPid, t, chains[t], SLOTS);
  }

  /** A halt takes the running process off the front of its terminal's line, so the parent
      that goes on is the next one on the same line; the other lines stay as they are. */
  lemma HaltPopsLine(s: State, u: nat)
    requires Good(s) && s.pid != 0 && u < TERMINALS
    ensures CanHalt(s) && Formed(Halt(s))
    ensures u == s.cur ==> LineOf(s, u) == [s.pid] + LineOf(Halt(s), u) && LineOf(Halt(s), u)[0] == Halt(s).pid
    ensures u != s.cur ==> LineOf(s, u) == LineOf(Halt(s), u)
  {
    hide Halt, Chain, SlotOk, LineOf;
    var chains, q: nat :| Tree(s, chains) && Memory(s, q);
    HaltFacts(s, chains);
    HaltTree(s, chains);
    LineIsChain(s, chains, u);
    LineIsChain(Halt(s), chains[s.cur := chains[s.cur][1..]], u);
    if u == s.cur {
      Regroup(chains[u]);
      LineStarts(Halt(s), chains[s.cur := chains[s.cur][1..]]);
    }
  }

  lemma LineStarts(s: State, chains: seq<seq<nat>>)
    requires Formed(s) && Tree(s, chains)
    ensures (chains[s.cur] + [0])[0] == s.pid
  {
    assert Chain(s.procs, s.terms[s.cur].latestPid, s.cur, chains[s.cur]);
  }

  /** A start puts the new process in front of its terminal's line and leaves the others. */
  lemma StartPushesLine(s: State, c: seq<byte>, files: Directory, u: nat)
    requires Good(s) && Fits(Some(c)) && Classify(s, Some(c), files) == Starts && u < TERMINALS
    ensures var t := Execute(s, Some(c), files).0;
      && Formed(t)
      && LineOf(t, u) == if u == s.cur then [FirstInactive(s.procs)] + LineOf(s, u) else LineOf(s, u)
  {
    hide Execute, Chain, SlotOk, LineOf, FirstInactive, Classify, Fits;
    var chains, q: nat :| Tree(s, chains) && Memory(s, q);
    ExecuteTree(s, c, files, chains);
    LineIsChain(s, chains, u);
    LineIsChain(Execute(s, Some(c), files).0, chains[s.cur := [FirstInactive(s.procs)] + chains[s.cur]], u);
    assert [FirstInactive(s.procs)] + chains[u] + [0] == [FirstInactive(s.procs)] + (chains[u] + [0]);
  }

  /** A command that names an executable is refused exactly when all six slots are active. */
  lemma NoSlotIff(s: State, c: seq<byte>, files: Directory)
    requires Formed(s) && NameKey(c) in files && files[NameKey(c)]
    ensures Classify(s, Some(c), files) == (if forall p :: 0 <= p < SLOTS ==> s.procs[p].active then NoSlot else Starts)
  {
  }
}
