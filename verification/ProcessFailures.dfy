/** Reachable states in which the system calls do not do what they are for: the failing
    halves of the conditions in ProcessFacts, from power-on. */
module ProcessFailures {
  import opened Bytes
  import opened CString
  import opened Paging
  import opened Process
  import opened ProcessRuns
  import opened ProcessFacts

  ghost predicate Ready(s: State, files: Directory) {
    PowerOn(s) && Shell() in files && files[Shell()]
  }

  /** The machine after the first shell. */
  ghost function Booted(s: State, files: Directory): (t: State)
    requires Ready(s, files)
    ensures Formed(t) && Good(t)
  {
    BootGood(s, files);
    Execute(s, Some(Shell()), files).0
  }

  lemma FirstOfAll(procs: seq<Pcb>)
    requires |procs| == SLOTS && !procs[0].active
    ensures FirstInactive(procs) == 0
  {
  }

  lemma SecondOfAll(procs: seq<Pcb>)
    requires |procs| == SLOTS && procs[0].active && !procs[1].active
    ensures FirstInactive(procs) == 1
  {
    assert procs[1..][0] == procs[1];
  }

  lemma BootedSlots(s: State, files: Directory)
    requires Ready(s, files)
    ensures var t := Booted(s, files);
      && t.cur == 0 && t.pid == 0 && FirstInactive(t.procs) == 1
      && (forall u :: 0 <= u < TERMINALS ==> !t.terms[u].running && t.terms[u].latestPid == 0)
  {
    hide NameLength, Spaces, NameKey, Tail, TailCount, Shell, SetProgramPage, StackTop;
    hide Tree, Good, Guarded, FirstInactive;
    BootTree(s, files);
    FirstOfAll(s.procs);
    ExecuteShape(s, Shell(), files);
    SecondOfAll(Booted(s, files).procs);
  }

  lemma BootedMemory(s: State, files: Directory)
    requires Ready(s, files)
    ensures Memory(Booted(s, files), 0)
  {
    hide Execute, NameLength, Spaces, Tree, Guarded, SetProgramPage, NameKey, TailCount, Good;
    BootTree(s, files);
    LaunchMemory(s.space, None, 0);
  }

  // ----- a file that is no executable

  /** "x" */
  function X(): seq<byte> { [120] }

  lemma XNotExecutable(t: State, files: Directory)
    requires Formed(t) && FirstInactive(t.procs) == 1 && X() in files && !files[X()]
    ensures Fits(Some(X())) && Classify(t, Some(X()), files) == NotExecutable
  {
    hide FirstInactive, NameKey, TailCount;
    XIsName();
  }

  lemma XIsName()
    ensures NameKey(X()) == X() && TailCount(X()) == 0
  {
    NoSpace(X());
  }

  /** Started as a program it leaves the process tree broken. */
  lemma NotExecutableBreaksTree(s: State, files: Directory)
    requires Ready(s, files) && X() in files && !files[X()]
    ensures Fits(Some(X())) && Good(Booted(s, files)) && !Good(Execute(Booted(s, files), Some(X()), files).0)
  {
    hide Good, Booted, FirstInactive, Ready, Execute, Classify;
    BootedSlots(s, files);
    XNotExecutable(Booted(s, files), files);
    ExecuteKeepsTreeIff(Booted(s, files), Some(X()), files);
  }

  // ----- a second shell

  /** The machine after a switch to terminal 1, which starts a shell there. */
  ghost function TwoShells(s: State, files: Directory): (v: State)
    requires Ready(s, files)
    ensures Formed(v)
  {
    BootedSlots(s, files);
    ShellStarts(Booted(s, files), files);
    SwitchGood(Booted(s, files), 1, files);
    Switch(Booted(s, files), 1, files)
  }

  lemma ShellStarts(t: State, files: Directory)
    requires FirstInactive(t.procs) < |t.procs| && Shell() in files && files[Shell()]
    ensures Executable(t, Some(Shell()), files) && Classify(t, Some(Shell()), files) == Starts
  {
    ShellCommand();
  }

  lemma ShownSlots(t: State)
    requires Formed(t) && t.cur == 0 && Good(t)
    ensures Formed(Show(t, 1))
    ensures var u := Started(Show(t, 1));
      Formed(u) && Good(u) && u.procs == t.procs && u.space == t.space && u.esp0 == t.esp0 && u.cur == 1
    ensures Started(Show(t, 1)).terms[0].latestPid == t.terms[0].latestPid
  {
    ShowGood(t, 1);
  }

  lemma SecondShell(s: State, files: Directory)
    requires Ready(s, files)
    ensures var v := TwoShells(s, files);
      Good(v) && Memory(v, 1) && v.pid == 1 && v.cur == 1 && v.terms[0].latestPid == 0
      && v == Switch(Booted(s, files), 1, files)
  {
    hide Good, Memory, Booted, Show, Started, Execute, Shell, FirstInactive, Classify, Fits, Ready, CopyN;
    var t := Booted(s, files);
    BootedSlots(s, files);
    BootedMemory(s, files);
    ShownSlots(t);
    var u := Started(Show(t, 1));
    ShellThere(s, files);
    ShellStarts(t, files);
    ShellStarts(u, files);
    SecondStart(t, u, files);
    SwitchGood(t, 1, files);
  }

  lemma ShellThere(s: State, files: Directory)
    requires Ready(s, files)
    ensures Shell() in files && files[Shell()]
  {
  }

  lemma SecondStart(t: State, u: State, files: Directory)
    requires Formed(t) && Memory(t, 0) && Formed(u) && Good(u)
    requires u.procs == t.procs && u.space == t.space && u.esp0 == t.esp0 && u.cur == 1
    requires FirstInactive(u.procs) == 1 && u.terms[0].latestPid == 0
    requires Executable(u, Some(Shell()), files) && Classify(u, Some(Shell()), files) == Starts
    ensures var v := Execute(u, Some(Shell()), files).0;
      Formed(v) && Memory(v, 1) && v.pid == 1 && v.cur == 1 && v.terms[0].latestPid == 0
  {
    hide Shell, FirstInactive, Classify, Execute, CopyN, Guarded;
    PidInRange(u);
    ExecuteShape(u, Shell(), files);
    ExecuteMemory(u, Shell(), files, 0);
  }

  /** Going back to terminal 0 leaves the second shell's page mapped for the first shell. */
  lemma SwitchBackMismatches(s: State, files: Directory)
    requires Ready(s, files)
    ensures var v := TwoShells(s, files);
      Good(v) && PageMatches(v) && !PageMatches(Switch(v, 0, files))
  {
    hide Good, Booted, Memory, Execute, Switch, PageMatches, TwoShells, Ready;
    SecondShell(s, files);
    MatchesOwn(TwoShells(s, files), 1);
    SwitchMatchesIff(TwoShells(s, files), 0, files, 1);
  }

  /** A halt on terminal 1 leaves the screen mapped for the process that goes on. */
  lemma HaltLeavesScreen(s: State, files: Directory)
    requires Ready(s, files)
    ensures var v := Vidmap(TwoShells(s, files), 0x800_0000);
      Formed(v) && Good(v) && v.pid != 0 && CanHalt(v)
    ensures var t := Halt(Vidmap(TwoShells(s, files), 0x800_0000));
      Formed(t) && Walk(t.space, 0x840_0000, true, false).Some?
  {
    hide Good, Memory, TwoShells, Ready, Guarded, Walk, Halt;
    SecondShell(s, files);
    var w, v := TwoShells(s, files), Vidmap(TwoShells(s, files), 0x800_0000);
    VidmapGood(w, 0x800_0000);
    VidmapMemory(w, 0x800_0000, 1);
    HaltGood(v);
    HaltUnmapsScreenIff(v, 1);
  }
}
