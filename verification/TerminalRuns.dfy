/** Terminal switches: what they show, and that a terminal gets its shell once. */
module TerminalRuns {
  import opened Bytes
  import opened CString
  import opened Paging
  import opened Process
  import opened ProcessRuns
  import opened ProcessFacts

  lemma ShellName()
    ensures |Shell()| == 5 && forall i :: 0 <= i < 5 ==> Shell()[i] == "shell"[i] as int
  {
  }

  /** execute leaves the terminals alone, but for the current one's latest process. */
  lemma ExecuteKeepsTerminals(s: State, command: Option<seq<byte>>, files: Directory)
    requires Formed(s) && Fits(command)
    ensures var t := Execute(s, command, files).0;
      && t.cur == s.cur && t.video == s.video && t.cursorX == s.cursorX && t.cursorY == s.cursorY
      && |t.terms| == 3 && t.terms == s.terms[s.cur := s.terms[s.cur].(latestPid := t.terms[s.cur].latestPid)]
  {
    hide NameKey, Tail, TailCount, CopyN, FirstInactive;
    var l := s.terms[s.cur].latestPid;
    assert s.terms[s.cur := s.terms[s.cur].(latestPid := l)] == s.terms;
  }

  // ----- one switch

  /** A terminal that has been shown before, or terminal 0, is shown as it was left: no
      process starts, and nothing but screens and cursors moves. */
  lemma SwitchBack(s: State, to: nat, files: Directory)
    requires Formed(s) && to < 3 && (s.cur == to || to == 0 || s.terms[to].running)
    ensures var t := Switch(s, to, files);
      && t.procs == s.procs && t.esp0 == s.esp0 && t.space == s.space
      && t.cur == to && (s.cur != to ==> t.pid == s.terms[to].latestPid)
      && |t.terms| == 3 && forall u :: 0 <= u < 3 ==>
           t.terms[u].running == s.terms[u].running && t.terms[u].latestPid == s.terms[u].latestPid
  {
  }

  /** The first time, the screen is cleared to light grey spaces, the terminal counts as
      running from then on, and the shell is executed there. */
  lemma FirstVisit(s: State, to: nat, files: Directory)
    requires Formed(s) && 0 < to < 3 && s.cur != to && !s.terms[to].running
    ensures var t, u := Switch(s, to, files), Started(Show(s, to));
      && Formed(u) && Fits(Some(Shell())) && t == Execute(u, Some(Shell()), files).0
      && u.procs == s.procs && u.esp0 == s.esp0 && u.space == s.space && u.cur == to && u.pid == s.terms[to].latestPid
      && (forall i :: 0 <= i < 4000 ==> u.video[i] == if i % 2 == 0 then 32 else 7)
      && |u.terms| == 3 && u.terms[to].running
      && forall v :: 0 <= v < 3 && v != to ==> u.terms[v].running == s.terms[v].running
  {
    hide Execute;
    FitsShell();
    ShowFormed(s, to);
    hide Copied;
    ClearedCells(Show(s, to).video);
  }

  lemma FitsShell()
    ensures Fits(Some(Shell()))
  {
    ShellCommand();
  }

  lemma ShowFormed(s: State, to: nat)
    requires Formed(s) && to < 3
    ensures Formed(Show(s, to)) && Formed(Started(Show(s, to)))
  {
  }

  lemma ClearedCells(video: seq<byte>)
    requires |video| >= 4000
    ensures forall i :: 0 <= i < |video| ==>
      Cleared(video)[i] == if i >= 4000 then video[i] else if i % 2 == 0 then 32 else 7
  {
  }

  /** So the visible screen after a first visit is blank. */
  lemma FirstVisitClears(s: State, to: nat, files: Directory, i: nat)
    requires Formed(s) && 0 < to < 3 && s.cur != to && !s.terms[to].running && i < 4000
    ensures var t := Switch(s, to, files);
      |t.video| > i && t.video[i] == if i % 2 == 0 then 32 else 7
  {
    hide Execute, Switch, Show, Started;
    ShowFormed(s, to);
    FirstVisit(s, to, files);
    ExecuteKeepsTerminals(Started(Show(s, to)), Some(Shell()), files);
  }

  lemma SwitchKeepsForm(s: State, to: nat, files: Directory)
    requires Good(s) && Regular(s, DoSwitch(to, files))
    ensures Formed(Switch(s, to, files))
  {
    SwitchGood(s, to, files);
  }

  /** Every switch leaves the screens and cursors of the other terminals as they were. */
  lemma OtherScreensStay(s: State, to: nat, files: Directory, u: nat, i: nat)
    requires Good(s) && Regular(s, DoSwitch(to, files)) && s.cur != to && u < 3 && u != to && i < SCREEN_BYTES
    ensures Formed(Switch(s, to, files))
    ensures ScreenByte(Switch(s, to, files), u, i) == ScreenByte(s, u, i)
    ensures CursorOf(Switch(s, to, files), u) == CursorOf(s, u)
  {
    SwitchKeepsForm(s, to, files);
    ShowKeepsScreens(s, to, u, i);
    hide Good, Execute, Copied, Cleared;
    if StartsShell(s, to) {
      ShowFormed(s, to);
      StartedScreens(Show(s, to), u, i);
      FitsShell();
      ExecuteKeepsTerminals(Started(Show(s, to)), Some(Shell()), files);
    }
  }

  lemma StartedScreens(s: State, u: nat, i: nat)
    requires Formed(s) && u < 3 && u != s.cur && i < SCREEN_BYTES
    ensures Formed(Started(s))
    ensures ScreenByte(Started(s), u, i) == ScreenByte(s, u, i) && CursorOf(Started(s), u) == CursorOf(s, u)
  {
  }

  // ----- over runs

  /** A switch to a terminal other than 0 makes it count as running. */
  lemma SwitchMarks(s: State, to: nat, files: Directory)
    requires Formed(s) && 0 < to < 3 && s.cur != to
    ensures |Switch(s, to, files).terms| == 3 && Switch(s, to, files).terms[to].running
  {
    hide Execute, Started, Show, Switch;
    if s.terms[to].running {
      SwitchBack(s, to, files);
    } else {
      ShowFormed(s, to);
      FirstVisit(s, to, files);
      ExecuteKeepsTerminals(Started(Show(s, to)), Some(Shell()), files);
    }
  }

  /** Nothing makes a terminal count as not running again. */
  lemma RunningKept(s: State, e: Event, u: nat)
    requires Good(s) && Regular(s, e) && u < 3 && s.terms[u].running
    ensures Good(Next(s, e)) && Next(s, e).terms[u].running
  {
    hide Good, Execute, Halt, Switch;
    NextGood(s, e);
    SlotInRange(s, u);
    match e
    case DoExecute(command, files) => ExecuteKeepsTerminals(s, command, files);
    case DoHalt =>
      HaltFromGood(s);
      HaltKeepsRunning(s, u);
    case DoVidmap(_) =>
    case DoSwitch(to, files) => SwitchKeepsRunning(s, to, files, u);
  }

  lemma HaltKeepsRunning(s: State, u: nat)
    requires CanHalt(s) && u < 3
    ensures |Halt(s).terms| == 3 && Halt(s).terms[u].running == s.terms[u].running
  {
  }

  lemma SwitchKeepsRunning(s: State, to: nat, files: Directory, u: nat)
    requires Formed(s) && to < 3 && u < 3 && s.terms[u].running
    ensures |Switch(s, to, files).terms| == 3 && Switch(s, to, files).terms[u].running
  {
    hide Execute, Started, Show, Switch;
    if s.cur != to && to != 0 && !s.terms[to].running {
      ShowFormed(s, to);
      FirstVisit(s, to, files);
      ExecuteKeepsTerminals(Started(Show(s, to)), Some(Shell()), files);
    } else {
      SwitchBack(s, to, files);
    }
  }

  lemma {:induction false} RunningKeptInRun(s: State, es: seq<Event>, u: nat)
    requires Good(s) && RegularRun(s, es) && u < 3 && s.terms[u].running
    ensures Good(Run(s, es)) && Run(s, es).terms[u].running
    decreases |es|
  {
    hide Good, Next;
    RunGood(s, es);
    if es != [] {
      NextGood(s, es[0]);
      RunningKept(s, es[0], u);
      RunningKeptInRun(Next(s, es[0]), es[1..], u);
    }
  }

  /** A terminal that was switched to once is only shown ever after. */
  lemma LaterSwitchesShow(s: State, to: nat, files: Directory, es: seq<Event>, again: Directory)
    requires Good(s) && 0 < to < 3 && s.cur != to && Regular(s, DoSwitch(to, files))
    requires Good(Switch(s, to, files)) && RegularRun(Switch(s, to, files), es)
    ensures var u := Run(Switch(s, to, files), es);
      && Good(u)
      && Switch(u, to, again).procs == u.procs && Switch(u, to, again).esp0 == u.esp0
      && Switch(u, to, again).space == u.space
  {
    hide Good, Switch, Run, RegularRun, Execute;
    SlotInRange(s, to);
    SwitchMarks(s, to, files);
    RunningKeptInRun(Switch(s, to, files), es, to);
    var u := Run(Switch(s, to, files), es);
    SlotInRange(u, to);
    SwitchBack(u, to, again);
  }

  /** How many switches to terminal t change the processes in a run. */
  ghost function ShellsStarted(s: State, es: seq<Event>, t: nat): nat
    requires Good(s) && RegularRun(s, es)
    decreases |es|
  {
    if es == [] then 0
    else
      NextGood(s, es[0]);
      (if es[0].DoSwitch? && es[0].to == t && Next(s, es[0]).procs != s.procs then 1 else 0)
      + ShellsStarted(Next(s, es[0]), es[1..], t)
  }

  /** Switching to a terminal starts at most one shell there in any run, and none when the
      terminal is 0 or has been shown before. */
  lemma {:induction false} OneShellEach(s: State, es: seq<Event>, t: nat)
    requires Good(s) && RegularRun(s, es) && t < 3
    ensures ShellsStarted(s, es, t) <= if t == 0 || s.terms[t].running then 0 else 1
    decreases |es|
  {
    hide Good, Next, Regular;
    if es != [] {
      var e := es[0];
      NextGood(s, e);
      OneShellEach(Next(s, e), es[1..], t);
      SlotInRange(s, t);
      SwitchOnce(s, e, t);
    }
  }

  lemma SwitchOnce(s: State, e: Event, t: nat)
    requires Good(s) && Regular(s, e) && t < 3
    ensures Good(Next(s, e))
    ensures t == 0 || s.terms[t].running ==>
      (t == 0 || Next(s, e).terms[t].running) && (e.DoSwitch? && e.to == t ==> Next(s, e).procs == s.procs)
    ensures e.DoSwitch? && e.to == t && Next(s, e).procs != s.procs ==> Next(s, e).terms[t].running
  {
    NextGood(s, e);
    SlotInRange(s, t);
    hide Good;
    if s.terms[t].running {
      RunningKept(s, e, t);
    }
    if e.DoSwitch? && e.to == t {
      if s.cur == t || t == 0 || s.terms[t].running {
        SwitchBack(s, t, e.files);
      } else {
        SwitchMarks(s, t, e.files);
      }
    }
  }
}
