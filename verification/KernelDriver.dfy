/** syscall_functions.c and scheduling.c in place: the kernel's globals, and the system
    calls that update them. */
module KernelDriver {
  import opened Bytes
  import opened CString
  import opened Paging
  import opened Process
  import R = ProcessRuns

  class Kernel {
    const processes: array<Pcb>
    const terminals: array<Terminal>
    const pageDir: array<DirEntry>
    const firstTable: array<PageEntry>
    const videoTable: array<PageEntry>
    const video: array<byte>
    const firstFrame: frame
    const videoFrame: frame
    var pid: int
    var curTerminal: nat
    var esp0: uint32
    var screenX: uint16
    var screenY: uint16

    ghost predicate Separate() {
      firstTable != videoTable && firstFrame != videoFrame
    }

    function View(): State
      reads this, processes, terminals, pageDir, firstTable, videoTable, video
    {
      State(pid, curTerminal, processes[..], terminals[..], esp0,
            Space(pageDir[..], firstTable[..], videoTable[..], firstFrame, videoFrame), video[..], screenX, screenY)
    }

    ghost predicate Valid()
      reads this, processes, terminals, pageDir, firstTable, videoTable, video
    {
      Separate() && Formed(View())
    }

    /** Zeroed globals and init_paging. */
    constructor (firstFrame: frame, videoFrame: frame)
      requires firstFrame != videoFrame
      ensures Valid() && PowerOn(View())
    {
      hide Guarded, InitialDir, InitialFirst, InitialVideo, Zeros;
      processes := new Pcb[SLOTS](_ => Pcb(0, 0, false, 0, 0, Zeros(ARGS_SIZE)));
      terminals := new Terminal[TERMINALS](_ => Terminal(0, 0, false, 0));
      pageDir := new DirEntry[ENTRIES](_ => DirEntry(false, false, false, false, false, 0));
      firstTable := new PageEntry[ENTRIES](_ => PageEntry(false, false, false, 0));
      videoTable := new PageEntry[ENTRIES](_ => PageEntry(false, false, false, 0));
      video := new byte[SCREEN_BYTES * (1 + TERMINALS)](_ => 0);
      this.firstFrame, this.videoFrame := firstFrame, videoFrame;
      pid, curTerminal, esp0, screenX, screenY := -1, 0, 0x80_0000, 0, 0;
      new;
      InitPaging(pageDir, firstTable, videoTable, firstFrame, videoFrame);
      InitialGuarded(View().space);
      assert Formed(View());
    }

    // one entry of a table

    method SetProcess(p: nat, pcb: Pcb)
      requires p < processes.Length
      modifies processes
      ensures View() == old(View()).(procs := old(View()).procs[p := pcb])
    {
      processes[p] := pcb;
    }

    method SetTerminal(t: nat, terminal: Terminal)
      requires t < terminals.Length
      modifies terminals
      ensures View() == old(View()).(terms := old(View()).terms[t := terminal])
    {
      terminals[t] := terminal;
    }

    method SetDirectory(i: nat, entry: DirEntry)
      requires i < pageDir.Length
      modifies pageDir
      ensures View() == old(View()).(space := old(View()).space.(dir := old(View()).space.dir[i := entry]))
    {
      pageDir[i] := entry;
    }

    method SetVideo(i: nat, entry: PageEntry)
      requires i < videoTable.Length && firstTable != videoTable
      modifies videoTable
      ensures View() == old(View()).(space := old(View()).space.(video := old(View()).space.video[i := entry]))
    {
      videoTable[i] := entry;
    }

    /** The name scan: the length, and the count that is kept in a byte. */
    method ScanName(c: seq<byte>) returns (end: nat, size: byte)
      ensures end == NameLength(c) && size == NameLength(c) % 0x100
    {
      end, size := 0, 0;
      while end < |c| && c[end] != SPACE
        invariant end <= |c| && SPACE !in c[..end] && size == end % 0x100
      {
        end, size := end + 1, (size + 1) % 0x100;
      }
      NameLengthIs(c, end);
    }

    method SkipSpaces(c: seq<byte>, at: nat) returns (spaces: nat)
      requires at <= |c|
      ensures spaces == Spaces(c, at)
    {
      spaces := 0;
      while at + spaces < |c| && c[at + spaces] == SPACE
        invariant at + spaces <= |c| && Spaces(c, at) == spaces + Spaces(c, at + spaces)
      {
        spaces := spaces + 1;
      }
    }

    /** The first slot that is not active, six when there is none. */
    method FindSlot() returns (i: nat)
      requires processes.Length == SLOTS
      ensures i == FirstInactive(processes[..])
    {
      i := 0;
      while i < SLOTS && processes[i].active
        invariant i <= SLOTS && forall j :: 0 <= j < i ==> processes[j].active
      {
        i := i + 1;
      }
      FirstInactiveIs(processes[..], i);
    }

    /** execute, up to the jump to user mode. */
    method Execute(command: Option<seq<byte>>, files: Directory) returns (outcome: Outcome)
      requires Valid() && Fits(command)
      modifies this, processes, terminals, pageDir
      ensures Valid() && (View(), outcome) == Process.Execute(old(View()), command, files)
    {
      hide TakeSlot, Launch, NameLength, Spaces, FirstInactive;
      if command.None? {
        return Returns(-1);
      }
      var c := command.value;
      var end, size := ScanName(c);
      var name := Prefix32(c[..size]);
      if name !in files {
        return Returns(-1);
      }
      var spaces := SkipSpaces(c, end);
      var slot := FindSlot();
      if slot == SLOTS {
        return Returns(0);
      }
      var oldPid := pid;
      StoreArgs(slot, c, end, size, spaces);
      if !files[name] {
        return Returns(-1);
      }
      Start(oldPid);
      return EntersUser;
    }

    /** The slot becomes pid, and the command's tail its arguments. */
    method StoreArgs(slot: nat, c: seq<byte>, end: nat, size: byte, spaces: nat)
      requires Valid() && slot == FirstInactive(processes[..]) < SLOTS && Fits(Some(c))
      requires end == NameLength(c) && size == end % 0x100 && spaces == Spaces(c, end)
      modifies this`pid, processes
      ensures Valid() && View() == TakeSlot(old(View()), c) && pid == slot
    {
      hide NameLength, Spaces, CopyN, FirstInactive;
      pid := slot;
      SetProcess(pid, processes[pid].(args := CopyN(processes[pid].args, c[end + spaces..], |c| - size - spaces)));
    }

    /** The second half of execute: the slot in pid becomes a child of oldPid. */
    method Start(oldPid: int)
      requires Valid() && 0 <= pid < SLOTS
      modifies this`esp0, processes, terminals, pageDir
      ensures Valid() && View() == Launch(old(View()), oldPid)
    {
      hide StackTop, SetProgramPage;
      Enlist();
      Activate(oldPid);
      esp0 := StackTop(pid);
    }

    /** The process is the current terminal's latest, and its page is mapped. */
    method Enlist()
      requires Valid() && 0 <= pid < SLOTS
      modifies processes, terminals, pageDir
      ensures Valid()
      ensures var s := old(View());
        View() == s.(procs := s.procs[s.pid := s.procs[s.pid].(terminal := s.cur)],
                     terms := s.terms[s.cur := s.terms[s.cur].(latestPid := s.pid)],
                     space := SetProgramPage(s.space, s.pid))
    {
      hide Large;
      SetProcess(pid, processes[pid].(terminal := curTerminal));
      SetTerminal(curTerminal, terminals[curTerminal].(latestPid := pid));
      SetDirectory(PROGRAM_ENTRY, Large(true, true, true, false, (0x80_0000 + 0x40_0000 * pid) / 0x40_0000));
    }

    /** The process record of a child of oldPid. */
    method Activate(oldPid: int)
      requires Valid() && 0 <= pid < SLOTS
      modifies processes
      ensures Valid()
      ensures var s := old(View());
        View() == s.(procs := s.procs[s.pid := s.procs[s.pid].(pid := s.pid, parentPid := oldPid % 0x1_0000_0000,
                                                               active := true, esp0 := StackTop(s.pid))])
    {
      hide StackTop;
      SetProcess(pid, processes[pid].(pid := pid, parentPid := oldPid % 0x1_0000_0000));
      SetProcess(pid, processes[pid].(active := true));
      SetProcess(pid, processes[pid].(esp0 := StackTop(pid)));
    }

    /** halt of a process other than the first shell, up to the return to its parent. */
    method Halt()
      requires Valid() && CanHalt(View())
      modifies this, processes, terminals, pageDir, videoTable
      ensures Valid() && View() == Process.Halt(old(View()))
    {
      hide StackTop, Large, Table;
      StopProcess();
      terminals[curTerminal] := terminals[curTerminal].(latestPid := pid);
      esp0 := StackTop(pid);
      UnmapProcess();
      SetProcess(pid, processes[pid].(active := true));
    }

    /** The slot in pid is cleared, and its parent becomes pid. */
    method StopProcess()
      requires Valid() && 0 <= pid < SLOTS
      modifies this`pid, processes
      ensures Valid()
      ensures var s := old(View());
        View() == s.(procs := s.procs[s.pid := s.procs[s.pid].(active := false, args := Zeros(ARGS_SIZE))],
                     pid := s.procs[s.pid].parentPid)
    {
      SetProcess(pid, processes[pid].(active := false));
      SetProcess(pid, processes[pid].(args := Zeros(ARGS_SIZE)));
      pid := processes[pid].parentPid;
    }

    /** The page of pid is mapped, the first 4 MB again, and the terminal's video entry cleared. */
    method UnmapProcess()
      requires Valid() && 0 <= pid < SLOTS
      modifies pageDir, videoTable
      ensures Valid()
      ensures var s := old(View());
        var mapped := SetProgramPage(s.space, s.pid);
        View() == s.(space := mapped.(
          dir := mapped.dir[0 := Table(true, true, false, firstFrame)],
          video := mapped.video[s.cur := PageEntry(false, true, true, VIDEO_FRAME + s.cur * 0x1000)]))
    {
      hide Large, Table;
      SetDirectory(PROGRAM_ENTRY, DirEntry(false, false, false, false, false, 0));
      SetDirectory(PROGRAM_ENTRY, Large(true, true, true, false, (0x80_0000 + 0x40_0000 * pid) / 0x40_0000));
      SetDirectory(0, Table(true, true, false, firstFrame));
      SetVideo(curTerminal, PageEntry(false, true, true, VIDEO_FRAME + curTerminal * 0x1000));
    }

    /** memcpy between two screens that do not overlap. */
    method CopyScreen(to: nat, from: nat)
      requires to + SCREEN_BYTES <= from <= video.Length - SCREEN_BYTES ||
        from + SCREEN_BYTES <= to <= video.Length - SCREEN_BYTES
      modifies video
      ensures video[..] == Copied(old(video[..]), to, from)
    {
      hide Copied;
      ghost var was := video[..];
      var i := 0;
      while i < SCREEN_BYTES
        invariant 0 <= i <= SCREEN_BYTES
        invariant forall k :: 0 <= k < video.Length ==>
          video[k] == if to <= k < to + i then old(video[from + (k - to)]) else old(video[k])
      {
        video[to + i] := video[from + i];
        i := i + 1;
      }
      forall k | 0 <= k < video.Length
        ensures video[k] == Copied(was, to, from)[k]
      {
        CopiedAt(was, to, from, k);
      }
    }

    method Clear()
      requires video.Length >= 4000
      modifies video
      ensures video[..] == Cleared(old(video[..]))
    {
      var i := 0;
      while i < 2000
        invariant 0 <= i <= 2000
        invariant forall k :: 0 <= k < video.Length ==>
          video[k] == if k < 2 * i then (if k % 2 == 0 then SPACE else 7) else old(video[k])
      {
        video[2 * i] := SPACE;
        video[2 * i + 1] := 7;
        i := i + 1;
      }
    }

    method SaveScreen()
      requires Valid()
      modifies terminals, video
      ensures Valid()
      ensures var s := old(View());
        View() == s.(terms := s.terms[s.cur := s.terms[s.cur].(cursorX := s.cursorX, cursorY := s.cursorY)],
                     video := Copied(s.video, ScreenAt(s.cur), 0))
    {
      hide Copied;
      SetTerminal(curTerminal, terminals[curTerminal].(cursorX := screenX, cursorY := screenY));
      CopyScreen(ScreenAt(curTerminal), 0);
    }

    /** Saves one terminal's screen and cursor and brings back another's. */
    method ShowTerminal(to: nat)
      requires Valid() && to < TERMINALS && curTerminal != to
      modifies this, terminals, video
      ensures Valid() && View() == Show(old(View()), to)
    {
      hide Copied;
      SaveScreen();
      curTerminal := to;
      pid := terminals[to].latestPid;
      CopyScreen(0, ScreenAt(to));
      screenX, screenY := terminals[to].cursorX, terminals[to].cursorY;
    }

    method StartTerminal()
      requires Valid()
      modifies terminals, video
      ensures Valid() && View() == Started(old(View()))
    {
      Clear();
      terminals[curTerminal] := terminals[curTerminal].(running := true);
    }

    /** switch_terminal */
    method Switch(to: nat, files: Directory)
      requires Valid() && to < TERMINALS
      modifies this, processes, terminals, pageDir, video
      ensures Valid() && View() == Process.Switch(old(View()), to, files)
    {
      if curTerminal == to {
        return;
      }
      ghost var was := View();
      ShowTerminal(to);
      if !terminals[to].running && to != 0 {
        StartTerminal();
        ShellFits();
        hide Show, Started, Process.Execute;
        var outcome := Execute(Some(Shell()), files);
      }
    }

    /** vidmap. The pointer that is stored through the argument is 132 MB. */
    method Vidmap(screenStart: uint32) returns (r: int, stored: Option<uint32>)
      requires Valid()
      modifies videoTable
      ensures Valid() && View() == Process.Vidmap(old(View()), screenStart)
      ensures if 0x800_0000 <= screenStart <= 0x840_0000 then r == 0 && stored == Some(0x840_0000)
              else r == -1 && stored == None && View() == old(View())
    {
      if screenStart == 0 {
        return -1, None;
      }
      if screenStart < 0x800_0000 || screenStart > 0x800_0000 + 0x40_0000 {
        return -1, None;
      }
      videoTable[0] := PageEntry(true, true, true, VIDEO_FRAME);
      return 0, Some(0x840_0000);
    }

    /** getargs copies a zero-terminated argument string. */
    method Getargs(buf: array<byte>, nbytes: nat) returns (r: int)
      requires Valid() && 0 <= pid < SLOTS && nbytes <= buf.Length && buf != video
      requires Terminated(processes[pid].args, 0)
      modifies buf
      ensures Valid() && View() == old(View()) && r == 0
      ensures buf[..] == Process.Getargs(View(), old(buf[..]), nbytes)
    {
      Strncpy(buf, processes[pid].args, 0, nbytes);
      return 0;
    }
  }

  // ----- whole runs

  method PerformOne(k: Kernel, e: R.Event)
    requires k.Valid() && R.Good(k.View()) && R.Regular(k.View(), e)
    modifies k, k.processes, k.terminals, k.pageDir, k.videoTable, k.video
    ensures k.Valid() && k.View() == R.Next(old(k.View()), e)
  {
    hide R.Good, Process.Execute, Process.Halt, Process.Switch, Process.Vidmap, Classify, TailCount;
    match e
    case DoExecute(command, files) =>
      var outcome := k.Execute(command, files);
    case DoHalt =>
      R.HaltFromGood(k.View());
      k.Halt();
    case DoSwitch(to, files) =>
      k.Switch(to, files);
    case DoVidmap(screenStart) =>
      var r, stored := k.Vidmap(screenStart);
  }

  /** A sequence of system calls on the kernel's globals is the run of the same events on
      values, so what holds over runs holds of the kernel. */
  method Perform(k: Kernel, es: seq<R.Event>)
    requires k.Valid() && R.Good(k.View()) && R.RegularRun(k.View(), es)
    modifies k, k.processes, k.terminals, k.pageDir, k.videoTable, k.video
    ensures k.Valid() && R.Good(k.View()) && k.View() == R.Run(old(k.View()), es)
  {
    hide R.Good, R.Next, R.Regular, Process.Execute;
    for i := 0 to |es|
      invariant k.Valid() && R.Good(k.View()) && R.RegularRun(k.View(), es[i..])
      invariant R.Run(k.View(), es[i..]) == R.Run(old(k.View()), es)
    {
      assert es[i..][0] == es[i] && es[i..][1..] == es[i + 1..];
      R.NextGood(k.View(), es[i]);
      PerformOne(k, es[i]);
    }
  }

  /** From power-on the first shell makes a kernel that Perform takes through any run. */
  method FirstShell(k: Kernel, files: Directory)
    requires k.Valid() && PowerOn(k.View()) && Shell() in files && files[Shell()]
    modifies k, k.processes, k.terminals, k.pageDir
    ensures k.Valid() && R.Good(k.View()) && k.View() == Process.Execute(old(k.View()), Some(Shell()), files).0
  {
    hide Process.Execute, Shell, R.Good, NameKey, TailCount, PowerOn;
    R.BootGood(k.View(), files);
    var outcome := k.Execute(Some(Shell()), files);
  }

  lemma {:induction false} NameLengthIs(c: seq<byte>, n: nat)
    requires n <= |c| && SPACE !in c[..n] && (n < |c| ==> c[n] == SPACE)
    ensures NameLength(c) == n
  {
    var m := NameLength(c);
    assert forall i :: 0 <= i < n ==> c[i] == c[..n][i] && c[i] != SPACE;
    assert forall i :: 0 <= i < m ==> c[i] == c[..m][i] && c[i] != SPACE;
  }

  lemma {:induction false} FirstInactiveIs(procs: seq<Pcb>, i: nat)
    requires i <= |procs| && (i < |procs| ==> !procs[i].active) && forall j :: 0 <= j < i ==> procs[j].active
    ensures FirstInactive(procs) == i
  {
  }

  lemma ShellFits()
    ensures Fits(Some(Shell()))
  {
  }
}
