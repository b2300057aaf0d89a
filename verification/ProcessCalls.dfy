/** What each system call answers and changes, in the terms of its caller. */
module ProcessCalls {
  import opened Bytes
  import opened CString
  import opened Paging
  import opened Process

  // ----- execute

  /** The name of a command: up to its first space, and its length in a byte. */
  lemma NameOfCommand(c: seq<byte>)
    ensures var n := NameLength(c);
      && (forall i :: 0 <= i < n ==> c[i] != 32) && (n < |c| ==> c[n] == 32)
      && (n <= 32 ==> NameKey(c) == c[..n])
      && (32 < n < 256 ==> NameKey(c) == c[..32])
      && |NameKey(c)| == Min(n % 256, 32) && NameKey(c) <= c
  {
    var n := NameLength(c);
    assert forall i :: 0 <= i < n ==> c[i] == c[..n][i];
  }

  /** What execute answers: -1 without a command, for a name that is no file, and for a file
      that is no executable while a slot is free; 0 when the file exists and all six slots
      are taken; otherwise the program starts. */
  lemma ExecuteAnswers(s: State, command: Option<seq<byte>>, files: Directory)
    requires Formed(s) && Fits(command)
    ensures var o := Execute(s, command, files).1;
      var known := command.Some? && NameKey(command.value) in files;
      var full := forall p :: 0 <= p < 6 ==> s.procs[p].active;
      && (o == Returns(-1) <==> !known || (!full && !files[NameKey(command.value)]))
      && (o == Returns(0) <==> known && full)
      && (o == EntersUser <==> known && !full && files[NameKey(command.value)])
  {
    hide NameKey, Tail, TailCount, CopyN, Launch, TakeSlot;
  }

  /** A refused command changes nothing, unless a slot was taken for it before its file was
      looked at. Then pid names that slot, and the slot holds the command's tail. */
  lemma RefusedExecute(s: State, command: Option<seq<byte>>, files: Directory)
    requires Formed(s) && Fits(command)
    ensures var t := Execute(s, command, files).0;
      var known := command.Some? && NameKey(command.value) in files;
      var full := forall p :: 0 <= p < 6 ==> s.procs[p].active;
      && (!known || full ==> t == s)
      && (known && !full && !files[NameKey(command.value)] ==>
            var c, i := command.value, t.pid;
            && 0 <= i < 6 && !s.procs[i].active && (forall p :: 0 <= p < i ==> s.procs[p].active)
            && t == s.(pid := i, procs :=
                 s.procs[i := s.procs[i].(args := CopyN(s.procs[i].args, Tail(c), TailCount(c)))]))
  {
    hide NameKey, Tail, TailCount, CopyN, Launch;
  }

  /** The whole state after a start: the first free slot becomes a child of the running
      process on the current terminal, with its arguments, its stack and its page. */
  lemma StartedProgram(s: State, c: seq<byte>, files: Directory)
    requires Formed(s) && Fits(Some(c)) && Execute(s, Some(c), files).1 == EntersUser && -1 <= s.pid < 6
    ensures var t := Execute(s, Some(c), files).0;
      var i := t.pid;
      && 0 <= i < 6 && !s.procs[i].active && (forall p :: 0 <= p < i ==> s.procs[p].active)
      && t.procs == s.procs[i := Pcb(i, if s.pid == -1 then 0xFFFF_FFFF else s.pid, true,
                                     0x80_0000 - 0x2000 * i - 4, s.cur,
                                     CopyN(s.procs[i].args, Tail(c), TailCount(c)))]
      && t.terms == s.terms[s.cur := s.terms[s.cur].(latestPid := i)]
      && t.esp0 == 0x80_0000 - 0x2000 * i - 4
      && t.space == s.space.(dir := s.space.dir[32 := DirEntry(true, true, true, true, false, (2 + i) * 1024)])
      && t.cur == s.cur && t.video == s.video && t.cursorX == s.cursorX && t.cursorY == s.cursorY
  {
    hide NameKey, Tail, TailCount, CopyN;
  }

  // ----- halt

  /** The whole state after a halt. */
  lemma HaltedProgram(s: State)
    requires CanHalt(s) && s.procs[s.pid].parentPid != s.pid
    ensures var t, parent := Halt(s), s.procs[s.pid].parentPid;
      && t.pid == parent && t.cur == s.cur && t.esp0 == 0x80_0000 - 0x2000 * parent - 4
      && t.procs == s.procs[s.pid := s.procs[s.pid].(active := false, args := Zeros(4096))]
                           [parent := s.procs[parent].(active := true)]
      && t.terms == s.terms[s.cur := s.terms[s.cur].(latestPid := parent)]
      && t.space.dir == s.space.dir[32 := DirEntry(true, true, true, true, false, (2 + parent) * 1024)]
                                   [0 := DirEntry(true, true, false, false, false, s.space.firstFrame)]
      && t.space.video == s.space.video[s.cur := PageEntry(false, true, true, 0xB8 + s.cur * 0x1000)]
      && t.space.first == s.space.first
      && t.video == s.video && t.cursorX == s.cursorX && t.cursorY == s.cursorY
  {
  }

  // ----- vidmap

  /** vidmap accepts the pointers from 128 MB to 132 MB inclusive. It then maps the first
      video page to the text screen; a refused one changes nothing. */
  lemma VidmapMaps(s: State, screenStart: uint32)
    requires Formed(s)
    ensures var t := Vidmap(s, screenStart);
      if 0x800_0000 <= screenStart <= 0x840_0000
      then t == s.(space := s.space.(video := s.space.video[0 := PageEntry(true, true, true, 0xB8)]))
      else t == s
  {
  }

  // ----- memory

  /** A user address in the program's 4 MB is at the same offset in the process's page. */
  lemma ProgramAddress(s: State, q: nat, va: uint32, write: bool)
    requires Formed(s) && Guarded(s.space, Some(q)) && 0x800_0000 <= va < 0x840_0000
    ensures Walk(s.space, va, true, write) == Some(0x80_0000 + 0x40_0000 * q + (va - 0x800_0000))
  {
    UserReach(s.space, Some(q), va, write);
  }
}
