/** paging.c and the 32-bit page walk of the Intel SDM, volume 3A, section 4.3. */
module Paging {
  import opened Bytes

  const ENTRIES: nat := 1024
  const PAGE: nat := 0x1000
  const LARGE_PAGE: nat := 0x40_0000
  const PROGRAM_ENTRY: nat := 32
  const VIDEO_ENTRY: nat := 33
  const VIDEO_FRAME: nat := 0xB8

  type frame = x: int | 0 <= x < 0x10_0000

  /** A page-directory entry: the flags that take part in a walk, and bits 12 to 31. */
  datatype DirEntry = DirEntry(p: bool, rw: bool, us: bool, ps: bool, g: bool, high: frame)

  /** A page-table entry. */
  datatype PageEntry = PageEntry(p: bool, rw: bool, us: bool, base: frame)

  /** The `mb` view of an entry with pat and res 0: p_base is bits 22 to 31. */
  function Large(p: bool, rw: bool, us: bool, g: bool, base: nat): DirEntry {
    DirEntry(p, rw, us, true, g, base % 0x400 * 0x400)
  }

  /** The `kb` view: p_base is bits 12 to 31. */
  function Table(p: bool, rw: bool, us: bool, base: frame): DirEntry {
    DirEntry(p, rw, us, false, false, base)
  }

  /** The directory, the two page tables, and the frames the two tables lie in. */
  datatype Space = Space(dir: seq<DirEntry>, first: seq<PageEntry>, video: seq<PageEntry>,
                         firstFrame: frame, videoFrame: frame)

  predicate WellFormed(s: Space) {
    |s.dir| == ENTRIES && |s.first| == ENTRIES && |s.video| == ENTRIES && s.firstFrame != s.videoFrame
  }

  predicate Allows(us: bool, rw: bool, user: bool, write: bool) {
    user ==> us && (write ==> rw)
  }

  /** Where an access ends up, or nothing when it faults. Supervisor writes ignore rw,
      since CR0.WP is clear; CR4.PSE is set, so ps selects a 4 MB page. */
  function Walk(s: Space, va: uint32, user: bool, write: bool): Option<uint32>
    requires WellFormed(s)
  {
    var e := s.dir[va / LARGE_PAGE];
    if !e.p || !Allows(e.us, e.rw, user, write) then None
    else if e.ps then
      // bits 13 to 21 of a 4 MB entry are reserved
      if e.high % 0x400 > 1 then None else Some(e.high / 0x400 * LARGE_PAGE + va % LARGE_PAGE)
    else if e.high != s.firstFrame && e.high != s.videoFrame then None
    else
      var t := (if e.high == s.firstFrame then s.first else s.video)[va / PAGE % ENTRIES];
      if !t.p || !Allows(t.us, t.rw, user, write) then None else Some(t.base * PAGE + va % PAGE)
  }

  function InitialDir(i: nat, firstFrame: frame, videoFrame: frame): DirEntry
    requires i < ENTRIES
  {
    if i == 0 then Table(true, true, false, firstFrame)
    else if i == 1 then Large(true, true, false, true, 1)
    else if i == VIDEO_ENTRY then Table(true, true, true, videoFrame)
    else Large(false, true, false, false, i)
  }

  function InitialFirst(i: nat): PageEntry
    requires i < ENTRIES
  {
    PageEntry(VIDEO_FRAME <= i <= VIDEO_FRAME + 3, true, false, i)
  }

  function InitialVideo(i: nat): PageEntry
    requires i < ENTRIES
  {
    PageEntry(i == VIDEO_FRAME, true, false, i)
  }

  /** init_paging: the first 4 MB through a table that maps the four text screens for the
      kernel, the kernel's own 4 MB page, and the table behind the user's video page. */
  method InitPaging(dir: array<DirEntry>, first: array<PageEntry>, video: array<PageEntry>,
                    firstFrame: frame, videoFrame: frame)
    requires dir.Length == first.Length == video.Length == ENTRIES && first != video
    modifies dir, first, video
    ensures forall i :: 0 <= i < ENTRIES ==> dir[i] == InitialDir(i, firstFrame, videoFrame)
    ensures forall i :: 0 <= i < ENTRIES ==> first[i] == InitialFirst(i)
    ensures forall i :: 0 <= i < ENTRIES ==> video[i] == InitialVideo(i)
  {
    for i := 2 to ENTRIES
      invariant forall j :: 2 <= j < i ==> dir[j] == Large(false, true, false, false, j)
    {
      dir[i] := Large(false, true, false, false, i);
    }
    dir[1] := Large(true, true, false, true, 1);
    for i := 0 to ENTRIES
      invariant dir[1] == Large(true, true, false, true, 1)
      invariant forall j :: 2 <= j < ENTRIES ==> dir[j] == Large(false, true, false, false, j)
      invariant forall j :: 0 <= j < i ==> first[j] == InitialFirst(j) && video[j] == InitialVideo(j)
    {
      first[i] := PageEntry(first[i].p, true, false, i);
      video[i] := PageEntry(video[i].p, true, false, i);
      if i == VIDEO_FRAME {
        first[i] := first[i].(p := true);
        video[i] := video[i].(p := true);
      } else {
        first[i] := first[i].(p := false);
        video[i] := video[i].(p := false);
      }
      if i == 0xB9 {
        first[i] := first[i].(p := true);
      }
      if i == 0xBA {
        first[i] := first[i].(p := true);
      }
      if i == 0xBB {
        first[i] := first[i].(p := true);
      }
    }
    dir[0] := Table(true, true, false, firstFrame);
    dir[VIDEO_ENTRY] := Table(true, true, true, videoFrame);
  }

  // ----- what user mode can reach

  /** The 4 MB frame of a process: 8 MB + 4 MB * q. */
  function ProgramPage(q: nat): DirEntry {
    Large(true, true, true, false, 2 + q)
  }

  /** The directory and tables that every run keeps. The program page is the one of
      process q, or absent before the first program; the user's video page is mapped to
      the text screen or not at all. */
  ghost predicate Guarded(s: Space, q: Option<nat>) {
    && WellFormed(s)
    && s.dir[0] == Table(true, true, false, s.firstFrame)
    && s.dir[1] == Large(true, true, false, true, 1)
    && s.dir[VIDEO_ENTRY] == Table(true, true, true, s.videoFrame)
    && (match q case None => !s.dir[PROGRAM_ENTRY].p case Some(q) => q < 6 && s.dir[PROGRAM_ENTRY] == ProgramPage(q))
    && (forall i :: 2 <= i < ENTRIES && i != PROGRAM_ENTRY && i != VIDEO_ENTRY ==> !s.dir[i].p)
    && (forall i :: 0 <= i < ENTRIES ==> s.first[i] == InitialFirst(i))
    && (forall i :: 0 <= i < ENTRIES && s.video[i].p ==> s.video[i].base == VIDEO_FRAME && (s.video[i].us ==> i == 0))
  }

  /** The tables init_paging leaves keep user mode out of everything. */
  lemma InitialGuarded(s: Space)
    requires WellFormed(s)
    requires forall i :: 0 <= i < ENTRIES ==> s.dir[i] == InitialDir(i, s.firstFrame, s.videoFrame)
    requires forall i :: 0 <= i < ENTRIES ==> s.first[i] == InitialFirst(i) && s.video[i] == InitialVideo(i)
    ensures Guarded(s, None)
  {
  }

  /** A user access ends in the program page of q, at the same offset, or in the text
      screen; anything else faults. */
  lemma UserReach(s: Space, q: Option<nat>, va: uint32, write: bool)
    requires Guarded(s, q)
    ensures Walk(s, va, true, write) ==
      if va / LARGE_PAGE == PROGRAM_ENTRY && q.Some? then Some(0x80_0000 + LARGE_PAGE * q.value + va % LARGE_PAGE)
      else if va / PAGE == VIDEO_ENTRY * ENTRIES && s.video[0].p && s.video[0].us && (write ==> s.video[0].rw)
        then Some(VIDEO_FRAME * PAGE + va % PAGE)
      else None
  {
    var i := va / LARGE_PAGE;
    SplitAddress(va);
    if i == PROGRAM_ENTRY && q.Some? {
      assert s.dir[i].high == (2 + q.value) * 0x400;
    }
  }

  lemma SplitAddress(va: uint32)
    ensures va / LARGE_PAGE < ENTRIES
    ensures va / PAGE == va / LARGE_PAGE * ENTRIES + va / PAGE % ENTRIES
  {
  }

  /** So user mode never reaches the kernel's 4 MB page, and of the first 4 MB only the
      text screen. */
  lemma UserNeverReachesKernel(s: Space, q: Option<nat>, va: uint32, write: bool)
    requires Guarded(s, q)
    ensures var pa := Walk(s, va, true, write);
      pa.Some? && pa.value / PAGE != VIDEO_FRAME ==>
        q.Some? && 0x80_0000 <= pa.value < 0x200_0000 && pa.value / LARGE_PAGE == 2 + q.value
  {
    UserReach(s, q, va, write);
  }

  /** The kernel reaches the four text screens and its own 4 MB at the same addresses, and
      nothing else below 128 MB. */
  lemma KernelReach(s: Space, q: Option<nat>, va: uint32, write: bool)
    requires Guarded(s, q) && va < 0x800_0000
    ensures Walk(s, va, false, write) ==
      if 0xB8000 <= va < 0xBC000 || 0x40_0000 <= va < 0x80_0000 then Some(va) else None
  {
    SplitAddress(va);
    assert va / PAGE % ENTRIES * PAGE + va % PAGE == va % LARGE_PAGE;
    if va < 0x40_0000 {
      assert va / LARGE_PAGE == 0 && s.first[va / PAGE] == InitialFirst(va / PAGE);
    } else if va < 0x80_0000 {
      assert va / LARGE_PAGE == 1;
    }
  }

  /** The tables after init_paging, entry by entry. */
  lemma InitialEntries(s: Space, i: nat)
    requires WellFormed(s) && i < 1024
    requires s.dir[i] == InitialDir(i, s.firstFrame, s.videoFrame)
    requires s.first[i] == InitialFirst(i) && s.video[i] == InitialVideo(i)
    ensures i == 0 ==> s.dir[i] == DirEntry(true, true, false, false, false, s.firstFrame)
    ensures i == 1 ==> s.dir[i] == DirEntry(true, true, false, true, true, 1024)
    ensures i == 33 ==> s.dir[i] == DirEntry(true, true, true, false, false, s.videoFrame)
    ensures i > 1 && i != 33 ==> s.dir[i] == DirEntry(false, true, false, true, false, 1024 * i)
    ensures s.first[i] == PageEntry(0xB8 <= i <= 0xBB, true, false, i)
    ensures s.video[i] == PageEntry(i == 0xB8, true, false, i)
  {
  }
}
