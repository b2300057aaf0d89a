# A verified model of the kernel's hard parts

The repository is a small teaching kernel for 32-bit x86 with its user programs. This project models
six of its parts in Dafny and proves what they promise:

* **`ece391grep.c`** searches a file through a 1024-byte buffer that is refilled, split at newlines in
  place and shifted down (`Grep.dfy`, on `CString.dfy` and `Text.dfy`). It equals a plain line search
  under an exact condition.
* **`blink.S` with the slot pool of `fish.c`**: a linked list through a fixed array of 2000 nodes, with
  16-bit countdowns and the text screen (`Blink.dfy` for the commands on values, `BlinkDriver.dfy` for
  the nodes in place, `BlinkRuns.dfy` for whole runs). `Fish.dfy` is the reader of two text frames,
  `FishScreen.dfy` what those frames look like while the list ticks.
* **System calls and terminals** (`Process.dfy` on values, `KernelDriver.dfy` in place, `ProcessRuns.dfy`
  for the invariant of every run, `ProcessFacts.dfy` for what else the calls promise,
  `ProcessFailures.dfy` for reachable states where they do not keep it, `ProcessCalls.dfy` for what
  each call answers and changes, `TerminalRuns.dfy` for terminal switches over runs).
* **Paging** (`Paging.dfy`): the tables, the page walk of the Intel SDM, volume 3A, section 4.3, and what
  user mode can reach.
* **File reads** through an inode's block list (`FileSystem.dfy`).
* **Strings, numbers, memory and arguments**: `Digits.dfy`, `Printf.dfy`, `Memory.dfy`, `Arguments.dfy`.

Code that works in place is a class or a method over arrays. Each such method is tied to a function on
values by its `ensures`, and the properties are lemmas about those functions. A method is split where the
source has a loop or a labelled phase. `hide` statements only keep the solver away from definitions a
proof does not need. `BlinkDriver.Perform` and `KernelDriver.Perform` join the classes to the runs.

## Where the code differs from what it is for

The code was kept as it is. The exact condition under which it does what it is for was proved, and for
the failures that depend on a state an input that reaches one:

* grep cuts a line of more than 1024 bytes, and takes the byte behind a full buffer for a newline when the
  stack happens to hold one there (`Grep.GrepIsLineSearch`, `Grep.StaleNewlineLosesALine`).
* A blinking character's lengths 0 and 32769..65535 act as 1 (`BlinkRuns.TimerExact`).
* Sync always draws the off character: `cmovl` never moves after `testb` (`BlinkRuns.SyncAgreesIff`,
  `BlinkRuns.SyncSpoilsScreen`).
* An add at location 0 is accepted and its slot is handed out twice (`BlinkDriver.Driver.Add`,
  `BlinkDriver.AddAtZeroMakesACycle`).
* A file that gets a process slot and is no executable leaves its slot number in `pid`
  (`ProcessFacts.ExecuteKeepsTreeIff`, `ProcessFailures.NotExecutableBreaksTree`).
* A terminal switch does not map the page of the process it makes current
  (`ProcessFacts.SwitchMatchesIff`, `ProcessFailures.SwitchBackMismatches`).
* Halt clears the video entry of the current terminal, vidmap always sets the first one
  (`ProcessFacts.HaltUnmapsScreenIff`, `ProcessFailures.HaltLeavesScreen`).
* vidmap's bound lets in pointers whose four bytes leave the program page (`ProcessFacts.VidmapStoreIff`).
* `filesystem_read` does not stop at the end of the file (`FileSystem.ReadClipsIff`).
* The tokenizer ends a command at a newline only where a word would start
  (`Arguments.TokensAreWords`), and the joiner writes one byte past its buffer exactly when a word ends
  there (`Arguments.Getargs`).

## Model

| member | source | states |
|---|---|---|
| CString.Strlen | ece391support.c:6-12 | the number of characters before the first NUL |
| CString.Strcpy | ece391support.c:14-17 | the target holds the source string and its NUL, every other byte is as before, also when both lie in one array and the copy moves down |
| CString.Strncmp | ece391support.c:35-46 | zero exactly when the two strings agree on their first n characters, negative exactly when the first comes before the second there |
| CString.Strncpy | lib.c:576-587 | n bytes: at most n characters of the string, then zeros; bytes behind them unchanged |
| Grep.SearchLine | ece391grep.c:42-51 | true exactly when the line holds the pattern somewhere |
| Grep.ScanLine | ece391grep.c:30-32 | stops at the first newline at or behind the start of the line, or at the end of the bytes read |
| Grep.ShiftDown | ece391grep.c:33-39 | the pending partial line is at the front, without a newline, and nothing else is pending |
| Grep.SearchAndPut | ece391grep.c:40-51 | one line is reported if and only if it holds the pattern, and what is due from the rest of the file is unchanged |
| Grep.Consume | ece391grep.c:28-57 | every complete line of the buffer is dealt with once; what stays pending is the file's partial line; there is room for the next read; and no newline is left anywhere in the buffer unless one lay behind the bytes read |
| Grep.Round | ece391grep.c:22-59 | a read returns 0 only at the end of the file, output so far plus output still due stays the same, and no newline is left behind |
| Grep.ScanFile | ece391grep.c:20-60 | terminates, with exactly the output that was due, and a buffer without newlines ends without newlines |
| Grep.DoOneFile | ece391grep.c:9-66 | for a file without NUL: the file name, a colon, the line and a newline for every line that holds the pattern, in order and once, if and only if each of those lines fits the buffer and none is cut by a stale newline; otherwise the same for the pieces; the error message and -1 when the file cannot be opened |
| Grep.CutKeepsMatchesIff | ece391grep.c:33-39 | cutting a file in two keeps its matching lines exactly when the cut is at a line's end or in a line that does not match |
| Grep.GrepIsLineSearch | ece391grep.c:9-66 | the output is every line that holds the pattern, in order and once, if and only if each of them has at most 1024 bytes and none is cut by a stale newline |
| Text.LinesJoin | ece391grep.c:31 | a file is its lines joined by newlines |
| Text.LinesHoldNone | ece391grep.c:31 | no line holds a newline |
| Grep.StaleNewlineLosesALine | ece391grep.c:13-33 | a file with a matching line of 1024 bytes that is not reported when the byte behind the buffer was a newline |
| BlinkDriver.Driver.constructor | fish.c:21-28 | 2000 free slots, an empty list |
| BlinkDriver.Driver.Malloc | fish.c:160-170 | the first slot whose location is 0; none exactly when every slot has another location |
| BlinkDriver.Driver.Free | fish.c:172-175 | every field of the slot is zero |
| BlinkDriver.Driver.AddAnywhere | blink.S:105-184 | for any location: refused when it is off the screen or no slot is free, else the first free slot is the new list head and drawn as on |
| BlinkDriver.Driver.Add | blink.S:105-184 | the list stays a list of distinct slots with exactly the other slots free if and only if the add fails or its location is not 0; it then gains the node at its front |
| BlinkDriver.Driver.FindHelper | blink.S:351-378 | the first listed node at the location, or none |
| BlinkDriver.Driver.Find | blink.S:302-349 | a copy of the first node at the location, -1 when there is none |
| BlinkDriver.Driver.Remove | blink.S:187-237 | the first node with that location is off the list and its slot is free again, the others stay in order; -1 and no change when there is none |
| BlinkDriver.Driver.TickNode | blink.S:64-86 | one countdown step of one node, with its character when it runs out |
| BlinkDriver.Driver.Tick | blink.S:49-99 | each listed node steps exactly once, from the head on, and the screen is drawn in that order |
| BlinkDriver.Driver.Sync | blink.S:240-298 | the second node takes over lengths, countdown and status of the first; its off character is drawn; -1 when one is missing |
| BlinkDriver.FullMeansLong | fish.c:160-170 | no slot is free exactly when 2000 nodes are listed |
| BlinkDriver.AddAtZeroMakesACycle | blink.S:131-162 | an add at location 0 followed by any other add makes the list head its own successor |
| BlinkDriver.Perform | blink.S:49-298 | any sequence of commands and ticks on the nodes gives what the same run on values gives |
| BlinkRuns.AddPutsInFront | blink.S:131-170 | an add refuses locations from 2000 on and a full pool; else the node is in front, in its on phase, and one character is drawn |
| BlinkRuns.RemoveTakesFirst | blink.S:195-223 | a remove takes exactly the first node at the location, keeps the order of the others, and leaves the screen alone |
| BlinkRuns.RemovedStaysOff | blink.S:187-237 | with distinct locations a removed location stays off the list through every run until an add names it |
| BlinkRuns.SyncCopiesTiming | blink.S:248-285 | a sync changes the timing of the second node and its character cell, nothing else; without both nodes nothing |
| BlinkRuns.LastDraws | blink.S:60-90 | with several nodes on a cell the last of the list that runs out decides what a tick draws |
| BlinkRuns.OthersStay | blink.S:60-90 | a tick leaves every byte of the screen alone that no node draws |
| BlinkRuns.TimerClosedForm | blink.S:64-86 | k ticks after its add a node is at k modulo the period, with the countdown in closed form |
| BlinkRuns.TimerExact | blink.S:64-86 | a node is on for on_length ticks and off for off_length ticks forever, if and only if both lengths are in 1..32768 |
| BlinkRuns.NodeRun | blink.S:49-99 | a node that is neither removed nor synced takes exactly one timer step for each tick of any run |
| BlinkRuns.AddedNodeFollowsTimer | blink.S:49-99 | from its add on until it is removed or synced, a node is where the closed form says, whatever else is on its location |
| BlinkRuns.SyncedStayInStep | blink.S:248-275 | after a successful sync the two nodes have equal lengths, countdown and status at every later point until one of them is removed or synced again |
| BlinkRuns.ScreenAgreesInRun | blink.S:49-99 | in every run of adds on free cells, removes, finds, ticks and syncs that show nothing new, each listed node has a cell of its own that shows its character |
| BlinkRuns.CellFollowsTimer | blink.S:49-99 | so the cell of a node that is spared shows on_char for the first part of each period and off_char for the rest |
| BlinkRuns.SyncAgreesIff | blink.S:277-285 | sync keeps the screen right exactly when it fails, the first node is off, or the second looks the same on and off |
| BlinkRuns.SyncSpoilsScreen | blink.S:277-285 | two adds and a sync after which a node is on and its cell shows the off character |
| BlinkRuns.RoomForEveryCell | blink.S:131-145 | with distinct locations other than 0 at most 1999 nodes are listed, so an add fails only for its location, whatever the screen shows |
| BlinkRuns.CellsInRun | blink.S:105-298 | adds that name an unlisted location other than 0 keep locations distinct through every run, syncs of every kind included |
| BlinkRuns.RoomInEveryRun | blink.S:131-145 | so in every such run from an empty list an add fails exactly for a location off the screen |
| Fish.Next | fish.c:94-100 | reads the next character of the line; the end of the file ends the line |
| Fish.AddRow | fish.c:89-123 | reads one line of each file to its end and asks for that row's cells in column order |
| Fish.AddFrames | fish.c:78-148 | terminates, and the requests are those of the two files' lines, as many rows as the longer file has lines |
| FishScreen.FrameAsked | fish.c:89-141 | a request is made exactly for the columns within the two lines that are not blank in both, at 80 * row + column + 40, with 15 ticks on and off |
| FishScreen.FrameAscending | fish.c:89-141 | for frames whose cells all fit the screen the requests come in ascending order of location, all on the screen and none at 0 |
| FishScreen.AddsAll | blink.S:105-184 | requests in ascending order all find a slot, and the list holds them all |
| FishScreen.FramesAlternate | fish.c:78-148 | k ticks later every cell of the picture shows the first frame's character if k modulo 30 is below 15, else the second's; blank cells are left alone |
| Paging.InitPaging | paging.c:10-118 | the whole contents of the directory and both tables |
| Paging.InitialGuarded | paging.c:10-118 | those tables satisfy the invariant that every run keeps |
| Paging.UserReach | paging.c:12-116 | exactly where a user access ends up: the program page, the text screen, or a fault |
| Paging.UserNeverReachesKernel | paging.c:29-41 | whatever a user access reaches outside the text screen is in the program page between 8 and 32 MB |
| Paging.KernelReach | paging.c:29-102 | below 128 MB the kernel reaches the four text screens and its own 4 MB, at the same addresses, and nothing else |
| Paging.InitialEntries | paging.c:10-118 | every entry of the three tables in numbers |
| KernelDriver.Kernel.constructor | paging.c:10-118 | zeroed globals and the initial tables are the power-on state |
| KernelDriver.Kernel.ScanName | syscall_functions.c:174-177 | the length of the name, and its count modulo 256 |
| KernelDriver.Kernel.FindSlot | syscall_functions.c:208-214 | the first slot that is not active, six when there is none |
| KernelDriver.Kernel.StoreArgs | syscall_functions.c:205-222 | the slot becomes pid and receives the copied tail; nothing else changes |
| KernelDriver.Kernel.Start | syscall_functions.c:240-309 | the slot becomes an active child on the current terminal, with its page and kernel stack |
| KernelDriver.Kernel.Execute | syscall_functions.c:141-309 | the new state and the result are the specification's, in each of the five cases |
| KernelDriver.Kernel.Halt | syscall_functions.c:36-119 | the new state is the specification's: slot freed, parent resumed with its page and stack |
| KernelDriver.Kernel.ShowTerminal | scheduling.c:19-53 | screen and cursor of one terminal are saved and the other's brought back |
| KernelDriver.Kernel.Switch | scheduling.c:14-62 | the new state is the specification's, with a shell on first use |
| KernelDriver.Kernel.Vidmap | syscall_functions.c:511-531 | 0 exactly for pointers from 128 MB to 132 MB inclusive; then the screen is mapped and 132 MB stored; -1 and no change otherwise |
| KernelDriver.Kernel.Getargs | syscall_functions.c:499-504 | the buffer receives the argument string, zero padded or cut off |
| KernelDriver.FirstShell | syscall_functions.c:141-309 | from power-on the first shell brings the kernel into the invariant |
| KernelDriver.Perform | syscall_functions.c:21-531 | any regular sequence of calls on the kernel's globals gives what the run on values gives, and keeps the invariant |
| ProcessRuns.NextGood | syscall_functions.c:141-309 | each call keeps the process tree, the tables, and page and kernel stack of one and the same process |
| ProcessRuns.RunGood | syscall_functions.c:21-309 | and so does every run of execute, halt, switch and vidmap |
| ProcessRuns.BootGood | syscall_functions.c:141-309 | the first shell started from power-on establishes all that |
| ProcessRuns.TerminalsPartitionProcesses | syscall_functions.c:240-306 | each terminal's parent links lead through active processes to process 0 in at most five steps, and the active processes other than 0 are exactly divided among the terminals' chains |
| ProcessRuns.HaltResumesParent | syscall_functions.c:36-119 | a halt of a process other than 0 resumes an active parent and frees exactly its own slot |
| ProcessRuns.HaltPopsLine | syscall_functions.c:42-43 | the parent that goes on is the next one on the same terminal's line of ancestors; the other lines stay |
| ProcessRuns.StartPushesLine | syscall_functions.c:240-306 | a start puts the new process in front of its terminal's line; the other lines stay |
| ProcessRuns.NoSlotIff | syscall_functions.c:207-219 | an executable is refused for lack of a slot exactly when all six are active |
| ProcessCalls.NameOfCommand | syscall_functions.c:174-187 | the name ends at the first space; up to 32 characters it is looked up whole, up to 255 by its first 32 |
| ProcessCalls.ExecuteAnswers | syscall_functions.c:145-231 | -1 exactly for no command, an unknown name, or a file without ELF header while a slot is free; 0 exactly for a known file with all six slots active; else the program starts |
| ProcessCalls.RefusedExecute | syscall_functions.c:145-231 | a refused command changes nothing, except that without ELF header the first free slot is in pid and holds the arguments |
| ProcessCalls.StartedProgram | syscall_functions.c:207-309 | the whole state after a start, in numbers |
| ProcessCalls.HaltedProgram | syscall_functions.c:36-119 | the whole state after a halt, in numbers |
| ProcessCalls.VidmapMaps | syscall_functions.c:511-531 | what an accepted pointer maps; a refused one changes nothing |
| ProcessCalls.ProgramAddress | syscall_functions.c:263-275 | user addresses from 128 MB to 132 MB are those of 8 MB + 4 MB * process |
| TerminalRuns.SwitchBack | scheduling.c:14-62 | a switch to terminal 0 or one shown before starts nothing and changes no process, page or stack |
| TerminalRuns.FirstVisit | scheduling.c:55-58 | the first switch to another terminal clears it, marks it as running, and executes the shell there |
| TerminalRuns.FirstVisitClears | scheduling.c:56 | the 2000 cells then hold 32 and 7 |
| TerminalRuns.OtherScreensStay | scheduling.c:19-58 | every switch leaves the screens and cursors of the other terminals as they were |
| TerminalRuns.RunningKeptInRun | scheduling.c:55-58 | a terminal once running stays so through every run |
| TerminalRuns.LaterSwitchesShow | scheduling.c:55-58 | after a first switch to a terminal, in every run, later switches to it change no process, page or stack |
| TerminalRuns.OneShellEach | scheduling.c:55-58 | in every run switching to a terminal starts at most one shell there, none on terminal 0 |
| ProcessFacts.ExecuteKeepsTreeIff | syscall_functions.c:224-231 | execute keeps the process tree exactly when no file without ELF header reached slot allocation |
| ProcessFacts.StartAndHaltMatch | syscall_functions.c:48-77 | after every start and every halt the program page is 8 MB + 4 MB * pid and the kernel stack is pid's |
| ProcessFacts.SwitchMatchesIff | scheduling.c:14-62 | with the page of process q mapped, page and stack match pid after a switch exactly when a shell was started or q is the latest process of the terminal shown |
| ProcessFacts.StacksDisjoint | syscall_functions.c:308 | the 8 KB stacks of different processes are disjoint and lie in the kernel's page |
| ProcessFacts.RunConfinesUser | paging.c:12-116 | after every run there is one process to whose 4 MB page and the text screen all user accesses are confined, and esp0 is that process's |
| ProcessFacts.VidmapStoreIff | syscall_functions.c:516-519 | all four bytes of the store through an accepted pointer go to the program page exactly when it is at most 132 MB - 4 |
| ProcessFacts.VidmapReaches | syscall_functions.c:521-531 | after vidmap the 4 KB at 132 MB are the text screen, for reading and writing |
| ProcessFacts.HaltUnmapsScreenIff | syscall_functions.c:92-102 | a halt takes the screen from user mode exactly on terminal 0 |
| ProcessFacts.ShowKeepsScreens | scheduling.c:19-53 | a switch changes no terminal's screen contents and cursor |
| ProcessFacts.CommandParts | syscall_functions.c:174-203 | a command is a name without spaces, spaces, and a tail that does not start with one |
| ProcessFacts.TailCountExact | syscall_functions.c:222 | for a name under 256 characters exactly the tail is copied |
| ProcessFacts.StartStoresTail | syscall_functions.c:222 | a started process has its command's tail and zeros as arguments, with nothing of an earlier process in the slot |
| ProcessFacts.ArgsKept | syscall_functions.c:38 | only its own halt changes the arguments of an active process |
| ProcessFacts.ArgsKeptInRun | syscall_functions.c:38 | and so through every run |
| ProcessFacts.GetargsGivesTail | syscall_functions.c:499-504 | any number of system calls later getargs gives exactly the tail of the command that started the process, zero padded or cut off |
| ProcessFailures.NotExecutableBreaksTree | syscall_functions.c:224-231 | after the first shell a file that is no executable breaks the process tree |
| ProcessFailures.SwitchBackMismatches | scheduling.c:40-53 | two shells and a switch back leave the wrong page mapped |
| ProcessFailures.HaltLeavesScreen | syscall_functions.c:92-102 | a halt on terminal 1 leaves the screen mapped for user mode |
| FileSystem.ReadData | filesystem.c:82-158 | the buffer receives the flat file's bytes from the offset on, across blocks, the bytes behind stay, and the length is returned; -1 and no change for a bad inode or an offset behind the last block |
| FileSystem.OpenFile.Read | filesystem.c:280-305 | the bytes at the position, which advances by the count; 0 from the end of the file on |
| FileSystem.FlatAt | filesystem.c:95-99 | byte k of the flat file is byte k mod 4096 of the block that entry k / 4096 names |
| FileSystem.ReadClipsIff | filesystem.c:288-293 | a read returns what is left of the file exactly when it does not pass its end |
| FileSystem.PositionIsSum | filesystem.c:288-293 | before a read returns 0 the position is the sum of the counts, the read that passes the end included; no read has returned 0 exactly while the counts before the last one are below the length |
| FileSystem.ZeroAtEndIff | filesystem.c:288-290 | the next read returns 0 exactly when the counts have reached the length |
| FileSystem.OutputIsFile | filesystem.c:280-305 | a run of reads gives the flat file up to the position reached, without gap or repetition |
| FileSystem.WholeFileIsRead | filesystem.c:280-305 | a run that reaches the end starts with the whole file |
| Digits.Itoa | lib.c:311-341 | writes the numeral, most significant digit first, and a NUL; nothing else changes |
| Digits.GlyphTable | lib.c:312 | digit d is the d-th character of 0123456789ABCDEFGHIJKLMNOPQRSTUVWXYZ |
| Digits.PutDigits | lib.c:329-337 | the digit loop leaves the digits, lowest first, and a NUL |
| Digits.Strrev | lib.c:347-360 | the string reversed in place, nothing else changed |
| Digits.ReadBack | lib.c:311-341 | reading a numeral back gives the number, in every radix from 2 to 36 |
| Digits.NumeralIsCanonical | ece391support.c:57-80 | only digits of the radix, and no leading zero except for 0 itself |
| Digits.CanonicalIsNumeral | ece391support.c:57-80 | each canonical digit string is the numeral of its value, so numerals are unique |
| Digits.WordLength | lib.c:311-341 | a 32-bit number has at most 32 digits |
| Printf.Puts | lib.c:157-163 | the characters before the NUL go out in order |
| Printf.PrintPadded | lib.c:85-94 | %#x prints the digits with zeros in front up to eight |
| Printf.PrintSigned | lib.c:110-124 | %d prints a minus sign and the magnitude for negative words |
| Printf.Printf | lib.c:44-151 | the output is the rendering of the typed format, as many arguments are used as it has conversions, and the result is the format's length |
| Printf.OneConversion | lib.c:60-140 | with any number of # flags, x, u, d, c and s use one argument, %% prints a percent sign and uses none, and any other character prints nothing |
| Printf.UnsignedPrints | lib.c:100-107 | %u prints decimal digits, without leading zero but for 0, that read back as the word |
| Printf.HexPrints | lib.c:78-84 | %x prints hexadecimal digits, without leading zero or padding, that read back as the word |
| Printf.PaddedPrints | lib.c:84-96 | %#x prints eight hexadecimal digits that read back as the word |
| Printf.SignedPrints | lib.c:110-122 | %d prints a minus sign exactly for negative words, then decimal digits that read back as the magnitude |
| Printf.OthersPrint | lib.c:64-136 | %c prints the low byte, %s the string, %% one percent sign |
| Printf.PaddedHexReadsBack | lib.c:85-94 | %#x always gives eight digits that read back as the word |
| Printf.SignedReadsBack | lib.c:110-124 | %d reads back as the signed value for every word, the least one included |
| Printf.RenderedConcat | lib.c:53-149 | a format in two parts prints the first with its arguments and then the second with the rest |
| Printf.PlainText | lib.c:144-147 | text without percent signs prints as it is |
| Memory.Memset | lib.c:379-414 | n bytes become the value's low byte for every alignment; nothing else changes |
| Memory.Memcpy | lib.c:462-500 | for every alignment n bytes are copied between stretches that are disjoint or copied downwards; nothing else changes |
| Memory.Memmove | lib.c:508-528 | the target becomes what the source was for every overlap; nothing else changes |
| Arguments.Tokenize | ece391emulate.c:76-100 | refused above 1023 characters; else argv holds pointers to exactly the words, each closed off by a NUL in the buffer, then NULL, at most 512 of them |
| Arguments.TokensAreWords | ece391emulate.c:76-98 | for every command: the name is what precedes the first blank, prefixed with ./, and the arguments are the non-empty pieces up to the first newline that stands where a word would start |
| Arguments.OneLineCommand | ece391emulate.c:76-98 | without newlines the arguments are all non-empty pieces behind the first |
| Arguments.NewlineAtEnd | ece391emulate.c:88-91 | a newline at the end of a one-line command changes nothing |
| Arguments.NewlineBehindWord | ece391emulate.c:95-97 | a newline directly behind a word does not end the command |
| Arguments.NewlineBehindBlank | ece391emulate.c:88-91 | one behind a blank does |
| Arguments.TokensOfJoin | ece391emulate.c:76-98 | tokenizing a name and its arguments joined by spaces gives them back |
| Arguments.Getargs | ece391emulate.c:132-157 | 0 exactly when the joined arguments and their NUL fit, and then exactly that string; past nbytes a NUL is written exactly when a word ends there, and nothing else |
| Arguments.JoinAppend | ece391emulate.c:138-153 | the joined string gains one space and the word for each further word |
| Arguments.EndsAtIs | ece391emulate.c:140-150 | a word ends n bytes in exactly when the first few words, joined, have n bytes |
| Arguments.HandedOver | ece391emulate.c:76-102 | for every command the argv made of it is one that getargs joins to the words behind the first |
| Arguments.JoinedHandedOver | ece391emulate.c:76-102 | a program and its arguments joined by spaces arrive as those arguments |
| Arguments.ExecuteThenGetargs | ece391emulate.c:76-157 | from command to getargs: for every command of at most 1023 characters the words behind the first, joined by single spaces, arrive exactly when they and a NUL fit |

## Left out

- Grep.DoOneFile: says nothing about the output for a file with NUL bytes, whose lines are cut off when printed, and has no read or close errors; reads are those of a regular file and return as many bytes as are left.
- KernelDriver.Kernel.Execute: has no file descriptors, no program loading and no message when no slot is free; the arguments must not go past the slot's 4096 bytes, which the source does not look at; the file name and the ELF check are a map from names to a flag; process records are replaced as values in their array.
- KernelDriver.Kernel.Halt: a halt of process 0 is not modelled; it starts another shell inside the halt and goes on with parent -1 if that returns.
- KernelDriver.Kernel.Getargs: needs the stored arguments to be terminated, and a count that is not negative.
- ProcessFacts.GetargsGivesTail: a tail of exactly 4096 characters is left out, since its copy has no terminator.
- KernelDriver.Kernel.Vidmap: the pointer that is stored is a result; user memory is not part of the model.
- KernelDriver.Kernel.constructor: the hardware set-up around it is not modelled.
- FileSystem.ReadData: the blocks that are read must exist, and a read that ends at a block's edge needs one more entry in the inode; positions do not wrap around at 4 GB.
- Memory.Memcpy: a target that starts inside the source is excluded, as for the C function of that name.
- Memory.Memmove: the direction flag stays set after a backward move; flags are not modelled.
- Printf.Printf: formats that end inside a conversion are excluded, the string arguments are values, and output is the sequence of characters rather than the screen: the cursor rules of putc wrap without a new row and run past the last one, so no natural screen invariant holds of them.
- Arguments.Tokenize: fork, execv and wait, and with them the exit status.
- Fish.AddFrames: files that cannot be opened; rows far beyond the screen, where the C expression would overflow.
- BlinkDriver.Driver.AddAnywhere: copies of user structs cannot fail.
- Calls are atomic: control transfer to user mode and back, saved stack pointers, interrupts inside a system call and TLB flushes are left out.
- Keyboard handler and terminal_read, RTC, PIT, PIC, descriptor tables and boot: port I/O and constant tables.
- dir_read and read_dentry_by_index: they depend on the layout of 32-byte names without terminator.
- The gate on open descriptors in read and write: it does not follow the descriptors, so "open means usable" is false of it.
- lib.c:366-371, 560-568 (strlen and strcpy) and ece391support.c:49-103 (itoa and strrev) repeat the functions modelled from the other file; strncmp of lib.c compares signed characters and is not modelled.
