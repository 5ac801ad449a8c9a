# Verification of the kernel's process, screen, file and utility code

This project models the hard parts of a small teaching kernel for three terminals and six processes, and of
two of its user programs, and proves what they are built to guarantee. Three layers recur in every part:

- a *state* module gives the data and one function per step, branch by branch as the C or assembly code takes it;
- a *proof* module states what every step keeps, what holds over whole runs, and an independent
  description of the result (a parent chain, a text, a line, the bytes of a file, the lines of a file);
- a *code* module carries the steps out on mutable tables and arrays, with the loops of the source, and
  proves each method equal to its step.

| part | state | proofs | code |
|---|---|---|---|
| processes and scheduler | ProcessState.dfy | ProcessInvariant.dfy, ProcessRuns.dfy, Fairness.dfy | Kernel.dfy |
| scrolling screen | Screen.dfy | ScreenRuns.dfy, Transcript.dfy, ScreenText.dfy | ScreenCode.dfy |
| keyboard line editor | LineEditor.dfy | LineRuns.dfy, Typing.dfy | LineEditorCode.dfy |
| grep | Grep.dfy | Grep.dfy | GrepCode.dfy |
| file system and descriptors | FileSystem.dfy, Descriptors.dfy | Mount.dfy, ImageFormat.dfy, MissingBlocks.dfy, DirectoryBuffer.dfy, Descriptors.dfy | FileSystemCode.dfy |
| blink list | Blink.dfy | Blink.dfy | BlinkList.dfy |
| number printing | Numbers.dfy | Numbers.dfy | Printing.dfy |
| processes, keyboard and screen together | Machine.dfy | Machine.dfy | Console.dfy |

Options.dfy, Sequences.dfy, Runs.dfy, Division.dfy, Text.dfy and TextLines.dfy hold small shared definitions and facts. `dafny verify dfyconfig.toml` checks everything.

## Main results

*Processes.* The tables `pcb_used`, `prog_used_page`, `term_curr_pcb`, the records, page directory entry 32 and
`tss.esp0` keep a joint invariant: one acyclic parent chain per terminal, allocators in lockstep, saved contexts on
the right stacks. A step keeps it exactly when its guard holds. From it follow isolation of the running
process, nesting of execute and halt, a child's status that no other process can overwrite, exact resumption after every tick,
and round-robin fairness.

*Screen and keyboard.* After a clear the screen is the last 25 rows of an unbounded text. The display always
mirrors the active terminal's page. No run of keys and output moves a cursor off the screen, and a typed line reaches the
reader unchanged unless another terminal enters one first. Every key does to line and screen what its literal meaning says.

*Files.* A file system written in the format, in any block order, reads back as what was stored, from the opening by
name on. Block-indexed reads are slices of the concatenated blocks, and the bytes read through one descriptor are a prefix
of its file whatever is done through others, if and only if no block of the file is missing or already its first is.

*Machine.* The process tables and the screen never disagree on the active terminal, and a process writes only to the page
of its own.

*Programs.* The output of grep is described without its buffer. grep prints exactly the matching lines if and only if none of them is longer than its buffer; a blinking
character keeps its schedule; printed numbers read back.

## Where the code differs from its comments, and where a property fails

- `execute` attaches the child to the *active* terminal, not the caller's (syscalls.c:219, 385, 415). The invariant survives
  exactly under the guard of `GuardIsExact`, and `GuardFailsOnRun` is a run from boot on which it does not.
- `put_backspace` addresses the cell with the *active* terminal's cursor (lib.c:357), so `scroll_up` does not clear the bottom
  row of a background terminal, as its comment says it does. `BackgroundScrollIsExact` gives the exact condition under which
  the page is right all the same, and `PageIsSmearedOnRun` a run on which it is not.
- A backspace with an empty buffer writes at index -1 (terminal.c:305): the last cell of the buffer of the terminal before.
  `StepHoldsLine` gives the exact case in which a line is damaged, `LineIsDamagedOnRun` a run that reaches
  it. The byte before the first buffer is part of the model.
- All terminals share one enter buffer: a line entered on another terminal before the read replaces the first
  (`LaterEnterWins`, with a run in `LineIsLostOnRun`).
- `terminal_read` returns `nbytes + 1` bytes if and only if the line has `nbytes` or more (`ReadOverruns`).
- grep cuts a line of BUFSIZE or more bytes into pieces, so a longer line that contains the pattern is never printed as
  such (`PiecesAreExact`, with such a line in `LongLineIsCut`).
- `dir_read` is said to return the number of bytes written, but the read that reaches the end fills the buffer and
  returns 0, so the last name of a directory is never reported.
- `dir_open` pads each name at the length of all the text in `dir_buf` (fs.c:162), so the padding leaves the buffer for
  larger directories. `DirectoryFits` gives the exact condition, `LargeDirectoryOverruns` a directory that fails it.
- `file_read` adds a failed read's -1 to the position (fs.c:93), so the byte before a missing block is read twice.
  `ReadInOrderExactly` says exactly when reads still come in order.
- `read_data` is said to return 0 on success; it returns the number of bytes read.
- The blink pool treats location 0 as free although `mp1_ioctl_add` accepts it (fish.c:165): `AddKeeps` shows the invariant
  breaks exactly then, and `LocationZeroBreaks` that it does.

## Model

| member | source | states |
|---|---|---|
| ProcessInvariant.StepKeeps | student-distrib/syscalls.c:248-459 | Every execute, halt, timer tick and terminal switch made within its guard keeps the joint invariant of the process tables; no other condition on the caller is needed |
| ProcessInvariant.GuardIsExact | student-distrib/syscalls.c:385-415 | The guard is exact: from any state satisfying the invariant a step keeps it if and only if a process that starts a program, or halts without a parent, is on the active terminal |
| ProcessRuns.GuardFailsOnRun | student-distrib/syscalls.c:385-415 | The guard does fail on runs from boot: after a shell is started on terminal 1 and a tick taken, every execute of a valid program and every halt by the shell of terminal 0 breaks the invariant |
| ProcessInvariant.BackgroundLaunchBreaks | student-distrib/syscalls.c:385-386 | A launch by a process of another terminal always breaks the invariant, since the child is attached to the active terminal but gets the caller as parent |
| ProcessInvariant.BootEstablishes | student-distrib/kernel.c:351-362 | The first execute from the boot tables establishes the invariant, with slot 0 running |
| ProcessInvariant.SlotOfStack | student-distrib/syscalls.c:126-128 | A stack pointer anywhere on a slot's 8 KB kernel stack masks down to the record of that slot |
| ProcessInvariant.TrapFindsRunning | student-distrib/syscalls.c:176-185 | A trap taken through tss.esp0 finds the record of the running process, and that process is in the terminal queue |
| ProcessInvariant.HaltChildKeeps | student-distrib/syscalls.c:268-289 | Halting a child pops it off its chain, frees slot and frame, and makes exactly its parent run |
| ProcessInvariant.ReleaseRootReady | student-distrib/syscalls.c:291-303 | Releasing a root process always leaves a free slot and frame for the shell that replaces it |
| ProcessInvariant.TickKeeps | student-distrib/sched.c:46-114 | A tick keeps the parent chains and hands the processor to the process queued on the next occupied terminal |
| ProcessInvariant.ParentIsOwn | student-distrib/syscalls.c:385-401 | The parent of a live process is a live process of the same terminal, is queued on no terminal, is nobody else's parent, and the child returns onto its stack |
| ProcessRuns.RunKeepsInv | student-distrib/syscalls.c:248-459 | The invariant holds at every point of every run of the four steps |
| ProcessRuns.BootRunKeepsInv | student-distrib/kernel.c:351-362 | Every run from boot satisfies it from the first shell on |
| ProcessRuns.ParentChainsPartition | student-distrib/syscalls.c:248-304 | Following parent links from each terminal's queue entry meets distinct live processes of that terminal and ends without a parent; together the walks meet exactly the used slots |
| ProcessRuns.RunningIsIsolated | student-distrib/page.c:112-127 | At every point of every run the running process heads its terminal's queue entry, its own 4 MB frame is mapped, open to programs and disjoint from every other live process's frame, and tss.esp0 is its own kernel stack |
| ProcessRuns.FramesMissKernel | student-distrib/page.c:84-90 | The page directory entry of every slot maps its own frame from 8 MB on, present, writable, uncached and user accessible; no frame meets the kernel's 4 MB, in which the records and kernel stacks of all slots lie apart |
| ProcessRuns.ExecuteOutcome | student-distrib/syscalls.c:364-371 | Execute fails exactly for a bad executable or full tables and then changes nothing at all; after a page is found a slot is always found, with the same number |
| ProcessRuns.SwitchOutcome | student-distrib/lib.c:47-83 | A terminal switch is refused exactly when an empty terminal needs a slot and none is free; otherwise the chosen terminal is active and has a process, a fresh root shell if it had none |
| ProcessRuns.RootHaltOutcome | student-distrib/syscalls.c:291-303 | A root halt on the active terminal always leaves a fresh root shell there, in tables that differ in nothing else |
| ProcessRuns.StepEffects | student-distrib/syscalls.c:248-459 | A step changes no part of the record of a live process but the running one, except that the halt of a child writes the return value of its own parent |
| ProcessRuns.ExecuteReturnsChildStatus | student-distrib/syscalls.c:281-289 | Execute and halt nest under any interleaving: the step that next runs the caller is the halt of the very child it started, at the saved esp and ebp, and the value returned is that child's status |
| ProcessRuns.ReturnValueStep | student-distrib/syscalls.c:281-289 | No other process can overwrite that return value: it survives every step but the process's own halt, and the process stays at the head of its queue entry until it calls execute itself |
| ProcessRuns.ExecuteReadsChildStatus | student-distrib/syscalls.c:451-458 | However long the caller is kept from running, until its next own call of execute or halt the value it finds in its record is the status of the child it started |
| ProcessRuns.TickToItself | student-distrib/sched.c:46-50 | A tick that picks the running process itself resumes exactly the registers it interrupted |
| ProcessRuns.ResumesWhereSuspended | student-distrib/sched.h:15-40 | A process that loses the processor to a tick, or to a shell started from the keyboard, is next run by a tick that resumes exactly the registers and label of that moment; so is one that a tick picks again at once |
| Fairness.NextIsNearest | student-distrib/sched.c:70-84 | The round-robin search stops at the nearest occupied terminal ahead |
| Fairness.OnlyTicksMove | student-distrib/sched.c:82-109 | Between terminals that already have a process only a tick moves the processor |
| Fairness.EveryTerminalIsChosen | student-distrib/sched.c:57-84 | In a run that opens no new terminal, as many ticks as there are occupied terminals choose every one of them, whatever happens between the ticks |
| KernelCode.Kernel.constructor | student-distrib/kernel.c:351-362 | The tables start as the boot code leaves them |
| KernelCode.Kernel.AddProgPage | student-distrib/page.c:77-101 | First-fit frame allocation: the least free frame is taken and mapped, or nothing changes |
| KernelCode.Kernel.AddPcb | student-distrib/syscalls.c:151-167 | First-fit slot allocation: the least free slot is taken, or nothing changes |
| KernelCode.Kernel.ExecuteCall | student-distrib/syscalls.c:323-459 | Carries out the execute step on the mutable tables and reports failure exactly when the step fails |
| KernelCode.Kernel.HaltCall | student-distrib/syscalls.c:248-312 | Carries out the halt step on the mutable tables |
| KernelCode.Kernel.SwitchStacks | student-distrib/sched.h:13-29 | Saves and loads the registers in the macro's order; equals one save and one load even when both records are the same |
| KernelCode.Kernel.FindNext | student-distrib/sched.c:70-84 | The search loop terminates and returns the next occupied terminal |
| KernelCode.Kernel.DoHandlePit | student-distrib/sched.c:46-114 | Carries out the tick step; the empty queue is left alone and no empty queue entry is ever followed |
| KernelCode.Kernel.ChangeVideoMem | student-distrib/lib.c:47-83 | Carries out the process part of a terminal switch |
| ScreenRuns.StepKeepsOk | student-distrib/lib.c:227-363 | Putting, writing, erasing, clearing and switching keep every terminal's cursor inside the 25 by 80 screen |
| ScreenRuns.StepKeepsMirror | student-distrib/lib.c:242-248 | Every step keeps the display equal to the page of the active terminal |
| ScreenRuns.RunKeepsMirror | student-distrib/lib.c:20-83 | So does every run |
| ScreenRuns.BackgroundNeverShows | student-distrib/lib.c:293-301 | Output of a background process never changes a cell of the display |
| ScreenRuns.ForegroundPut | student-distrib/lib.c:227-264 | A character put on the active terminal changes its page and the display alike and no other page |
| ScreenRuns.BackgroundPut | student-distrib/lib.c:275-314 | A character written in the background changes only its terminal's page, like a foreground one unless it scrolls |
| ScreenRuns.BackgroundScroll | student-distrib/lib.c:357-360 | Scrolling a background page blanks nothing of its last row and one stray cell, addressed by the active terminal's cursor |
| ScreenRuns.ForegroundScroll | student-distrib/lib.c:622-652 | Scrolling the active terminal moves page and display up alike and blanks the last row up to the old cursor |
| Transcript.PutShows | student-distrib/lib.c:227-264 | A page that is the 25-row window on a text becomes the window on the text with the character typed: eager wrap at 80, newline and carriage return start a row, everything past the cursor stays blank |
| Transcript.BackShows | student-distrib/lib.c:344-363 | A backspace erases the last character of the text, or re-enters the row above before its last column |
| ScreenText.PrintedAfterClear | student-distrib/lib.c:20-36 | After a clear in any state, whatever is printed, page, display and cursor are the window on the text printed since |
| ScreenText.TypedHoldsAll | student-distrib/lib.c:622-652 | That text holds every printed character in order, and the window is its last 25 rows |
| ScreenText.TypedIsLaidOut | student-distrib/lib.c:228-265 | Its rows break exactly where the text has a newline or a line reaches a multiple of 80 characters |
| ScreenText.WrittenAfterClear | student-distrib/terminal.c:511-530 | After a clear in any state, page and display are the last 25 rows of the layout of whatever the kernel prints or the active terminal's process writes |
| ScreenText.OutAllIsPutAll | student-distrib/lib.c:275-314 | Writing a buffer on the active terminal puts the same characters in the same order as printing it |
| ScreenText.WrittenShows | student-distrib/terminal.c:511-530 | A page that shows a text shows, after a write, the text with every byte of the buffer typed in order, on the active terminal always and on a background one unless a byte scrolls it uncleanly; pages of other terminals show what they did |
| ScreenText.WrittenDisplays | student-distrib/terminal.c:511-530 | On the active terminal the display shows it too |
| ScreenText.WrittenInBackground | student-distrib/terminal.c:511-530 | A write on a background terminal leaves the display as it is |
| ScreenText.RunShowsText | student-distrib/lib.c:227-363 | In every run of output, erasing, clearing and switching in which a terminal never scrolls uncleanly in the background, its page is the window on its text, and so is the display while it is active |
| ScreenText.PageIsSmearedOnRun | student-distrib/lib.c:344-363 | Pages are smeared on runs: from every state with terminal 0 active, a character in the last row, a switch, a clear and a newline from a process of terminal 0 leave a page that does not show its text |
| ScreenText.BackgroundScrollIsExact | student-distrib/lib.c:344-363 | A background page that scrolls still shows its text if and only if its last row was blank but for the stray cell, and the stray cell was blank |
| ScreenCode.Display.Clear | student-distrib/lib.c:20-36 | Both loops together are the clear step |
| ScreenCode.Display.ScrollUp | student-distrib/lib.c:622-652 | The move and the erasing loop together are the scroll step, on either kind of terminal |
| ScreenCode.Display.Putc | student-distrib/lib.c:227-264 | Is the put step on the active terminal, through both pointers |
| ScreenCode.Display.TerminalPutc | student-distrib/lib.c:275-314 | Is the same step on the calling process's terminal |
| ScreenCode.Display.ChangeVideoMem | student-distrib/lib.c:66-72 | Is the switch step, and the backing pointer names the new page |
| ScreenCode.Display.TerminalWrite | student-distrib/terminal.c:511-530 | Writes every byte of the buffer in order and returns their number: the page of its terminal then shows the text it showed with the buffer typed, always on the active terminal and on a background one if no byte scrolls it uncleanly; in the background the display does not change |
| LineEditor.StepKeepsOk | student-distrib/terminal.c:293-363 | Typing, erasing, printing, scrolling, clearing and switching in any order keep 80y+x at least the buffer position, the position at most 128 and every cursor on the screen |
| LineRuns.RunKeepsOk | student-distrib/terminal.c:217-371 | No run of key presses, process output and switches moves any cursor off the screen, and the display stays the active terminal's page |
| LineRuns.ScreenRunOf | student-distrib/terminal.c:217-371 | What a run of keys and output does to the screen is a run of the screen, event by event, so the text theorems hold for it |
| Typing.PrintableKey | student-distrib/terminal.c:351-363 | A printable key on a line of fewer than 128 characters is shown at the cursor and added to the line |
| Typing.IgnoredKey | student-distrib/terminal.c:351-363 | A key without a character, a modifier key, or any such key on a full line changes nothing at all |
| Typing.EnterKey | student-distrib/terminal.c:318-330 | Newline or return starts a row, puts the line into the enter buffer, tells this terminal to read and begins an empty line |
| Typing.BackspaceKey | student-distrib/terminal.c:303-317 | A backspace erases the last character of the line, on the screen too; on an empty line it changes neither |
| Typing.ClearKey | student-distrib/terminal.c:331-343 | Control with l or L clears screen and line |
| Typing.BackspaceUndoesKey | student-distrib/terminal.c:303-317 | Erasing undoes typing on the text, unless the character has filled its row |
| Typing.WordIsTyped | student-distrib/terminal.c:351-363 | A word that fits the line, typed key by key, is shown and added to the line as it is |
| Typing.OtherEvents | student-distrib/lib.c:228-314 | Printed and written characters are put on the screen as they are, and reading or dropping a line leaves the screen alone |
| LineRuns.StepHoldsLine | student-distrib/terminal.c:303-363 | A terminal's buffer holds its line, edited and zero padded, after every event if and only if the event is not a backspace on the next terminal's empty line while this line is full |
| LineRuns.LineIsDamagedOnRun | student-distrib/terminal.c:303-311 | That case is reached: 128 characters on terminal 0, a switch, and a backspace on terminal 1 |
| LineRuns.RunHoldsLine | student-distrib/terminal.c:303-363 | Over whole runs, with switches in between, a buffer holds exactly what its own terminal's keys make |
| LineRuns.EnteredLineIsRead | student-distrib/terminal.c:486-499 | The line typed up to an Enter is what the terminal's next read returns, cut to the size asked for (at most 128) plus a newline, whatever happens in between short of another Enter or read |
| LineRuns.LaterEnterWins | student-distrib/terminal.c:318-330 | If terminal t has entered a line and terminal u enters one before t has read, t is still told to read and reads the line of u; it reads its own if and only if the two agree as far as it reads |
| LineRuns.LastEnterIsRead | student-distrib/terminal.c:322-326 | Whoever reads, reads the line entered last |
| LineRuns.FlagMeansUnread | student-distrib/terminal.c:318-330 | On every run a terminal is told to read exactly when an Enter of its own has not been read yet |
| LineRuns.LineIsLostOnRun | student-distrib/terminal.c:318-330 | Lines are lost on runs: a line entered on terminal 0 and an empty one on terminal 1 make the read of terminal 0 return an empty line |
| LineRuns.ReadOverruns | student-distrib/terminal.c:487-499 | A read returns more bytes than asked for if and only if the line is as long as that |
| LineRuns.ReadResultIs | student-distrib/terminal.c:487-499 | A read of a padded line gives the line cut to the size and a newline, one byte more than asked when the line is as long |
| LineEditorCode.Terminal.HandleKey | student-distrib/terminal.c:293-363 | The handler's branches in order carry out the key or switch step |
| LineEditorCode.Terminal.BackspaceKey | student-distrib/terminal.c:303-317 | The write at position -1 included, the branch is the backspace step |
| LineEditorCode.Terminal.EnterKey | student-distrib/terminal.c:318-330 | Moves the buffer to the enter buffer, zeroes it and echoes |
| LineEditorCode.Terminal.TerminalRead | student-distrib/terminal.c:486-499 | The copy loop stops at the first zero or after min(nbytes, 128) bytes and appends a newline |
| LineEditorCode.Terminal.ClearBuffer | student-distrib/terminal.c:569-577 | The buffer and position of one terminal are cleared, no other |
| Machine.StepKeepsOk | student-distrib/lib.c:47-83 | Every guarded process step, key, and output keeps the process invariant, the cursor invariant and the mirror, and the process tables and the screen agree on the active terminal |
| Machine.RunKeepsOk | student-distrib/lib.c:66-80 | So does every run |
| Machine.BootIsOk | student-distrib/kernel.c:351-362 | When the first shell has been started after the clear, both parts are in order and agree |
| Machine.EditorRunOf | student-distrib/terminal.c:217-371 | What a run of the whole machine does to keyboard and screen is a run of the line editor, event by event, so the theorems about lines and texts hold for the machine |
| Machine.InputAndOutput | student-distrib/terminal.c:217-371 | Keys reach the keyboard handler with their modifiers, kernel output the screen, and the running process writes to and reads from its own terminal; the process tables stay as they are |
| Machine.ProcessSteps | student-distrib/syscalls.c:248-459 | Execute and a tick leave keyboard and screen alone |
| Machine.OutputAppears | student-distrib/lib.c:275-314 | What a process writes appears behind the text that its terminal's page shows, unless the page scrolls uncleanly in the background |
| Machine.SwitchShowsTerminal | student-distrib/lib.c:47-83 | A terminal key changes nothing at all exactly when an empty terminal needs a process and none can be started; otherwise that terminal is active in both parts, has a process, and its page is on the display |
| Machine.OutputStaysOnTerminal | student-distrib/terminal.c:555-559 | What the running process writes goes to the page of its own terminal, and to the display exactly if that terminal is active |
| Machine.HaltEmptiesLine | student-distrib/syscalls.c:262-265 | A process that ends leaves an empty line on its terminal and every other line as it is |
| ConsoleCode.ChangeVideoMem | student-distrib/lib.c:47-83 | The whole function: both parts switch, or neither does, exactly when the switch is refused |
| GrepCode.DoOneFile | syscalls/ece391grep.c:9-66 | For every file without zero bytes and every pattern, the output is what the matching pieces of the file give, lines of at least BUFSIZE bytes being cut into pieces of BUFSIZE; it is exactly the lines containing the pattern, once each, in order, an unterminated last line included, if and only if none of these is longer than BUFSIZE |
| GrepCode.SearchFile | syscalls/ece391grep.c:20-60 | The loop over buffers terminates and prints exactly the matching pieces |
| Grep.PiecesAreExact | syscalls/ece391grep.c:29-56 | The pieces print what the lines would if and only if every matching line fits the buffer |
| Grep.LongLineIsCut | syscalls/ece391grep.c:29-56 | They do differ: a line of BUFSIZE + 1 characters that contains the pattern is not printed as it is |
| Grep.OutputIs | syscalls/ece391grep.c:9-66 | The whole output is, for every line and every piece of a long line that contains the pattern, the file name, a colon, the piece and a newline, in order |
| Grep.PiecesAreCutLines | syscalls/ece391grep.c:29-56 | What is searched is the lines of the file, each cut after every BUFSIZE characters |
| GrepCode.SearchBuffer | syscalls/ece391grep.c:28-56 | What is printed and what is kept in the buffer account for everything that was pending |
| GrepCode.Refill | syscalls/ece391grep.c:22-27 | A refill leaves what is pending, buffer before unread file, unchanged |
| GrepCode.KeepPending | syscalls/ece391grep.c:33-40 | Shifting the unfinished line down keeps it and only it |
| GrepCode.SearchLine | syscalls/ece391grep.c:41-51 | The scan finds the pattern if and only if it occurs in the line |
| GrepCode.StrNCmp | syscalls/ece391support.c:35-46 | Zero exactly when the text starts with the pattern |
| GrepCode.StrCpyDown | syscalls/ece391support.c:14-17 | Overlapping copy to a lower index moves the whole text |
| TextLines.LinesAreCutAtNewlines | syscalls/ece391grep.c:31-32 | The lines of a file hold no newline and join back to the file |
| FileSystem.SmallFilesFit | student-distrib/fs.c:374-375 | Images whose files have at most 1023 blocks are well formed: the block numbers lie inside the image |
| FileSystem.FileByte | student-distrib/fs.c:371-387 | The byte found through the index node is the byte of the concatenated blocks |
| FileSystem.ReadsSlice | student-distrib/fs.c:356-389 | What a read leaves in its buffer is a slice of the file followed by zeros |
| FileSystem.InodeRecovered | student-distrib/fs.c:61-90 | The index node number survives its trip through inode_p if and only if it is below 2^20 - 1 or is 2^32 - 1 |
| FileSystem.ValidInodeRecovered | student-distrib/fs.c:61-90 | So does every index node of an image that fits in memory |
| Mount.ReadsNeverFail | student-distrib/fs.c:377-379 | Reads from within a file never fail if and only if all its blocks exist |
| Mount.FileDelivers | student-distrib/fs.c:81-96 | Through the stored address every complete file is delivered, slice by slice |
| Mount.ReadsAreAPrefixOfTheFile | student-distrib/fs.c:81-96 | Open a regular file by name and read it in pieces of any sizes, with any other calls in between: the pieces are a prefix of its concatenated blocks, as long as asked for or as the file |
| ImageFormat.StoredFileIsRead | student-distrib/fs.c:336-389 | Round trip: for every disk written in the format, with its blocks in any order, opening a stored regular file by name and reading it in pieces of any sizes delivers a prefix of what was stored |
| ImageFormat.EncodedRead | student-distrib/fs.c:336-389 | A read through the address of an index node returns exactly the stored bytes from the position on, as many as asked for or as there are |
| ImageFormat.EncodedDirectory | student-distrib/fs.h:21-27 | The directory read from a written disk has the names, types and index node addresses that were written |
| ImageFormat.EncodedFile | student-distrib/fs.c:357-383 | The contents found through length and block numbers are the contents that were written |
| ImageFormat.PackedIsOk | student-distrib/fs.c:357-383 | Every list of files small enough for the format can be written |
| Mount.MissingNodeFails | student-distrib/fs.c:345-347 | Reading a file whose index node does not exist fails |
| Descriptors.StepKeepsTable | student-distrib/syscalls.c:471-593 | Descriptors 0 and 1 stay the terminal, no other becomes it, and a descriptor is in use exactly when its operations are set |
| Descriptors.RunKeepsTable | student-distrib/syscalls.c:471-593 | So over whole runs of open, read and close |
| Descriptors.OpenOutcome | student-distrib/syscalls.c:525-570 | Open returns the least free descriptor, set up with the operations of the file's type, the stored address for a regular file and position 0, and changes no other, or changes nothing; it fails exactly for a missing name, an unknown type or a full table |
| Descriptors.CloseOutcome | student-distrib/syscalls.c:580-593 | Close succeeds exactly on an open descriptor from 2 on, frees it and changes nothing else |
| Descriptors.ClosedIsReopened | student-distrib/syscalls.c:525-593 | The next successful open takes the closed descriptor, or a lower one that was free before |
| Descriptors.ReadElsewhere | student-distrib/syscalls.c:471-488 | Reads on bad descriptors and on descriptors without an index node fail, the terminal delivers what was typed, the clock nothing; none of these changes the table |
| Descriptors.OthersUntouched | student-distrib/syscalls.c:471-593 | A descriptor in use changes only when it is itself read or closed |
| Descriptors.RunReadsFile | student-distrib/fs.c:90-95 | Reads through one descriptor deliver the next bytes of its file whatever is done through others, even for the same file |
| Descriptors.FailedReadStepsBack | student-distrib/fs.c:91-95 | A failed read moves the position back by one in 32-bit arithmetic |
| MissingBlocks.ReadInOrderExactly | student-distrib/fs.c:80-96 | On every run of calls the bytes read through a descriptor come in order, a prefix of what can be read, if and only if every block of the file exists or not even its first does |
| MissingBlocks.MissingBlockRepeatsByte | student-distrib/fs.c:80-96 | With a first missing block that is not the first block, three reads deliver the last byte before it twice |
| DirectoryBuffer.DirectoryFits | student-distrib/fs.c:141-176 | Opening a directory accesses nothing outside dir_buf if and only if it has at most 31 names, or at most 61 all of which fill their 32 bytes; the names, the strlen and the padding are counted, whatever an earlier listing left in the buffer |
| DirectoryBuffer.PaddingFits | student-distrib/fs.c:161-164 | The padding of one entry stays inside if and only if it is one of the first 31 or no name up to it is shorter than 32 bytes |
| DirectoryBuffer.LargeDirectoryOverruns | student-distrib/fs.c:161-164 | A directory of 32 one-letter names makes the padding write up to 64 bytes beyond dir_buf |
| Descriptors.RunListsNames | student-distrib/fs.c:189-211 | Successive 32-byte reads of a directory report names 0 to n-2 once each in order, then 0 forever, whatever else is done |
| Descriptors.OpenedDirListsNames | student-distrib/fs.c:141-211 | The same from the call that opened the directory on |
| Descriptors.RunReadsListing | student-distrib/fs.c:190-213 | Reading a directory in pieces of any sizes delivers the listing in order, without the bytes of the read that reaches its end, and nothing ever after |
| FileSystemCode.Files.ReadData | student-distrib/fs.c:339-390 | Returns -1 exactly for a bad index node or a missing block in range, else min(length, size - offset), 0 past the end; the buffer holds the bytes as far as they could be read, then zeros; every address is in bounds |
| FileSystemCode.Files.ReadDentryByName | student-distrib/fs.c:263-292 | Finds the first entry whose name, cut at 32, is the name looked for |
| FileSystemCode.Files.FileOpen | student-distrib/fs.c:53-70 | Sets the descriptor exactly for an existing regular file |
| FileSystemCode.Files.FileRead | student-distrib/fs.c:81-96 | Delivers the read through inode_p and advances the position, errors included |
| FileSystemCode.Files.DirOpen | student-distrib/fs.c:141-176 | Sets the descriptor and stores the listing exactly for an existing directory |
| FileSystemCode.Files.FillDirBuf | student-distrib/fs.c:154-168 | The zero-padded names stand in order, with all writes inside the buffer |
| FileSystemCode.Files.DirRead | student-distrib/fs.c:189-211 | Returns the next bytes unless they reach the end of the listing, and then 0 |
| FileSystemCode.Files.Open | student-distrib/syscalls.c:525-570 | Is the open step |
| FileSystemCode.Files.Read | student-distrib/syscalls.c:471-488 | Is the read step |
| FileSystemCode.Files.Close | student-distrib/syscalls.c:580-593 | Is the close step |
| FileSystemCode.StrNCmp | student-distrib/lib.c:655-673 | Zero exactly when the two names, cut at n, are the same |
| FileSystemCode.StrNCpy | student-distrib/lib.c:690-705 | The name followed by zeros, and nothing else changes |
| Blink.AddKeeps | fish/blink.S:105-184 | Add fails exactly for a location off the screen or a full pool; a success puts one record in front, with the characters and lengths asked for, switched on and its countdown at the full on length, and keeps the invariant if and only if the location is not zero |
| Blink.RemoveKeeps | fish/blink.S:187-237 | Remove fails exactly when nothing is at the location; otherwise it takes out the most recently added record there and keeps order and data of the rest |
| Blink.TickKeeps | fish/blink.S:49-99 | A tasklet run steps every listed record and moves no link |
| Blink.TickTouches | fish/blink.S:49-99 | Of a listed record a tick changes nothing but countdown and status, and no other record |
| Blink.RunKeepsInv | fish/blink.S:105-237 | On every run the list is acyclic and its nodes are exactly the slots with a location |
| Blink.LocationZeroBreaks | fish/blink.S:131-162 | That case is reached: adding at location 0 to the empty list succeeds and breaks the invariant |
| Blink.BlinksOnSchedule | fish/blink.S:49-99 | From the add that creates it on, a record that is not removed stays on the list with its characters and lengths and is on after k ticks if and only if the remainder of k by Lasting(on) + Lasting(off) is below Lasting(on), for all 16-bit lengths, whatever else is added, removed or ticked; Lasting is the length itself from 1 to 0x8000 and one tick otherwise |
| Blink.BlinksByRemainder | fish/blink.S:49-99 | For lengths 1 to 0x8000 it is on, from the add on, if and only if k mod (on + off) < on |
| BlinkCode.BlinkList.Malloc | fish/fish.c:161-171 | The first slot with location zero, or none |
| BlinkCode.BlinkList.FindHelper | fish/blink.S:351-379 | The walk ends at the first record with the location, or at the end of the list |
| BlinkCode.BlinkList.IoctlAdd | fish/blink.S:105-184 | Is the add step |
| BlinkCode.BlinkList.IoctlRemove | fish/blink.S:187-237 | Is the remove step, relinking in place |
| BlinkCode.BlinkList.RtcTasklet | fish/blink.S:49-99 | Is the tick step, walking the list in place |
| Numbers.NumeralDenotes | student-distrib/lib.c:404-438 | For every value and radix 2 to 36 the digits denote the value, with no leading zero except for 0 itself |
| Numbers.NumeralIsUnique | student-distrib/lib.c:404-438 | No other such string of digits denotes it |
| Numbers.WordDigits | student-distrib/lib.c:426-434 | A 32-bit value needs at most 32 digits in any radix |
| Numbers.PaddedHexDenotes | student-distrib/lib.c:138-157 | %#x always gives exactly 8 digits that denote the value |
| Numbers.SignedNumeralDenotes | student-distrib/lib.c:170-183 | %d reads back as the value for every signed word, the most negative one included |
| PrintingCode.StrRev | student-distrib/lib.c:441-457 | Exactly the text is mirrored in place |
| PrintingCode.Itoa | student-distrib/lib.c:404-438 | Leaves the numeral of the value, terminated, and touches nothing beyond it |
| PrintingCode.FormatPaddedHex | student-distrib/lib.c:144-153 | The buffer holds the padded number from the returned index on |
| PrintingCode.FormatSigned | student-distrib/lib.c:170-181 | The buffer holds the signed numeral |

## Left out

- Boot, descriptor tables, port I/O, interrupt controller, clock and mouse drivers: hardware traffic.
- The bytes that the inline assembly and `iret` move: a saved context is an (esp, ebp, label) value and entering a program or resuming a context is one value of `Control`.
- Interrupts arriving in the middle of execute or halt: each step is atomic here, while the system calls run with interrupts enabled in places.
- The executable check, the program loader, `parse` and the argument buffer: execute takes the entry point of a valid executable, or none; the program named "shell" is taken to be valid.
- Background execute and background root halt: shown to break the invariant by `GuardIsExact`, so runs exclude them.
- Attribute bytes, `vidmap`, `set_video_page`, the hardware cursor and mouse selection and paste: they decorate or bypass the text.
- Scan codes and key maps: a key arrives decoded, with the state of the modifiers.
- KernelCode.Kernel.ExecuteCall: takes the outcome of parsing and of the executable check as a parameter, since they only read, and does not load the program.
- KernelCode.Kernel.HaltCall: the input buffer that halt clears is part of Machine.HaltEmptiesLine.
- KernelCode.Kernel.DoHandlePit: the mapping of the user's video page is not modelled.
- KernelCode.Kernel.ChangeVideoMem: the process half of a terminal switch; the whole is ConsoleCode.ChangeVideoMem.
- ScreenCode.Display.ChangeVideoMem: the screen half, told by the other half whether the switch is refused.
- LineEditorCode.Terminal.HandleKey: takes a decoded key and the modifiers that are held; mouse selection is left out.
- LineEditorCode.Terminal.TerminalRead: starts when the enter flag is set, since spinning on the flag is waiting for an interrupt; the pasted-command branch belongs to the mouse.
- LineRuns.EnteredLineIsRead: excludes an Enter on another terminal before the read, because all terminals share one enter buffer; `LineRuns.LaterEnterWins` says what the code does then.
- The numbers of processes, terminals, screen cells and pool slots are the source's constants, not parameters.
- Transcript.BackShows: a backspace in the first cell is excluded; the line editor never makes one, by `LineRuns.RunKeepsOk`.
- GrepCode.DoOneFile: read and close do not fail, files hold no zero byte (the shift with a string copy then loses what follows it), and the byte past the buffer is not a newline when the search starts (it is never initialised).
- FileSystemCode.Files.ReadData: the image holds all the blocks it announces and the block numbers of its files, also where these run on past an index node; null pointers and calls before `fs_init` are not modelled.
- FileSystemCode.Files.ReadDentryByIndex: what the unbounded string copy leaves after the end of a name is not modelled.
- FileSystemCode.Files.DirOpen: opens exactly the directories that `DirectoryFits` finds room for; with any other the source writes or reads past the end of `dir_buf`, and what lies there is not part of this model.
- FileSystemCode.Files.FillDirBuf: the same directories.
- FileSystemCode.Files.Open: the same directories.
- FileSystemCode.Files.Read: what the terminal delivers is a parameter; user pointer checks are left out.
- Write calls through descriptors: files and directories always refuse them, and the terminal's is ScreenCode.Display.TerminalWrite.
- BlinkCode.BlinkList.IoctlAdd: the copy from the user cannot fail and the character put on the screen is not modelled; `mp1_ioctl_sync` and `mp1_ioctl_find` are left out.
- BlinkCode.BlinkList.RtcTasklet: the characters put on the screen are not modelled.
- `ece391_itoa` and `ece391_strrev`: the same algorithms as `itoa` and `strrev`, modelled once.
- Signals, `getargs`, exception return codes, the demo programs other than grep and fish: easy or unfinished in the source.
- `memset`, `memcpy` and `memmove`: taken by their bytewise meaning.
