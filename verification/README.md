# A verified model of gyaradOS

gyaradOS is a small x86 kernel with three text terminals, a shell on each, nested programs, a read-only file
system and a line editor. This project models three parts of it in Dafny and proves what they keep.

* **Processes.** `System.dfy` is the process side as an abstract machine: three stacks of processes, the
  terminal that runs, the terminal of the keyboard and the 4 MB image of every process slot. Its events are
  execute, halt, open, close, read, write, getargs, a store of the running program, a function key and a
  timer tick. `SystemInvariant.dfy`, `Runs.dfy`, `Switching.dfy`, `Health.dfy` and `Limits.dfy` prove what
  every run of it does; `Boot.dfy` starts from the empty system and shows a concrete image on which nested
  programs and switches happen. `ProcessLaws.dfy` and `FileLaws.dfy` say what each event means in the bytes
  of the file, the addresses of the machine and the stacks of processes. `Kernel.dfy` is the code itself: a
  class with the slot mask, `curr_proc` and `prev_proc`, the process control blocks, `tss.esp0`, the page
  tables and physical memory. Every handler is proved to do what the machine does (`KernelRuns.HandleAll`
  for whole runs); `KernelTables.dfy` and `KernelMemory.dfy` hold the value-level steps, `SlotMask.dfy`,
  `Paging.dfy` and `Command.dfy` the parts.
* **Screens and line editor.** `Screen.dfy` is one screen and the unbounded log it is a window of.
  `Console.dfy` has the three terminals with separate screens and their lines in one keyboard array;
  `ConsoleRuns.dfy` and `ConsoleWrite.dfy` prove what runs of keys, reads and writes keep, `ScreenLaws.dfy`
  what each operation shows. `VideoMemory.dfy` and `Keyboard.dfy` are the code over one flat low memory with
  one visible page and three backing pages; `KeyboardRuns.HandleAll` is the refinement.
* **Files, memory and numbers.** `FileSystem.dfy`, `CStrings.dfy`, `MemoryCopy.dfy` and `Numbers.dfy`.

ESP and EBP are opaque values captured where the inline assembly stores them; every handler runs as one
step. `SCHED_ENABLED` is a parameter, so both settings are covered.

## What the code does that its comments do not say

Each of these is proved, with the exact condition under which the expected behaviour holds.

* A read past the end of a file returns one byte more than there is, and one that reaches a block
  boundary with no data block behind it returns -1 although it stored everything up to there
  (`FileSystem.ReadBlocks`). So a program that reads a file in chunks to its end, taking as many bytes as
  each read returns, gets the file and a final 0 exactly when the chunk size divides the file size and the
  file is empty or does not end on a bad block (`FileSystem.DrainIsTheFileExactlyWhen`): else one byte too
  many, or the last chunk lost behind a -1 (`FileSystem.DrainGood`, `FileSystem.DrainBad`). That -1 also
  moves the position back by one (`FileSystem.ReadsCompose`).
* A first switch to a terminal whose shell cannot start leaves the CPU on a terminal where nothing runs
  (`Health.HealthyExactlyWhen`), and that state is reachable: seven nested shells and F2
  (`Boot.FullTableIsReachable`, `Health.FullTableFailsToStart`).
* Enter writes one cell past its row and hits the first character of the next terminal's line
  (`Console.EnterKeepsInvExactlyWhen`). A read of 1023 bytes or more reaches the next rows
  (`Console.ReadKeepsInvExactlyWhen`).
* `clear_screen` sends home the cursor of the terminal that printed last, which need not be the visible one
  (`Console.ClearsExactlyWhen`, `Console.ClearKeepsInvExactlyWhen`).
* `terminal_write` shares the keyboard's row and drops everything, line breaks included, once 1023
  characters are in it (`ConsoleWrite.AcceptsAllExactlyWhen`). A writer on a terminal that is not active
  prints on the active screen and adds to its own line (`ConsoleWrite.WriteKeepsInvExactlyWhen`).

## Model

| member | source | states |
|---|---|---|
| Runs.HaltReturnsToExecute | kernel/syscall.c:67-106 | in every run, whatever happens on any terminal in between, the halt of a program resumes the ESP and EBP its execute captured, makes that execute return the program's status, and leaves the terminal's stack of processes and their memory as before the execute |
| Runs.ArgsReachTheProgram | kernel/syscall.c:399-412 | what was typed behind a program's name is what getargs gives that program, however much has run in between, cut or padded to the length asked for |
| Runs.RunKeepsBelow | kernel/syscall.c:207-265 | while a program lives, the processes below it on its terminal keep slot, caller context, arguments, files and memory over any run |
| Runs.StepKeepsMemory | kernel/syscall.c:201-205 | a step changes no 4 MB image but that of a free slot or of the running process that stores |
| Runs.IdleProcessKeepsMemory | mm/paging.c:95-141 | a process that is not the running one keeps its memory byte for byte |
| Runs.StepMoves | kernel/syscall.c:246-249 | a step starts or ends at most one process a terminal, or changes the top one's files and saved stack; slot, caller context and arguments never change |
| Runs.Run | kernel/syscall.c:5-12 | every run keeps the process-table invariant: slots distinct and below 7, descriptors 0 and 1 the terminal, no process on a terminal never started |
| SystemInvariant.StepKeepsInv | kernel/syscall.c:183-249 | every single event keeps that invariant |
| SystemInvariant.ExecuteCases | kernel/syscall.c:125-199 | an execute either changes nothing or starts one program in the lowest free slot on the running terminal |
| Switching.SwitchSavesAndResumes | drivers/pit.c:109-136 | only function keys and ticks move the CPU; leaving saves the stack, arriving resumes the saved one, no live memory changes |
| Switching.RunLeavesTerminal | drivers/pit.c:88-136 | a terminal that the CPU stays off keeps its whole stack of processes and their memory over any run |
| Switching.SwitchingBackResumes | drivers/pit.c:119-134 | away, any run elsewhere, and back resumes the very ESP and EBP saved on leaving, with files, arguments, callers and memory as they were |
| Switching.TickSwitch | drivers/pit.c:60-85 | with the scheduler on a tick saves the outgoing context, moves to the next terminal and resumes what was saved there |
| Health.HealthyExactlyWhen | drivers/pit.c:95-117 | keyboard and CPU stay on one terminal that has a process exactly when the step is not a first switch whose shell cannot start |
| Health.RunHealthyExactlyWhen | drivers/pit.c:88-136 | all states of a run are healthy exactly when no start in it fails |
| Health.StartedExactlyWhen | kernel/syscall.c:160-199 | a switch that starts a shell leaves a process there exactly when the shell is a runnable file and a slot is free |
| Health.HealthySwitchingBackResumes | drivers/keyboard.c:381-422 | without the scheduler and with no failed start: away, any run on the other terminals, and back resumes the saved stack, processes and memory as left |
| Health.FullTableFailsToStart | drivers/pit.c:95-101 | with seven programs nested on the first terminal, F2 ends on a terminal without a process |
| Boot.BootIsHealthyExactlyWhen | boot/kernel.c:223-226 | boot ends with a shell in slot 0 on the first terminal exactly when the image holds a runnable shell |
| Boot.FullTableIsReachable | kernel/syscall.c:183-199 | with a runnable shell, boot and six nested shells reach the full table in which F2 fails to start a shell |
| Boot.PostBootIsHealthy | drivers/pit.c:88-136 | every state after boot has keyboard and CPU on one terminal with a process, exactly in the runs in which no start of a shell fails |
| Boot.ThereAndBack | drivers/keyboard.c:381-406 | with a runnable shell, boot, F2 and F1 resume the first shell where F2 interrupted it |
| Boot.SampleThereAndBack | drivers/keyboard.c:381-406 | and that does happen, on a concrete image of one file |
| Boot.CallAndReturn | kernel/syscall.c:113-266 | a shell run by the first shell halts, and execute returns its status where it was called |
| Health.AlwaysRunsExactlyWhen | drivers/pit.c:60-67 | with the scheduler on the running terminal has a process in every state of a run exactly when no tick in it fails to start a shell |
| Health.RoundRobin | drivers/pit.c:42-86 | with the scheduler on and no failed start, n ticks move the CPU n terminals on modulo 3, whatever happens between them, and the running terminal always has a process |
| Health.RunsExactlyWhen | drivers/pit.c:60-67 | with the scheduler on the running terminal keeps a process exactly when the step is not a tick onto an empty terminal whose shell cannot start |
| ProcessLaws.ExecuteStartsTheProgram | kernel/syscall.c:183-262 | an execute that enters a program has put one process on the running terminal, in the lowest free slot, with the stack pointers of the call, its arguments and fresh descriptors; no other process changes |
| ProcessLaws.ExecuteLoadsTheFile | fs/files.c:177-193 | every byte of the named file is at 0x08048000 of the new process's page, and every other byte of memory is as before |
| ProcessLaws.ExecuteStartsExactlyWhen | kernel/syscall.c:125-199 | it enters a program exactly when there is a name of at most 32 characters that does not begin with clear, a file of that name that starts with the magic bytes, and a free slot; otherwise nothing changes |
| ProcessLaws.ExecuteEntersAtTheEntryPoint | kernel/syscall.c:171-181 | the program starts with the magic bytes and is entered at bytes 24 to 27 of its file, lowest first |
| ProcessLaws.HeaderIs | kernel/syscall.c:160-168 | the header holds the first bytes of the file, one behind a short file included, over what the buffer held |
| ProcessLaws.RootHaltRestarts | kernel/syscall.c:38-65 | the halt of a root shell changes nothing and enters the shell file again |
| ProcessLaws.HaltEndsTheTop | kernel/syscall.c:67-103 | any other halt takes one process off the stack and returns the status to its caller |
| ProcessLaws.FKeyOnTheSameTerminal | drivers/pit.c:119-134 | the key of the terminal in use saves its stack and resumes that same stack |
| ProcessLaws.FKeyToAStartedTerminal | drivers/pit.c:109-134 | the key of another started terminal saves the stack left and resumes the one saved there |
| ProcessLaws.FirstFKeyExecutesTheShell | drivers/pit.c:95-108 | the first F2 or F3 marks the terminal started, saves the stack left and executes the shell there |
| ProcessLaws.FKeyMovesOnlyTheKeyboard | drivers/pit.c:91-93 | with the scheduler on, or without a process on either side, a function key moves the keyboard only |
| ProcessLaws.IdleTick | drivers/pit.c:38-58 | a tick does nothing without the scheduler or on a terminal without a process |
| ProcessLaws.TickToAProcess | drivers/pit.c:68-85 | a tick saves the running stack and resumes the one saved on the next terminal; the keyboard stays |
| ProcessLaws.TickToAnEmptyTerminal | drivers/pit.c:60-67 | a tick onto an empty terminal moves the keyboard too and executes the shell |
| ProcessLaws.AddressesReached | mm/paging.c:8-73 | a user program reaches the four video pages and 128 to 132 MB and nothing else, the kernel 4 to 8 MB too |
| ProcessLaws.StoreReaches | mm/paging.c:95-115 | a store of the running program changes that byte of its own image, or video memory, or faults |
| FileLaws.OpenByType | kernel/syscall.c:338-360 | an opened descriptor is the file at position 0, the directory at position 0 or the clock, by the type of the entry |
| FileLaws.OpenedFileReadsInOrder | fs/files.c:28-41 | after open and any reads, the next read returns its count and puts the bytes that follow into the buffer, and no other memory changes |
| FileLaws.OpenedDirectoryReadsInOrder | fs/files.c:246-261 | after open, read number k of a directory puts the name of entry k and its NUL into the buffer and returns its length |
| FileLaws.FileReadGoesOn | fs/files.c:28-41 | one read inside a file: count, bytes, new position, everything else as before |
| FileLaws.DirectoryReadGoesOn | fs/files.c:246-261 | one read of a directory, the one behind the last name included |
| FileLaws.OtherReads | kernel/syscall.c:275-287 | which reads fail, and the functions those on the terminal and the clock call |
| FileLaws.WriteCalls | kernel/syscall.c:296-309 | which writes fail, and the function each kind of descriptor calls |
| FileLaws.CloseCloses | kernel/syscall.c:377-391 | close closes that descriptor only and calls the close function of its kind, or fails |
| FileLaws.HaltClosesOneByOne | kernel/syscall.c:81-85 | a halt calls what a close of each descriptor would call, in order |
| FileLaws.GetArgsPuts | kernel/syscall.c:399-412 | getargs puts exactly the padded argument string into the buffer, or fails |
| FileLaws.ReadOfNoFile | fs/files.c:32-40 | a name without an entry, and an inode number out of range, read as -1 |
| Limits.AtMostSeven | kernel/syscall.c:183-199 | at most 7 processes live over all terminals, and execute finds no slot exactly when 7 do |
| Limits.NeverCallsNull | kernel/syscall.c:14-18 | no accepted read, write or close, and no close inside a halt, calls a NULL entry of an operations table |
| Limits.OpenTakesTheLowest | kernel/syscall.c:316-370 | open returns the least closed descriptor from 2 on, fails exactly when it must, and close undoes it |
| System.StdFilesAreFirst | kernel/syscall.c:234-241 | descriptors 0 and 1 of a live process, and no others, are the terminal |
| System.FreeSlotFrom | kernel/syscall.c:183-192 | the slot found is free and all slots before it are in use |
| System.FreeFd | kernel/syscall.c:336-337 | the descriptor found is closed and all before it are open |
| SlotMask.TakeSlot | kernel/syscall.c:183-199 | the shifting search sets the bit of the lowest clear slot of the mask and no other |
| SlotMask.FlipSlot | kernel/syscall.c:69-70 | the exclusive or frees a slot exactly when it was taken |
| SlotMask.SlotBitIs | kernel/syscall.c:121 | slot i has bit 0x80 shifted right by i |
| Command.SplitArgs | kernel/syscall.c:131-148 | the argument loop rejects names over 32 characters and otherwise leaves everything behind the first space in the buffer, or, when there is none, what the buffer held, cut where the unset length puts the terminator |
| Command.Strtok | lib/lib.c:329-354 | the first word up to a space, a newline or the end |
| Command.ScansFindTheFirst | lib/lib.c:329-354 | the places used in the two contracts above are the first separator characters |
| Command.CommandComesApart | kernel/syscall.c:131-151 | a name, a space and arguments come apart into just these; a newline ends a name too |
| Kernel.Kernel.constructor | kernel/syscall.c:4-12 | the state before the first execute represents the system in which nothing runs, with memory as it is |
| Kernel.Kernel.Execute | kernel/syscall.c:113-266 | execute does to mask, pointers, control blocks, page directory, esp0 and memory what the system's execute step says |
| Kernel.ParseCommand | kernel/syscall.c:131-151 | name and arguments of a command |
| Kernel.ReadHeader | kernel/syscall.c:160-168 | the first 32 bytes of a program over what the buffer held |
| Kernel.HasMagic | kernel/syscall.c:171-175 | the four magic bytes decide |
| Kernel.NamesClear | kernel/syscall.c:154-158 | names that start with clear take the shortcut |
| Kernel.InitPcb | kernel/syscall.c:207-249 | a new control block with the captured stack, the arguments, descriptors 0 and 1 open and the rest closed |
| Kernel.Kernel.Halt | kernel/syscall.c:27-106 | halt does what the system's halt step says, calls the close handlers of the open descriptors in order, and leaves all eight closed when the program has a caller |
| Kernel.Kernel.EndTop | kernel/syscall.c:67-97 | the slot is freed, the parent's page and kernel stack are installed and the chain is one shorter |
| Kernel.Kernel.CloseAll | kernel/syscall.c:72-85 | the closes of halt leave all eight descriptors closed and call exactly the handlers of those that were open |
| Kernel.Kernel.OpenFile | kernel/syscall.c:316-370 | open refines the system's open step |
| Kernel.Kernel.FirstClosedFd | kernel/syscall.c:335-337 | the search loop finds the least closed descriptor |
| Kernel.AttachFile | kernel/syscall.c:338-362 | the switch on the file type gives each type its table, position 0 and name |
| Kernel.Kernel.CloseFile | kernel/syscall.c:377-391 | close refines the system's close step |
| Kernel.Kernel.ReadFd | kernel/syscall.c:275-287 | read refines the system's read step, with the file position in the descriptor and the bytes in the process page |
| Kernel.Kernel.WriteFd | kernel/syscall.c:296-309 | write refines the system's write step |
| Kernel.Kernel.GetArgs | kernel/syscall.c:399-412 | getargs stores the argument string, padded, in the process page |
| Kernel.Kernel.UserStore | mm/paging.c:107-115 | a store of the running program through the page tables reaches its own frame or a video page, or faults |
| Kernel.Kernel.ContextSwitch | drivers/pit.c:88-136 | context_switch refines the system's switch step for both settings of the scheduler |
| Kernel.Kernel.FKeyPress | drivers/keyboard.c:381-422 | F1 to F3 refine the system's function-key step |
| Kernel.Kernel.PitHandleInterrupt | drivers/pit.c:32-86 | the timer interrupt refines the system's tick step |
| Kernel.Kernel.GetNextRunningTermProc | kernel/syscall.c:482-497 | the next terminal is the running one plus one modulo 3 |
| KernelRuns.Handle | kernel/syscall.c:27-412 | any one event keeps tables, hardware and memory in step with the system |
| KernelRuns.HandleAll | kernel/syscall.c:27-412 | any run of events takes the kernel where the system goes |
| KernelRuns.HealthyIsInstalled | kernel/syscall.c:87-97 | in a healthy state keyboard and CPU agree, entry 32 of the page directory holds the frame at 8 MB + 4 MB * slot of the running process and esp0 is 8 MB - 8 KB * slot - 4 |
| KernelRuns.BootAndRun | boot/kernel.c:223-226 | the kernel from its first state through the first shell and any run: it ends where the system does, and installed like that if no start of a shell fails |
| KernelTables.StacksAreDisjoint | include/lib/types.h:45-66 | esp0 of a slot lies in that slot's own 8 KB block, above the 488 bytes of its control block; blocks do not meet and lie in the kernel's 4 MB |
| KernelTables.HaltPointers | kernel/syscall.c:69-97 | prev_proc is the link of the current block, and both blocks are those of the two top processes |
| KernelTables.PushTables | kernel/syscall.c:246-249 | linking a block in keeps chains, pointers and mask in agreement with the stacks |
| KernelTables.PopTables | kernel/syscall.c:95-97 | unlinking a block and clearing its bit does too |
| KernelMemory.StoreInFrame | mm/paging.c:95-115 | bytes stored in the frame of one slot change that image only |
| KernelMemory.CopyProgramTo | fs/files.c:177-193 | loading a program changes the image of its slot only, and puts exactly the file there |
| Paging.PageTables.InitPaging | mm/paging.c:8-87 | the two tables after initialisation |
| Paging.PageTables.InitNewProcess | mm/paging.c:95-115 | maps the process page to the slot's frame and returns its base |
| Paging.PageTables.SwitchPd | mm/paging.c:122-141 | maps the process page back to a frame |
| Paging.PageTables.TranslationIs | mm/paging.c:8-141 | for every 32-bit address, in user and kernel mode: video pages and 4 to 8 MB map to themselves, 128 to 132 MB to the current frame, nothing else is mapped |
| Paging.AddressSpaceIsInjective | mm/paging.c:95-105 | no two mapped addresses share a byte |
| Paging.FramesAreDisjoint | mm/paging.c:98-105 | frames of different slots do not meet and lie above the kernel |
| Screen.ScreenIsWindow | lib/lib.c:210-289 | from a cleared screen, after any output and erasing, the screen is the 25-row window of an unbounded log, the cursor is at its end and all cells from there on are blank |
| Screen.RunShows | lib/lib.c:210-289 | the same from any screen and log that agree |
| Screen.CharShows | lib/lib.c:210-229 | a character is appended, also where the row wraps and the screen scrolls |
| Screen.BreakShows | lib/lib.c:243-273 | a line break pads the log to the next multiple of 80 |
| Screen.EraseShows | lib/lib.c:275-289 | erasing drops the last character of the log |
| Screen.WindowExactlyWhen | lib/lib.c:291-302 | a screen is the window of some log exactly when it is blank from the cursor on |
| Screen.EraseUndoes | lib/lib.c:275-289 | erasing undoes a character on the screen exactly when the character did not fill the last cell |
| Console.TypeKeepsInv | drivers/keyboard.c:204-224 | a typed character keeps line and screen in agreement on all terminals |
| Console.TypeSpells | lib/lib.c:210-229 | the cells before the cursor spell the longer line, across wraps and scrolls, because 1023 is less than 24 rows of 80 |
| Console.BackspaceKeepsInv | drivers/keyboard.c:247-253 | there is a cell before the cursor for every character of the line, so backspace never leaves the screen, and it keeps the agreement |
| Console.EnterKeepsInvExactlyWhen | drivers/keyboard.c:231-240 | Enter keeps all terminals in agreement exactly when the next terminal has no line |
| Console.EnterClobbers | drivers/keyboard.c:235-237 | otherwise the next terminal's line loses its first character |
| Console.ReadKeepsInvExactlyWhen | drivers/keyboard.c:122-140 | terminal_read keeps them in agreement exactly when the cells it takes reach no other line |
| Console.ReadDelivers | drivers/keyboard.c:122-140 | after Enter it delivers the line, cut or padded with NULs to nbytes + 1 bytes, and empties it |
| Console.WriteKeepsInv | drivers/keyboard.c:148-162 | terminal_write of a program on the active terminal keeps all terminals in agreement |
| ConsoleWrite.WriteKeepsInvExactlyWhen | drivers/keyboard.c:148-162 | terminal_write of a program on any terminal does exactly when that terminal is active or its screen already shows what the write adds to its line |
| Console.ClearsExactlyWhen | lib/lib.c:291-302 | clear_screen clears the active screen and nothing else exactly when the library's copy of the active terminal is fresh or both cursors are home |
| Console.ClearKeepsInvExactlyWhen | kernel/syscall.c:153-158 | the clear shortcut keeps line and screen in agreement exactly under the stated condition on lines and copy |
| Console.ResetKeepsInvExactlyWhen | drivers/keyboard.c:186-196 | reset_term does exactly when the copy is fresh or the terminal it names has no line |
| Console.CommandErasedIsGone | drivers/keyboard.c:164-170 | reset_curr_command empties the line and takes exactly its characters off the screen's log |
| ConsoleRuns.BackspaceIsPossible | drivers/keyboard.c:247-253 | where line and screen agree, backspace can always be pressed |
| ConsoleRuns.StepKeepsInvExactlyWhen | drivers/keyboard.c:312-422 | each event keeps the agreement exactly when it is gentle |
| ConsoleRuns.RunKeepsInvExactlyWhen | drivers/keyboard.c:312-422 | all states of a run agree exactly when all its events are gentle |
| ConsoleRuns.LineIsFold | drivers/keyboard.c:204-253 | over any interleaved run the line of a terminal is the fold of the keys pressed while it was active: push up to 1023, pop |
| ConsoleRuns.ReadReturnsTheEdits | drivers/keyboard.c:122-140 | a read returns the first nbytes + 1 bytes of that fold, padded with NULs, and the line is empty again |
| ConsoleRuns.TypingIsCut | drivers/keyboard.c:204-224 | a typed text is kept up to 1023 characters |
| ConsoleRuns.RunKeepsScreen | lib/lib.c:366-387 | the characters of a terminal stay over any run in which it is not active |
| ConsoleWrite.AcceptsAllExactlyWhen | drivers/keyboard.c:148-162 | a text is printed whole exactly when its last character finds a free cell |
| ConsoleWrite.ShortTextIsPrinted | drivers/keyboard.c:148-162 | from an empty line that is so for every text of at most 1023 bytes |
| ConsoleWrite.WriteShowsTheAccepted | drivers/keyboard.c:148-162 | what shows on the active screen is exactly the accepted prefix, as putc prints it, whichever terminal the writer runs on |
| ScreenLaws.OutputIs | lib/lib.c:210-289 | a character extends the log by itself, a break by blanks to the next multiple of 80, an erase drops one; the window follows the end of the text and no further |
| ScreenLaws.TopFollowsTheHighestRow | lib/lib.c:247-266 | the first visible row is always 24 above the highest row ever reached |
| ScreenLaws.PutcShows | lib/lib.c:210-229 | newline and carriage return break the line, every other byte takes a cell |
| ScreenLaws.KeyPrints | drivers/keyboard.c:204-224 | a key with room prints on the active screen only and joins the line unless it is a newline |
| ScreenLaws.KeyIgnored | drivers/keyboard.c:206-223 | without room, and for a NUL, nothing changes |
| ScreenLaws.BackspaceErases | drivers/keyboard.c:247-253 | backspace takes one character off line and log, and does nothing on an empty line |
| ScreenLaws.EnterReadies | drivers/keyboard.c:231-240 | Enter prints nothing, lets the line be read and clears exactly the cells up to one behind the row |
| ScreenLaws.ReadBreaksTheLine | drivers/keyboard.c:122-140 | a read breaks the line on the active screen, ends the line of the reader and clears exactly nbytes + 1 cells |
| ScreenLaws.WritePrints | drivers/keyboard.c:148-162 | a write prints the part with room on the active screen, ends the active line and grows that of a writer elsewhere |
| ScreenLaws.ClearBlanks | lib/lib.c:291-302 | clear_screen blanks the active screen, homes the cursor of the copied terminal and touches no line |
| ScreenLaws.ResetEmpties | drivers/keyboard.c:186-196 | reset_term clears the screen, the row and the count of the active terminal only |
| ScreenLaws.FKeyActivates | drivers/keyboard.c:381-422 | a function key changes the active terminal and nothing else |
| VideoMemory.ScrollUp | lib/lib.c:247-263 | the in-place scroll moves every row up, blanks the last and colours all cells |
| VideoMemory.BlankPage | lib/lib.c:291-296 | all 2000 cells blank and coloured, nothing else touched |
| VideoMemory.SetColor | lib/lib.c:359-364 | all attribute bytes get the colour, no character changes |
| VideoMemory.SwapPages | lib/lib.c:366-368 | the visible characters go to the page of the terminal that leaves, those of the one that comes become visible, the third page stays |
| Keyboard.Terminals.constructor | boot/kernel.c:223 | after the boot-time clear the three terminals are in agreement |
| Keyboard.Terminals.NewLine | lib/lib.c:243-273 | new_line refines the line break of the active screen |
| Keyboard.Terminals.Putc | lib/lib.c:210-229 | putc refines printing on the active screen |
| Keyboard.Terminals.DelLastChar | lib/lib.c:275-289 | del_last_char refines erasing on the active screen |
| Keyboard.Terminals.ClearScreen | lib/lib.c:291-302 | clear_screen blanks the visible page and moves the cursor of the copied terminal |
| Keyboard.Terminals.UpdateScreen | lib/lib.c:366-387 | afterwards memory holds the same three screens with the other one visible in its colour |
| Keyboard.Terminals.FKeyPress | drivers/keyboard.c:381-422 | F1 to F3 switch the visible terminal and keep all three screens |
| Keyboard.Terminals.AddCharToBuffer | drivers/keyboard.c:204-224 | add_char_to_buffer refines typing |
| Keyboard.Terminals.HandleBackspace | drivers/keyboard.c:247-253 | handle_backspace refines the backspace |
| Keyboard.Terminals.HandleEnter | drivers/keyboard.c:231-240 | handle_enter clears the rest of the row and one cell more |
| Keyboard.Terminals.ResetTerm | drivers/keyboard.c:186-196 | reset_term clears row, count and screen |
| Keyboard.Terminals.ResetCurrCommand | drivers/keyboard.c:164-170 | reset_curr_command backspaces until the line is empty |
| Keyboard.Terminals.TerminalRead | drivers/keyboard.c:122-140 | terminal_read hands out and clears nbytes + 1 cells, breaks the line and ends the line |
| Keyboard.Terminals.TerminalWrite | drivers/keyboard.c:148-162 | terminal_write adds the text, ends the active line and returns how much was accepted |
| KeyboardRuns.HandleAll | drivers/keyboard.c:312-422 | over any run the video page, the backing pages, the attributes and keyboard_buf are those of three separate screens and lines |
| KeyboardRuns.WhatMemoryHolds | lib/lib.c:359-387 | the characters of each screen are at the addresses of its page, and every visible attribute is red, green or yellow by the active terminal |
| KeyboardRuns.PrintAll | lib/lib.c:210-289 | any sequence of putc, new_line and del_last_char leaves the video page in memory a 25-row window of the log of all of it |
| KeyboardRuns.SwitchBackShowsTheSame | lib/lib.c:366-387 | away, any run elsewhere, and back: the visible page is byte for byte what it was |
| FileSystem.ReadBlocks | fs/files.c:126-169 | from any good block on, the pointer walk stores byte k of the file at place k up to the length, the end of the file and one byte more, or the first bad boundary, and returns the count, or -1 at that boundary |
| FileSystem.ReadData | fs/files.c:126-169 | read_data with its rejections, as one step over the flat file |
| FileSystem.PlaceIsStored | fs/files.c:137-164 | while the loop walks, the incremented pointer is where division and remainder put the place, inside the image |
| FileSystem.BlocksAreFlat | fs/files.c:126-169 | over good blocks the walk is a read of the flat file |
| FileSystem.ReadDentryByName | fs/files.c:73-97 | finds the first entry of the name; fails exactly when there is none |
| FileSystem.LookupFrom | fs/files.c:73-97 | the entry it means has the name and no earlier one does |
| FileSystem.AutocompleteCommand | fs/files.c:195-206 | the first entry whose name starts with the text |
| FileSystem.FsRead | fs/files.c:28-41 | fs_read adds the result of the read to the position, -1 included |
| FileSystem.CopyFileToAddr | fs/files.c:177-193 | exactly the bytes of the file arrive and no other byte changes; nothing arrives without an entry or with an inode number out of range |
| FileSystem.ReadsCompose | fs/files.c:28-41 | successive fs_read calls inside a file store what one read stores; results and position add up exactly unless they run up to the end of a file that ends on a bad block |
| FileSystem.DrainIsTheFileExactlyWhen | fs/files.c:142-169 | reading chunks from the start while read returns a positive count gives the file, and ends with 0, exactly when the chunk size divides the file size and the file is empty or does not end on a bad block |
| FileSystem.DrainGood | fs/files.c:149-151 | over a good file it gives the file or one byte more |
| FileSystem.DrainBad | fs/files.c:158-161 | over a file that ends on a bad block it loses the chunk that reaches the end and ends with -1 |
| FileSystem.DirRead | fs/files.c:246-261 | dir_read gives the next name, or nothing and starts over |
| FileSystem.ListIsComplete | fs/files.c:246-261 | one read more than there are entries lists every name in order and leaves the position at 0 |
| CStrings.Strlen | lib/lib.c:459-465 | the number of characters before the first NUL |
| CStrings.Strncmp | lib/lib.c:657-673 | zero exactly when the strings agree on n characters, else the signed difference where they part |
| CStrings.Strcpy | lib/lib.c:683-692 | the string and its NUL, nothing else |
| CStrings.Strncpy | lib/lib.c:702-715 | exactly n bytes: characters, then NULs |
| CStrings.PaddedReadsBack | lib/lib.c:702-715 | a copy of n bytes reads back as the string exactly when the string is shorter than n |
| CStrings.PaddedAt | lib/lib.c:702-715 | byte by byte such a copy is the characters, then NULs |
| MemoryCopy.Memcpy | lib/lib.c:572-610 | exactly n bytes arrive for every alignment, nothing else changes |
| MemoryCopy.Memmove | lib/lib.c:622-641 | the destination gets the original source for every length and overlap, nothing else changes |
| MemoryCopy.CopyIsStored | lib/lib.c:622-641 | that contract determines memory after the copy |
| Numbers.Itoa | lib/lib.c:398-429 | the digits of the value, highest first, and a NUL |
| Numbers.Strrev | lib/lib.c:437-451 | the string is reversed in place |
| Numbers.ReversedLowFirst | lib/lib.c:414-428 | the digits found lowest first, reversed, are the digits of the number |
| Numbers.DigitsReadBack | lib/lib.c:398-429 | parsing the digits gives the number back, for radix 2 to 36 |
| Numbers.DigitAtPlace | lib/lib.c:399-419 | the character at each place is that of the lookup table 0 to 9, A to Z for the digit of that place |
| Numbers.DigitIsLookup | lib/lib.c:399 | digits are the characters of that table, and parsing looks them up there |
| Numbers.SignAndZero | lib/lib.c:117-147 | the sign is a minus and the padding of %#x is the character 0 |
| Numbers.NoLeadingZero | lib/lib.c:398-412 | a leading zero exactly for zero itself |
| Numbers.DigitCount | lib/lib.c:414-422 | n digits are enough exactly below the n-th power of the radix |
| Numbers.AtMost32Digits | lib/lib.c:398-429 | at most 32 digits for every 32-bit number and radix |
| Numbers.DigitsAreDistinct | lib/lib.c:398-429 | no two numbers print alike |
| Numbers.PrintUnsigned | lib/lib.c:131-139 | %u and %x print the digits |
| Numbers.PrintSigned | lib/lib.c:141-155 | %d prints a minus sign and the digits of the negated value |
| Numbers.DecimalReadsBack | lib/lib.c:141-155 | %d reads back for every 32-bit value |
| Numbers.PrintAlternateHex | lib/lib.c:110-128 | %#x prints the digits behind as many zeros as are missing to eight |
| Numbers.AlternateHexReadsBack | lib/lib.c:110-128 | that is exactly eight digits, and they denote the value |

## Left out

- Port I/O and devices: cursor ports, interrupt controller, keyboard LEDs, sound, speaker, RTC hardware and the mouse, which draws over video memory; runs are without mouse packets.
- Boot, GDT and IDT setup, `jmp_usr_exec`, control registers and the TLB: page tables take effect at once and entering user code is an outcome.
- Interrupt flags: handlers run as one step. Some error returns leave interrupts off, which the model does not show. `terminal_read` waits for Enter; here it is called once Enter was pressed.
- Scancodes, modifiers and the 0xE0 prefix: printable keys, backspace, Enter, Ctrl-L and the function keys are the inputs. Ctrl-C is a halt like any other. `handle_tab` passes a buffer of 32-bit cells as a string and is not modelled; `terminal_open` is never called.
- `sbrk`, `vidmap`, `set_handler`, `sigreturn`, `get_inode` and the inode pointer of a descriptor, which nothing reads; the other conversions of printf.
- A key, a function key or a tick has a screen part (Keyboard) and a process part (Kernel); the two classes are separate and share no state here. The screen update of a tick that starts a shell, and the messages execute prints, are not modelled.
- Kernel.Kernel.Execute: what lies on the kernel stack (the header buffer, the argument buffer, the unset command length) is a parameter. p_ksp and p_sched_ksp are captured as one value, since nothing between the two moves the stack. It requires what the fixed buffers and pages require without the source checking it: the command does not start with a space, the name is at most 31 characters and the argument string at most 63, the program fits behind its load address in the 4 MB page.
- Command.SplitArgs: a terminator that the unset length puts outside the argument buffer goes elsewhere on the kernel stack, which is not modelled.
- Kernel.Kernel.OpenFile: the file name copied into a descriptor is taken to fit, and bytes behind its NUL are not kept.
- Kernel.Kernel.ReadFd: user buffers lie in the page of their process, as the source takes for granted. RTC, terminal and close handlers are named by the outcome, not run.
- Kernel.Kernel.GetArgs: the buffer lies in the page of the process, as in a read.
- FileSystem.ReadBlocks: requires that the block the read starts in is good, which the source does not check, and that the block list has room for the block behind the file.
- FileSystem.ReadData: requires that all blocks of a file up to its last byte are good, and names in the directory end with a NUL within 32 bytes.
- Console.EnterKeepsInvExactlyWhen: on the third terminal Enter writes behind keyboard_buf; the model has one spare cell there and does not say what else that cell is.
- Console.ReadKeepsInvExactlyWhen: reads that run past the end of the whole array, and that cell, are excluded by CanRead.
- Keyboard.Terminals.TerminalRead: the same reads are excluded.
- ConsoleRuns.LineIsFold: in runs, reads and writes come from a program on the active terminal, which Health proves to be the running one without the scheduler; Keyboard.Terminals.TerminalRead and TerminalWrite take any running terminal.
- Keyboard.Terminals.DelLastChar: requires a cell before the cursor; at the top left the source writes below the video page. Console.BackspaceKeepsInv shows that backspace never comes there.
- MemoryCopy.Memcpy: requires that the destination does not start inside the source, as C does; memmove has no such condition.
- Numbers.PrintSigned: negation wraps in 32 bits, which C leaves undefined for the least number.
