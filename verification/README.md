# FrogOS2: a Dafny model of the kernel's algorithms

FrogOS2 is a small x86-64 kernel. This project models the parts of it that have interesting state or
arithmetic, and proves what they are for.

* **Scheduler.** `Scheduler.dfy` is a transition system over a process table, a FIFO run queue, one
  interrupt frame and the open sleep calls. Its steps are a timer tick, register changes by the running
  code, the sleep and yield system calls, and process creation. Lemmas about every run of these steps
  say who owns the CPU and who is queued (`Ownership.dfy`), how long anybody waits (`Waiting.dfy`),
  that no process sees another's registers (`Isolation.dfy`), which process runs at tick t
  (`RoundRobin.dfy`) and what a sleep call guarantees (`SleepCalls.dfy`); `StepLaws.dfy` says of each
  single step who runs and waits after it, whose counter rises, and what else changes. `Kernel.dfy` is the
  imperative code: class `System` with the ring buffer (`RunQueue.dfy`), the table, the saved register
  areas at their addresses and the heap (`Heap.dfy`). Each of its methods takes the abstract state by
  exactly one step, so the lemmas hold of it. `SleepQueue.dfy` is the sleep queue with its sort.
* **printf.** `Printf.dfy` holds the loops of lib/printf.c over a sink object, the 32-character digit
  buffer and the format string. Their contracts are given by functions on text: `Digits.dfy`
  (numerals), `Conversions.dfy` (one field, beside the field ISO C99 section 7.19.6.1 describes) and
  `Formats.dfy` (reading a directive, one turn of the loop, the whole output). `FormatLaws.dfy`
  describes formats as lists of directives and proves the code recovers each directive;
  `FormatGrammar.dfy` shows that this covers every string, up to a directive that breaks off; and
  `StandardFormats.dfy` says what the standard prints for a directive and its arguments, independently
  of how the code reads them, and exactly when the code prints the same. `Specifiers.dfy` says of
  formats as they are written what each specifier, flag, width and precision prints. What goes to the screen goes
  through the terminal model.
* **Terminal** (`Terminal.dfy`): the 80x25 screen as a window onto a transcript that never scrolls.
* **Arithmetic** (`Division.dfy`, `Generator.dfy`): shift-subtract division and the congruential
  generator.
* **Storage** (`FreeLists.dfy`, `ElfLoader.dfy`): the free lists of a new file system, over its bytes,
  and the loader of the kernel's ELF segments, over memory. `Memory.dfy` is the string move both the
  terminal and the loader use.

`Machine.dfy` has the integer types, `Arithmetic.dfy` general facts about remainders and counting.

## Where the code departs from what one would expect

Each of these is stated by a lemma or a contract, with the exact condition where there is one.

* `#` makes `_ntoa_format` drop digits when the width equals the number of digits; `-` makes it skip the
  zeros a precision asks for; a precision of 32 or more does not fit the buffer; the octal zero with
  `#` and precision 0 prints nothing. `Conversions.Agrees` is the exact condition for the field to be the
  standard's, over all flags (`MeetsC99Exactly`).
* A negative `*` precision is to be taken as omitted; the code takes it for precision 0, which loses
  the number 0, whole strings, and the padding with zeros. Widths and precisions of 2^32 and more are
  cut to 32 bits, and so is the length of a string. `StandardFormats.ItemMeetsC99Exactly` has the exact
  condition on a directive and its arguments for all of this together; `NegativePrecisionLosesZero`,
  `NegativePrecisionLosesText` and `WideFieldsAreCut` are inputs that fail.
* A format that ends inside a directive makes the code step over the terminator, and no other format
  does (`FormatGrammar.StopsAtTerminatorExactly`).
* The early exit of `sleep_process` is taken when the caller is the minimum, which leaves it behind
  later sleepers (`SleepQueue.UnsortedExactly`).
* Requeueing the caller, in the sleep loop or in yield, keeps the run queue sound only if the caller is
  RUNNING (`Ownership.RequeueSafeExactly`); a second yield before the next tick queues the caller twice
  (`DoubleYieldBreaks`).
* The conversion of milliseconds to ticks wraps for the last nine values (`SleepCalls.RoundsUpExactly`),
  and for requests so long that ten times the longest possible wait exceeds 64 bits the reported time
  may wrap to almost nothing (`ReportCoversRequestExactly`, `LongSleepMisreports`).
* Rounding a request up to 8 bytes wraps to zero for the last seven sizes (`Heap.TakenCoversExactly`).
* The 128th entry makes a ring of 128 slots read as empty (`RunQueue.Ring.Add`).
* mkfs links inode nodes 16 bytes apart although an `inode_t` has 32, so the list takes only half of the
  inode blocks (`FreeLists.NodesAtHalfStride`). Its lists are still complete, from 5 blocks on for the inodes and from 7 for the data.
* The segment loader clears and fills segments in table order, so where they overlap the last one wins,
  and a file part longer than the memory part is copied whole (`ElfLoader.LoadKernel`).

## Model

| member | source | states |
|---|---|---|
| Scheduler.StepKeepsInv | process.c:24-95 | Every step keeps the invariant: pids distinct in the queue, idle never queued, a process queued exactly when READY and otherwise current and RUNNING with 1 to 100 ticks left, charged ticks equal to ticks less one, sleep calls true to the clock |
| Scheduler.RunKeepsInv | process.c:56-95 | The invariant survives every run of ticks, register changes, sleep and yield calls and creations |
| Scheduler.TickKeepsInv | pit.c:9-14 | A timer interrupt keeps the invariant, creates nobody, and never hands the CPU back to idle |
| Scheduler.RunCountsTicks | pit.c:10 | The clock of a run is the number of its timer interrupts |
| Scheduler.BootInv | process.c:127-134 | The state with only the idle process, taken off the queue, meets the invariant |
| Scheduler.ReachableInv | process.c:127-138 | Every state reachable from boot meets the invariant |
| Ownership.QueueFits | process.c:15-17 | At most 127 pids are ever queued, 126 while a process runs: the ring's usable slots are enough, by counting distinct non-idle pids |
| Ownership.EveryProcessHasOnePlace | process.c:75-95 | In every reachable state each non-idle process is RUNNING on the CPU or in the queue exactly once, never both and never neither; idle is not queued |
| Ownership.TicksAreConserved | process.c:76-78 | The total_ticks of all processes add up to the number of ticks less one |
| Ownership.RequeueSafeExactly | syscall.c:40-41 | Marking the caller READY and queueing it keeps the invariant if and only if it was RUNNING |
| Ownership.DoubleYieldBreaks | syscall.c:57-61 | Two requeues of a RUNNING caller without a tick between them break the invariant |
| Ownership.IdleNeverReturns | process.c:81-94 | After a non-idle process has run, idle never gets the CPU again |
| Waiting.MeasureBound | process.c:56-95 | A queued process has a measure between 1 and 100 for each process up to and including itself |
| Waiting.TickLowersMeasure | process.c:75-95 | Every tick lowers the measure of every queued process by exactly one, and at zero that tick dispatches it |
| Waiting.OtherStepsKeepMeasure | syscall.c:34-48 | No other step removes a process from the queue or raises its measure |
| Waiting.BoundedWaiting | process.c:56-95 | In every run with enough ticks the process at position k of the queue is dispatched within 100*(k+1) ticks, its sleep call untouched |
| Isolation.ScheduleKeepsRegisters | process.c:65-95 | A scheduling decision changes nobody's registers, also when a process is switched to itself |
| Isolation.StepIsolated | process.c:65-73 | One step changes the registers of a process only by that process's own register step |
| Isolation.EveryProcessHasItsOwnCpu | process.c:65-95 | Over every run the registers of each process are what its own steps alone make of them: one frame and the saved areas refine one CPU per process |
| Isolation.ResumedWithSameFrame | process.c:66-69 | A process that was switched out and is resumed later finds exactly the frame it left |
| RoundRobin.RotationTurns | process.c:87-90 | Moving the head of the rotation to its end is the rotation of the next time slice, across the wraparound |
| RoundRobin.ClosedForm | process.c:75-95 | With n CPU-bound processes the current pid after tick t of at least 2 is 1 + ((t-2)/100) mod n, for every n from 1 to 127 and every t |
| RoundRobin.SetupStarts | process.c:127-138 | Any 1 to 127 creations after boot lead to a state from which the closed form runs |
| StepLaws.TickDecides | process.c:75-95 | After a tick the CPU belongs to idle (the first tick), to the process that keeps it with one tick less, or to the head of the queue with 100 ticks, the old owner behind the others if its slice is over |
| StepLaws.TickFrames | pit.c:9-14 | The clock is one further, sleep calls stay, and so do all processes that neither leave nor get the CPU |
| StepLaws.ChargedToTheOwner | process.c:76-78 | Over every run the counter of each process rises by exactly the ticks that found it on the CPU |
| StepLaws.SleeperGivesWay | syscall.c:39-43 | The loop body of sleep puts the caller READY behind everybody who waits, and the very next tick gives the CPU to the first of them, or back to the caller with a whole slice if nobody waits |
| StepLaws.YieldGivesWay | syscall.c:57-61 | The same for yield |
| StepLaws.SleepBegins | syscall.c:35-36 | The call notes clock, ticks and request; nothing else changes |
| StepLaws.SleepReturns | syscall.c:45 | The call returns its report in rax and the ticks asked for in rdi; no other register and nothing else changes |
| StepLaws.SleepArithmetic | syscall.c:36-45 | The ticks are (ms+9)/10 and the report ten times the ticks waited, each in 64 bits |
| StepLaws.TestAndComputeTouchLittle | syscall.c:38 | The loop test changes nothing but the call, computing nothing but the frame |
| StepLaws.InitialRegisters | process.c:39-50 | A new process starts at its entry with its pid in rdi, the top of its stack in rsp, flags 0x202, segments 0x08 and 0x10 or 0x2b and 0x23, and zero in every other register |
| StepLaws.CreationAdds | process.c:31-54 | A creation adds the next pid, READY, uncharged and at the end of the queue, and changes nothing else |
| StepLaws.BootState | process.c:127-134 | After the idle process has been taken off the queue it alone exists and nobody runs |
| SleepCalls.RoundsUpExactly | syscall.c:36 | The ticks to wait are the milliseconds over ten rounded up if and only if the request is at most 2^64-10 |
| SleepCalls.NoEarlyReturn | syscall.c:38-45 | A sleep that returns has lasted at least the rounded-up ticks, however often the 64-bit counter wrapped |
| SleepCalls.WakesOnTime | syscall.c:34-48 | At most 100 ticks per non-idle process after its deadline a sleeper owns the CPU and its call may return, or finish a loop body it entered before the deadline |
| SleepCalls.LateBodyCostsOneRound | syscall.c:38-44 | A sleeper preempted between loop test and loop body across its deadline may return at most 100 ticks per non-idle process after it has run that body |
| SleepCalls.SleepGuarantee | syscall.c:34-48 | From the call on: in every run with enough ticks the caller owns the CPU again and may go on, having waited no less than the rounded-up ticks and at most 100 ticks per non-idle process more; what it then returns covers the request unless that longest wait could wrap |
| SleepCalls.ReportCoversRequestExactly | syscall.c:45 | With n non-idle processes, all returns at most 100 n ticks late, in all reachable states, report at least the requested time if and only if 10 times (the rounded-up ticks + 100 n) fits in 64 bits |
| SleepCalls.LongSleepMisreports | syscall.c:45 | A reachable state in which a sleep of 2^64-10 ms may return and reports 4 ms |
| Kernel.AreasFitAndNeverOverlap | include/process.h:6-12 | The register areas and stacks of all 128 processes are 8-aligned, disjoint and inside the heap, behind the IRQ handler node |
| Kernel.System.constructor | pit.c:16-24 | The zeroed globals and a heap with one handler node taken stand for the empty abstract state |
| Kernel.System.AddToRunQueue | process.c:24-27 | The ring, read from head to tail, gains the pid at its end, and would read as empty after the 128th |
| Kernel.System.GetNextPid | process.c:56-63 | The oldest pid leaves the ring; an empty ring gives 0 and stays as it is |
| Kernel.System.InitContext | process.c:38-50 | The area and the stack of a new process are where the address plan puts them and the area holds the initial registers, others untouched |
| Kernel.System.ProcessCreate | process.c:31-54 | The k-th creation gets pid k, areas of its own from the heap, and a place at the end of the queue |
| Kernel.System.StartProcess | process.c:65-73 | The frame is saved to the old process and loaded from the new one as in the abstract switch |
| Kernel.System.ScheduleProcess | process.c:75-95 | The decision over ring, table and saved areas is the abstract one |
| Kernel.System.SetupProcess | process.c:127-138 | The set-up code arrives at the state of boot followed by four creations |
| Kernel.System.PitHandler | pit.c:9-14 | A timer interrupt is one tick step and keeps the refinement |
| Kernel.System.Compute | include/process.h:6-12 | The running code may change the frame to anything; the refinement holds |
| Kernel.System.BeginSleep | syscall.c:34-36 | Entering the call records the clock and the ticks as the abstract step does |
| Kernel.System.TestSleep | syscall.c:38 | The loop test, on the wrapping counter, comes out as the abstract one; if it fails the call may return |
| Kernel.System.PollSleep | syscall.c:39-43 | The loop body with interrupts disabled is one abstract requeue, however many ticks after the test |
| Kernel.System.FinishSleep | syscall.c:45-48 | The call returns ten times the ticks waited, in 64 bits, in the caller's frame |
| Kernel.System.Yield | syscall.c:57-61 | Yield by a RUNNING process is one abstract requeue |
| RunQueue.Ring.Add | process.c:24-27 | The contents gain the pid while fewer than 127 wait; one more empties the ring |
| RunQueue.Ring.Next | process.c:56-63 | First in, first out; 0 from an empty ring |
| SleepQueue.WakesBefore | process.c:106-111 | The circular search finds whether any sleeper has less time than the caller |
| SleepQueue.SortRing | process.c:113-121 | The exchange sort terminates and leaves the same entries in ascending order at every ring position |
| SleepQueue.SleepProcess | process.c:97-122 | The queue keeps its old entries and the caller; ascending if somebody has less time than the caller, otherwise the caller is last; with 127 entries already in it the ring reads as empty |
| SleepQueue.OnlyTheCallerSleeps | process.c:99-100 | The caller's entry gets the time and the state SLEEPING and keeps the rest; other entries stay |
| SleepQueue.EarlyExitExactly | process.c:106-112 | The sort is left out if and only if nobody in the queue has less time than the caller |
| SleepQueue.UnsortedExactly | process.c:106-112 | When the early exit is taken, the queue is ascending if and only if all times are equal |
| Heap.TakenCoversExactly | mem.c:9-11 | The rounded size covers the request if and only if the request is at most 2^64-8, and then by less than 8 bytes more |
| Heap.Allocator.Malloc | mem.c:6-20 | Blocks are 8-aligned and consecutive, start plus remaining size is constant, and null comes back exactly for size 0 or too little space |
| Division.LeftJustify | lib/gcc.c:12-16 | The shifted divisor is the divisor times the quotient bit, with its top bit set and no bit lost |
| Division.UDivMod | lib/gcc.c:2-31 | Quotient and remainder for all 64-bit operands, and the trap exactly for divisor 0 |
| Generator.SeedInRange | init.c:20 | The seed stays in 0..2^30-1 |
| Generator.SeedRecurrence | init.c:13-20 | Each seed is 1103515245 times the one before plus 12345, modulo 2^30 |
| Generator.NoOverflow | init.c:20 | The product and sum stay within 64-bit signed range |
| Generator.GeometricHalves | init.c:13-15 | For multipliers that are 1 mod 4, a sum of n powers is divisible by exactly the powers of two that divide n |
| Generator.ReturnsExactly | init.c:19-20 | n rounds return to the seed if and only if 2^30 divides n |
| Generator.NoRepeat | init.c:19-20 | Two rounds hold the same seed if and only if they are a multiple of 2^30 apart |
| Generator.FullPeriod | init.c:19-20 | From every seed every residue appears within 2^30 rounds |
| Generator.UserTask | init.c:17-25 | The seeds start at 1000*pid + 42000 and follow the recurrence; the requests are the later ones modulo 10000, in order |
| Memory.RepMovsb | lib/memcpy.c:3-7 | The upward byte copy delivers the old source bytes whenever the target lies below the source or behind it, overlapping or not; into a target that begins inside the source it repeats the bytes in between |
| Terminal.ScrolledUp | lib/conio.c:33-45 | Bytes moved up one row with a blank row below show the transcript one row further down |
| Terminal.Console.MemSetW | lib/memset.c:9-13 | Exactly the given cells get the word |
| Terminal.Console.Cls | lib/conio.c:16-21 | Every cell holds the bytes 0 and 0x0f, the cursor is at the origin, and the screen shows the start of a transcript |
| Terminal.Console.Scroll | lib/conio.c:24-46 | A cursor below the last row moves the window down one row of the transcript |
| Terminal.Console.Putch | lib/conio.c:50-102 | Each character does to the screen what it does to the transcript; the screen stays rows max(0,Y-24) onward and the cursor inside it |
| Terminal.Console.Puts | lib/conio.c:105-113 | The same for strings |
| Terminal.ControlBytes | lib/conio.c:55-79 | Newline goes to the start of the next row, return to the start of this one, tab to the next multiple of 8 or the next row, backspace one back but not below 0, other bytes below 0x20 nowhere; no cell already there changes and new rows are spaces in colour 0x0f |
| Terminal.PrintableBytes | lib/conio.c:84-97 | A byte from 0x20 up stands at the cursor in colour 0x0f, no other cell changes, and the cursor is one further or at the start of the next row |
| Terminal.FreshIsCleared | lib/conio.c:16-21 | The transcript starts with 25 rows of NULs in colour 0x0f and the cursor at its origin |
| Terminal.ShownInBytes | lib/conio.c:86-87 | A row of the screen is 160 bytes of video memory, byte and attribute in turn |
| Terminal.LinesStandInRows | lib/conio.c:75-97 | Lines of printable text shorter than 80, joined by newlines, stand in rows: character j of line i at row i, column j |
| Terminal.PlainTextFlows | lib/conio.c:84-97 | Printable text of any length fills the transcript in reading order, 80 to a row |
| FreeLists.Write32 | fs/mkfs.c:37 | A little-endian word is written and reads back, nothing else changes |
| FreeLists.NodesAtHalfStride | fs/fs.h:11-23 | Free node k starts where inode k does only for k = 0, node 2k where inode k does, and the last node ends in the middle of the inode blocks |
| FreeLists.LittleEndian | fs/fs.h:2-9 | 16-bit and 32-bit words are little-endian bytes |
| FreeLists.SuperblockLayout | fs/fs.h:2-9 | The packed superblock has its fields at 0, 4, 6, 10, 14 and 18: number of blocks, 128 inodes, 2, 6, 1 and 6 |
| FreeLists.InodeWords | fs/mkfs.c:35-39 | In a complete inode list the word at 2048 + 16k is k+1 for k from 1 to 126 and -1 for 127 |
| FreeLists.DataWords | fs/mkfs.c:41-45 | In a complete data list the word at the start of block k is k+1, and -1 in the last block |
| FreeLists.PointUpIsChain | fs/mkfs.c:36-39 | Nodes that name their successor and end in -1 are a list that visits each exactly once |
| FreeLists.ChainPointsUp | fs/mkfs.c:36-39 | Conversely such a list needs every node to name its successor |
| FreeLists.LinkInodes | fs/mkfs.c:35-39 | Inode nodes 1..127 are linked, 16 bytes apart, and the superblock is kept |
| FreeLists.LinkData | fs/mkfs.c:41-45 | Data blocks are linked up to the last, superblock and inode nodes kept |
| FreeLists.InodeListExactly | fs/mkfs.c:32-39 | The inode list is complete if and only if there are at least 5 blocks |
| FreeLists.DataListExactly | fs/mkfs.c:33-45 | The data list is complete if and only if there are at least 7 blocks |
| FreeLists.MakeFileSystem | fs/mkfs.c:27-45 | For every volume of 4 to 2^31 blocks: the superblock, and both lists complete under exactly these conditions |
| ElfLoader.Clear | stage2.asm:151-153 | The given bytes become zero, no others change |
| ElfLoader.ProcessHeader | stage2.asm:137-168 | A PT_LOAD entry makes its target file bytes followed by zeros; other entries do nothing; the file image stays |
| ElfLoader.LoadKernel | stage2.asm:107-124 | After the table every byte is what the last segment covering it says, or what it was |
| ElfLoader.FileLayout | stage2.asm:32-58 | The table's offset, entry size and count are the little-endian numbers at 0x20, 0x36 and 0x38 of the file at 0x402000; type, offset, physical address, file and memory size are at 0, 8, 24, 32 and 40 of an entry |
| ElfLoader.CoversExactly | stage2.asm:143-161 | An entry is about a byte if and only if its type is 1 and the byte lies within the larger of its two sizes from its physical address |
| ElfLoader.EntryDecides | stage2.asm:143-161 | An entry leaves bytes it does not cover, and makes the others file bytes followed by zeros |
| ElfLoader.UncoveredUnchanged | stage2.asm:121-124 | A byte no segment covers is unchanged |
| ElfLoader.SegmentsLoaded | stage2.asm:121-161 | With disjoint segments every segment holds its file bytes followed by zeros at the end |
| Digits.DigitsAreThese | lib/printf.c:297-298 | The sixteen digits are 0123456789abcdef, or 0123456789ABCDEF, and stand for 0 to 15; the first ten are decimal |
| Digits.NumeralReadsBack | lib/printf.c:296-300 | Digits read in their base give the number, in every base from 2 to 16 |
| Digits.NumeralLeads | lib/printf.c:296-300 | Only zero starts with the digit zero |
| Digits.LowDigitsReadBack | lib/printf.c:296-300 | Digits cut off after n read back as the number modulo base^n |
| Digits.NumeralFits | lib/printf.c:284-304 | In bases 8, 10 and 16 all digits of a 64-bit number fit the 32-character buffer, 22 at most |
| Conversions.PlainExactly | lib/printf.c:230-280 | Without # the field is the standard's if and only if PlainAgrees |
| Conversions.OctalExactly | lib/printf.c:246-265 | With # and base 8, for nonzero values, if and only if OctalAgrees |
| Conversions.HexExactly | lib/printf.c:246-265 | With # and base 16, for nonzero values, if and only if HexAgrees |
| Conversions.OctalZeroMissing | lib/printf.c:289-301 | The octal zero with # and precision 0 is never the standard's field |
| Conversions.ZeroHash | lib/printf.c:289-303 | With # and value 0 the field is the standard's if and only if Agrees |
| Conversions.PlainLeftText | lib/printf.c:232-233 | With - and no # the text is sign, digits and spaces, whatever the precision |
| Conversions.LongPrecision | lib/printf.c:237-239 | A precision of 32 or more gives 32 characters of zeros and digits and no sign |
| Conversions.LeftText | lib/printf.c:245-265 | With #, - and a precision the text is prefix, digits and spaces |
| Conversions.OctalPrecisionText | lib/printf.c:237-264 | With #, base 8 and a precision beyond the digits there is one zero more than the precision, as far as 32 characters hold it |
| Conversions.HexOverflowText | lib/printf.c:253-264 | With #, base 16 and a precision of 31 or more the prefix loses its 0, or is missing |
| Conversions.MeetsC99Exactly | lib/printf.c:230-304 | For all values, signs, bases 8, 10 and 16, widths, precisions and flags the field is the one of ISO C99 section 7.19.6.1 if and only if Agrees |
| Formats.OutputTurn | lib/printf.c:590-853 | The output is the first turn's text followed by the output of what that turn leaves |
| FormatLaws.HeadRead | lib/printf.c:604-683 | Flags, width, precision and length modifier, written out, are read back, and the star arguments consumed |
| FormatLaws.ItemPrints | lib/printf.c:590-853 | A directive is one turn of the loop that takes exactly its own arguments |
| FormatLaws.FormatPrints | lib/printf.c:590-853 | A well-formed format prints the texts of its directives in order and hands the rest of format and arguments on |
| FormatLaws.FormatPrintsAll | lib/printf.c:590-853 | A whole well-formed format ends at its terminator without fault |
| FormatLaws.FormatsCompose | lib/printf.c:580-860 | The concatenation of two formats with their arguments prints the concatenation of their outputs |
| FormatLaws.UnfinishedFaults | lib/printf.c:848-850 | A format followed by a directive that breaks off anywhere before its specifier steps over its terminator |
| FormatGrammar.PastFormatExactly | lib/printf.c:590-853 | Unless arguments are missing, the terminator is stepped over if and only if some percent sign has no specifier |
| FormatGrammar.FinishesExactly | lib/printf.c:590-853 | Every string is either a sequence of whole directives, known specifier or not, or such a sequence with a directive that breaks off, and never both |
| FormatGrammar.StopsAtTerminatorExactly | lib/printf.c:590-853 | Unless arguments are missing, the first kind prints and stops at the terminator and the second steps over it, both if and only if |
| FormatGrammar.ArgumentsExist | lib/printf.c:590-853 | For every format there are arguments none of which it finds missing or of the wrong kind |
| FormatLaws.DoubledPrintsItself | lib/printf.c:843-846 | Any string with its percent signs doubled prints as itself |
| FormatLaws.MagnitudeIsAbsolute | lib/printf.c:725-756 | The magnitude passed on is the absolute value at every size, least values included |
| FormatLaws.IntegerMeetsC99Exactly | lib/printf.c:709-759 | With flags, width and precision already read, an integer conversion prints the standard's field if and only if Agrees holds of the flags passed on |
| FormatLaws.StringMeetsC99Exactly | lib/printf.c:799-823 | With flags, width and precision already read, a string conversion pads as the standard says if and only if a precision was read, or the string is shorter than 2^32, or the width is at most its length modulo 2^32 |
| StandardFormats.StandsForExactly | lib/printf.c:725-756 | The value of an argument is the one number of the modifier's bits (8, 16, 32 or 64, signed or not) that differs from the argument word by a multiple of 2^bits |
| StandardFormats.CodeConverts | lib/printf.c:649-756 | The code converts that value, for every modifier and specifier |
| StandardFormats.TableOfSpecifiers | lib/printf.c:694-722 | Base, letter case and the flags that count, specifier by specifier, are those of the standard |
| StandardFormats.IntegerExactly | lib/printf.c:617-759 | An integer directive with its arguments prints the standard's field if and only if the width is below 2^32 and, for a negative star precision, the number is not 0 and no zeros are due as padding, and otherwise Agrees holds of the precision and width given |
| StandardFormats.StringExactly | lib/printf.c:617-647 | A string directive prints the standard's field if and only if nothing is cut off and the padding is right in 32 bits, or what is cut off cannot be told from the padding |
| StandardFormats.CharExactly | lib/printf.c:779-797 | A character directive prints the standard's field if and only if the width is below 2^32 |
| StandardFormats.ItemMeetsC99Exactly | lib/printf.c:604-853 | For every directive the standard describes and all fitting arguments, the code prints what the standard does if and only if the three conditions above hold |
| StandardFormats.FormatMeetsC99 | lib/printf.c:580-860 | A format all of whose directives meet the condition prints what the standard describes |
| StandardFormats.NegativePrecisionLosesZero | lib/printf.c:642-646 | "%.*d" with -1 and 0 prints nothing where the standard has 0 |
| StandardFormats.NegativePrecisionLosesText | lib/printf.c:642-646 | "%.*s" with -1 and "abc" prints nothing where the standard has abc |
| StandardFormats.WideFieldsAreCut | lib/printf.c:618-621 | Every decimal width of 2^32 or more is printed wrongly |
| FormatLaws.SignedPrints | lib/printf.c:725-741 | A plain signed conversion prints sign and digits of the number read from its argument, least values included; StandardFormats.CodeConverts and StandsForExactly say which number that is |
| FormatLaws.SignedReadsBack | lib/printf.c:725-741 | Sign and digits read back as the value in two's complement modulo 2^32 |
| FormatLaws.UnsignedReadsBack | lib/printf.c:191-198 | The decimal digits of any number are read to their end and give it modulo 2^32 |
| Specifiers.IntegersPrint | lib/printf.c:649-759 | For each modifier as written (hh, h, none, l, ll, j, z, t) and each of d, i, u, o, x, X, the whole format prints sign and digits of the one number of 8, 16, 32 or 64 bits the argument stands for, in base 10, 8 or 16 |
| Specifiers.SignFlagsPrint | lib/printf.c:268-276 | + and space print themselves before a number that is not negative |
| Specifiers.WidthsPrint | lib/printf.c:202-243 | A width pads with spaces before the number, with - behind it, with 0 by zeros between sign and digits |
| Specifiers.PrecisionsPrint | lib/printf.c:236-239 | A precision prints zeros behind the sign up to that many digits |
| Specifiers.HashPrints | lib/printf.c:245-265 | # prints 0, 0x or 0X before the digits of a number that is not 0 |
| Specifiers.BinaryText | lib/printf.c:253-265 | b prints the last 32 binary digits, with # behind as much of 0b as 32 characters have room for |
| Specifiers.BinaryPrints | lib/printf.c:702-704 | The same for whole formats with each modifier |
| Specifiers.PointerShown | lib/printf.c:825-841 | p prints 16 capital hexadecimal digits whatever the width, more for a larger precision, and a sign in the place of one |
| Specifiers.PointerPrints | lib/printf.c:825-841 | The same for the format of p alone |
| Specifiers.UnknownPrintsItself | lib/printf.c:843-851 | A character that is no specifier and no part of a head prints itself behind a percent sign |
| Specifiers.HashEatsDigits | lib/printf.c:247-252 | With # and a width of just the number of digits, the first digit gives way to the prefix, in base 16 the first two |
| Printf.VisibleExactly | lib/printf.c:154-157 | What reaches the screen is everything but the NULs, in order |
| Printf.BytesExactly | lib/printf.c:149-157 | One byte for each character, of the same value |
| Printf.Sink.Emit | lib/printf.c:134-158 | One character more in the log; the buffer holds the log cut to its size, the console shows the visible part |
| Printf.OutRev | lib/printf.c:202-226 | The reversed buffer with its padding is appended to the log |
| Printf.PushZeros | lib/printf.c:237-242 | The zero loops fill up to the given length or the end of the buffer |
| Printf.FillBuffer | lib/printf.c:232-243 | Precision and width zeros as in the specification, inside the buffer |
| Printf.MarkHash | lib/printf.c:245-265 | The # stage as in the specification, inside the buffer |
| Printf.FormatNumber | lib/printf.c:230-280 | The log gains the field the specification gives for these digits |
| Printf.PutDigits | lib/printf.c:294-301 | The digit loop leaves the lowest 32 digits, and the buffer is never indexed outside 0..31 |
| Printf.NtoaLong | lib/printf.c:284-329 | The log gains the field of the number |
| Printf.ReadFlags | lib/printf.c:604-615 | The flag loop reads what the specification reads |
| Printf.Atoi | lib/printf.c:191-198 | The digits are read modulo 2^32 and the pointer is behind them |
| Printf.ReadWidth | lib/printf.c:617-632 | The width field, with a negative star argument turned into - |
| Printf.ReadPrecision | lib/printf.c:634-647 | The precision field, with negative ones taken as 0 |
| Printf.ReadSize | lib/printf.c:649-683 | The length modifier |
| Printf.StrnlenS | lib/printf.c:174-179 | The bounded length, in 32 bits |
| Printf.PutCharacter | lib/printf.c:779-797 | The log gains the character and its padding |
| Printf.PutString | lib/printf.c:799-823 | The log gains the string, its cut and its padding |
| Printf.PutConversion | lib/printf.c:685-852 | The specifier appends its text and takes its argument, or fails as the specification does |
| Printf.TakeTurn | lib/printf.c:590-853 | One turn of the loop is one turn of the specification |
| Printf.FormatLoop | lib/printf.c:590-853 | The loop logs the whole output, or meets the fault the specification names |
| Printf.TerminatedExactly | lib/printf.c:855-856 | A text shorter than the count stands there whole with its NUL behind it, a longer one cut to count - 1 characters with its NUL in the last place; everything behind the NUL stays, and count 0 changes nothing |
| Printf.ToIntIs | lib/printf.c:859 | The result is the length as far as an int holds it: exact below 2^31, and congruent modulo 2^32 |
| Printf.Terminate | lib/printf.c:855-856 | The NUL goes behind the text, or into the last place if the text was cut |
| Printf.Vsnprintf | lib/printf.c:580-860 | Result, log, buffer and screen are those of the output |
| Printf.Snprintf | lib/printf.c:886-893 | The result is the length of the whole text whatever the count; the buffer starts with the text and a NUL if it fits, otherwise with its first count-1 characters and a NUL, and is unchanged behind it; count 0 or a null buffer writes nothing |
| Printf.PrintfToScreen | lib/printf.c:865-873 | A console showing a transcript shows that transcript with everything but NULs printed behind it, and the length is returned |

## Left out

- Floating-point conversions: lib/Makefile compiles them out, so `%f` and its relatives fall to the default case, as in the model.
- `sprintf_` and `fctprintf`: thin wrappers around the modelled engine.
- Printf.Vsnprintf: counts output characters without bound, where the C index would wrap after 2^64 of them.
- Conversions.MeetsC99Exactly: covers bases 8, 10 and 16; `%b` has no counterpart in the standard. It is modelled and part of the composition theorems.
- StandardFormats.ItemMeetsC99Exactly: leaves out `%b`, `%p`, which the standard leaves to implementations, and `%lc` and `%ls`, whose wide arguments the code does not know. Flags and precisions the standard gives no meaning next to a conversion are ignored.
- SleepCalls.SleepGuarantee: says when the caller may take its next step, not that it takes it at once; that includes waiting for one more tick where a tick came between the end of the loop body and the halt. The loop halts until a tick, as only the timer interrupt is unmasked (idt.c).
- Kernel.System.BeginSleep: called by a RUNNING process with no sleep call open, not by one that has yielded in the same tick.
- Kernel.System.Yield: atomic, and taken only by a RUNNING process with no sleep call open; the real call has no atomic section and no guard (see `DoubleYieldBreaks`).
- Kernel.System.ProcessCreate: covers the first 128 creations; the next one would wrap the free queue to pid 0. The printed message is left out.
- Kernel.System.ScheduleProcess: interrupts inside the handler, and ticks before the set-up is finished, are not modelled.
- `total_ticks` in 32 bits: the abstract counter is unbounded and the table holds its low word.
- Waking from the sleep queue: nothing in the repository does it, and nothing calls `sleep_process`; it stands alone as a data structure operation.
- Generator.UserTask: a given number of rounds of an endless loop.
- FreeLists.MakeFileSystem: below 4 blocks the inode nodes lie outside the volume, and above 2^31 the loop index does not fit; argument parsing and the mapping of the file are left out.
- ElfLoader.ProcessHeader: the segment's target lies outside the kernel file, so that the table and the file bytes stay as they were.
- ElfLoader.LoadKernel: segments lie in memory outside the kernel file, and the loader's own code and variables are not part of the modelled memory; an empty table, for which the loop instruction would run 2^64 times, is excluded.
- The system calls that write, report the pid, halt or print a fixed line: a loop over the modelled `putch`, or without state.
- Port and cursor output, PIC and PIT programming, descriptor tables, IRQ chains, page tables, boot sector reads, `memcmp`, `strlen` and dumps: hardware-bound or without interesting state.
