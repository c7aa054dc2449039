# Verification of PastaOS

PastaOS is a small 32-bit x86 kernel. This project models the parts of it whose
behaviour is decided by code rather than by hardware, and proves what they do.

* **Lists** (`List.dfy`, `Hlist.dfy`): the intrusive ring lists and the
  hash-chain lists of `include/list.h`, as objects with real `next`, `prev`,
  `first` and `pprev` fields that are updated in place. Every operation refines
  an operation on the sequence of nodes, for rings of any length; its `modifies`
  clause names the nodes of the rings involved, so no other ring is touched.
* **Scheduler** (`Machine.dfy`, `Sched.dfy`, `Kernel.dfy`): the cooperative
  round-robin scheduler. `Machine` is the processor as far as a context switch
  sees it. `Sched` is a state machine on values, whose steps are: compute, yield,
  start a task, exit; the laws about runs are proved there. `Kernel` is the code
  itself, on a linked run queue and a memory of words, and is proved to take
  exactly those steps, over whole runs.
* **Formatter and parser** (`Ctype.dfy`, `Output.dfy`, `Number.dfy`, `Parse.dfy`,
  `RoundTrip.dfy`, `Printf.dfy`, `Conversions.dfy`, `FormatLaws.dfy`, `Scanf.dfy`,
  `ScanLaws.dfy`, `Fields.dfy`): the 64-by-32 division, integer fields, the number
  readers, `vsnprintf` and `vsscanf`. Methods follow the loops of the source and are
  proved against functions on strings. What those functions mean is proved in terms of
  the numbers that digits denote and of the ranges of the C types (`Conversions`,
  `ScanLaws`), and they are proved to undo each other (`RoundTrip`, `Fields`).
* **Console** (`Console.dfy`, `Layout.dfy`, `Screen.dfy`): the scrolling screen, as a
  window on a roll of paper that only grows, and where the characters of a text end up
  on it.

## How to read it

A method with `ghost` parameters gets the abstract value of the structure it
works on, for example the sequence of nodes of a ring. `hide` statements only
keep definitions away from proofs that do not need them.

Where a promised property does not hold of the code, the code is modelled as it
is and the exact condition is proved:

* `list_swap` across two rings exchanges the nodes only if the second one is not
  alone in its ring (`List.ListSwapAcross`), and doing it twice undoes it only if
  neither is (`List.ListSwapAcrossTwice`).
* `simple_strtoull` reads back bases above 16 only if no digit is above f
  (`RoundTrip.UnsignedRoundTrip`), and with base 0 it does not know the prefix `0X`
  that `number` prints (`RoundTrip.BaseZeroRoundTrip`).
* Of integer directives, `vsscanf` stops at negative numbers, at hexadecimal numbers whose
  leading digit is a letter unless they are filled with zeros, at `%llu`, and at all
  directives with a precision or a flag other than `0`, although `vsnprintf` prints
  them (`Fields.ScanUndoesPrint`, `Fields.WhatIsReadable`).
* In `vsscanf`, `%c` copies one character more than the field width says, and the field
  width is never reset. Without a width of its own it copies exactly one character
  only if an earlier directive has left a width of zero or less, or the input ends
  there (`Scanf.PlainChar`); with one, it copies that many only if the input has just
  that many left (`Scanf.WideChar`).
* `vsnprintf` with size 0 writes nothing only if the buffer is not null, since the
  address before a null pointer wraps to the last one (`Printf.SizeZero`); ISO C99
  allows a null pointer there.
* The text of a concatenation is the concatenation of the texts only if the first
  format does not end inside a directive (`FormatLaws.ConcatenationLaw`).

Integer fields follow the code where it differs from section 7.19.6.1 of ISO C99:
zero padding stays when a precision is given, `#` puts a prefix before zero too,
and precision 0 still prints "0".

## Model

| member | source | states |
|---|---|---|
| Sched.ContextSwitch | kernel/sched.c:18-40 | A task that leaves the processor by yielding or by starting another task is given it back, after any run of other tasks, with the seven registers, stack pointer, return address and stack contents it had |
| Sched.SpawnEntersTask | kernel/sched.c:111-149 | A started task runs at once: it is at `entry` with all registers zero, and the word on top of its stack is `exit_point` |
| Sched.BoundedWaiting | kernel/sched.c:52-83 | The task at queue position k runs for the first time exactly at the (k+1)-st yield or exit, and until then stands k minus that many places from the front; spawns interleaved anywhere change neither |
| Sched.FirstComeFirstServed | kernel/sched.c:52-83 | Over any run, the tasks that yields and exits dispatch are the waiting tasks in queue order, each of them once |
| Sched.RoundRobin | kernel/sched.c:42-149 | What each step does to the order of execution: a yield rotates it, a spawn puts the new task in front and the running one last, an exit drops the running one and the queue is not empty |
| Sched.FullRound | kernel/sched.c:52-83 | As many yields as there are started tasks, with any computation between them, dispatch every task once, in queue order and the running one last, and restore the order of execution |
| Sched.YieldsRotate | kernel/sched.c:52-83 | n yields are n rotations of the order of execution |
| Sched.ExitIsFinal | kernel/sched.c:98-108 | An exiting task always hands the processor to a sleeping one, and stays a zombie off the processor in every run that does not start it anew |
| Sched.Next | kernel/sched.c:42-150 | Every step keeps the invariant: current, queue, zombies and unstarted tasks partition all tasks, init is running or queued, and each queued task has its context on its own stack |
| Sched.Run | kernel/sched.c:42-150 | Every reachable state satisfies the invariant |
| Sched.StartedKeeps | kernel/sched.c:125-138 | `task_init` keeps the invariant |
| Sched.ScheduledKeeps | kernel/sched.c:43-95 | `schedule` keeps the invariant, for a running task that goes on sleeping and for one that has exited |
| Sched.StepSpares | kernel/sched.c:43-149 | A sleeping task's saved stack survives every step, and the step that dispatches it pops exactly that stack |
| Sched.RunSpares | kernel/sched.c:43-149 | The same over any run that dispatches the task with its last step |
| Sched.SwitchSaves | kernel/sched.c:29-29 | When a task is switched out, its saved stack pointer and stack are those with the seven registers pushed, even if the same step prepares another task's stack |
| Sched.StepMoves | kernel/sched.c:52-83 | A yield or exit moves every waiting task up by one place, every other step leaves it where it is |
| Machine.RestoresContext | kernel/sched.c:21-38 | If the stack from the saved pointer up is as it was, the pops and `ret` of `switch_to` undo its pushes register for register |
| Machine.FirstDispatch | kernel/sched.c:111-122 | Popping the hand-built frame of `stack_init` enters `entry` with zeroed registers and leaves `exit_point` on the stack |
| Machine.PreparedThenPushed | kernel/sched.c:111-122 | Preparing one stack and pushing a context on another do not disturb each other |
| Kernel.Kernel.constructor | kernel/sched.c:7-15 | The statically initialized system satisfies the invariant, with init running and every other task unstarted in state 0, and works on the links of its tasks and `task_list` only |
| Kernel.Kernel.SwitchTo | kernel/sched.c:18-40 | The pushes, the two stack pointer moves and the pops, one word at a time, turn memory and registers into those of the specification and leave the run queue alone |
| Kernel.Kernel.StackInit | kernel/sched.c:111-122 | The nine decrementing stores leave exactly the first frame, and sp nine words lower |
| Kernel.Kernel.Schedule | kernel/sched.c:43-95 | The pointer code takes exactly the step of the specification and keeps the ring, the states and the saved stack pointers tied to it; no BUG_ON or invalid-state branch is reached. With an empty queue nothing changes: task, cpu and memory stay as they are |
| Kernel.Kernel.SwitchTasks | kernel/sched.c:57-94 | The two state switches and the context switch: ring, states, stack pointers and memory afterwards |
| Kernel.Kernel.LinkTail | kernel/sched.c:61-61 | Queueing a task last extends the ring at its end, and writes no link but its own, that of the last task and that of the head |
| Kernel.Kernel.UnlinkFirst | kernel/sched.c:81-81 | Taking the first task off leaves the ring of the others, and the task's link as a ring of its own |
| Kernel.Kernel.FirstEntryOrNull | include/list.h:531-535 | The first queued task, or null exactly for the empty queue |
| Kernel.Kernel.TaskInit | kernel/sched.c:125-138 | The task gets its first frame, is SLEEPING and is first in the ring |
| Kernel.Kernel.TaskRun | kernel/sched.c:141-150 | Takes exactly the spawn step |
| Kernel.Kernel.ExitPoint | kernel/sched.c:98-108 | Takes exactly the exit step, with the return code from eax kept in the task and another task running afterwards |
| Kernel.Kernel.RunTask | init/main.c:15-20 | Code of the running task between two calls of the scheduler, which writes its own stack only, takes exactly the compute step and leaves ring, states and stack pointers in place |
| Kernel.Kernel.Take | kernel/sched.c:42-150 | Each of the four steps is taken by the code for it |
| Kernel.Kernel.Execute | kernel/sched.c:42-150 | Over every run of computing, yields, spawns and exits the code reaches exactly the state of the specification, with a well-formed ring of the sleeping tasks |
| Kernel.Kernel.SwitchAwayAndBack | kernel/sched.c:18-95 | In the code too, a task that yields or starts another one is resumed, after any run of other tasks, with its registers, stack pointer, return address and stack words |
| Kernel.BootAndRun | kernel/sched.c:7-150 | A kernel that boots and then runs reaches, after any feasible run, the state of the specification, and writes no links but those of its tasks and its own |
| Sched.YieldAlone | kernel/sched.c:53-55 | A yield changes nothing at all, cpu and memory included, exactly if no other task waits |
| Kernel.StatesScheduled | kernel/sched.c:57-91 | Before every switch the first queued task is SLEEPING and different from the running one, so the branches marked impossible are; afterwards running and SLEEPING tasks are again the current and the queued ones |
| List.ListAddBetween | include/list.h:58-66 | Inserts into the ring between two neighbours |
| List.ListAdd | include/list.h:76-79 | Inserts behind any node; writes no link but the four involved |
| List.ListAddTail | include/list.h:89-92 | Inserts before any node |
| List.ListDelBetween | include/list.h:101-105 | The ring without the node between the two; the node itself unchanged |
| List.ListDelEntry | include/list.h:121-124 | The ring without the entry |
| List.ListDel | include/list.h:132-137 | The ring without the entry, whose links are cut |
| List.ListDelInit | include/list.h:190-194 | The ring without the entry, and the entry a ring of its own |
| List.ListReplace | include/list.h:146-153 | The ring with the new entry in the old one's place |
| List.ListReplaceInit | include/list.h:162-167 | The same, and the old entry a ring of its own |
| List.ListSwap | include/list.h:174-184 | Exchanges two nodes of one ring in every adjacency case |
| List.ListSwapAcross | include/list.h:174-184 | Exchanges nodes of two rings if and only if the second is not alone in its ring; otherwise both end up next to each other in the first ring |
| List.ListSwapAcrossAndBack | include/list.h:174-184 | Across two rings, swapping and then swapping the other way round restores both rings if and only if the second node was not alone, and then every link |
| List.ListSwapAcrossTwice | include/list.h:174-184 | Across two rings, making the same call twice restores both rings if and only if neither node was alone, and then every link |
| List.ListSwapTwice | include/list.h:174-184 | In one ring, swapping twice restores every link of every node |
| List.RingFixesLinks | include/list.h:46-50 | A ring determines both links of each of its nodes, so equal rings are equal link by link |
| List.ListMove | include/list.h:201-205 | Moves an entry behind a node of its own or another ring, and leaves the ring it came from whole |
| List.ListMoveTail | include/list.h:212-217 | Moves an entry before a node of its own or another ring, and leaves the ring it came from whole |
| List.ListBulkMoveTail | include/list.h:228-240 | Moves a segment to the tail of its ring in order, also when it is there already |
| List.MoveEachToTail | include/list.h:212-240 | Calling `list_move_tail` for the nodes of a segment one by one leaves the ring that `list_bulk_move_tail` leaves |
| List.ListRotateLeft | include/list.h:314-322 | Moves the first entry to the tail |
| List.ListRotateToFront | include/list.h:331-340 | Rotates the entries so that the given one is first |
| List.RotateLeftRepeatedly | include/list.h:314-340 | k calls of `list_rotate_left` leave the ring that `list_rotate_to_front` leaves for the k-th entry, and as many calls as there are entries restore every link |
| List.RotateLeftTimes | include/list.h:314-340 | The order of entries after k left rotations, as one rotation of the sequence by k, and the identity for as many as there are entries |
| List.ListCutAt | include/list.h:351-361 | Prefix and suffix as two rings |
| List.ListCutPosition | include/list.h:377-389 | Prefix and suffix as two rings, for the head or any entry; of an empty list nothing is written |
| List.ListCutBefore | include/list.h:405-419 | Entries before the given one and the others as two rings; all of them if it is the head |
| List.ListSpliceBetween | include/list.h:421-433 | Inserts all entries of a list between two neighbours of a ring |
| List.ListSplice | include/list.h:440-445 | Inserts all entries at the front, leaving the source head as it was |
| List.ListSpliceTail | include/list.h:452-457 | Inserts all entries at the tail |
| List.ListSpliceInit | include/list.h:466-473 | Inserts all entries at the front and empties the source list |
| List.ListSpliceTailInit | include/list.h:483-490 | Inserts all entries at the tail and empties the source list |
| List.CutPositionThenSplice | include/list.h:377-445 | Cutting anywhere into an empty list and splicing back restores every link |
| List.CutBeforeThenSplice | include/list.h:405-445 | The same for cutting before an entry |
| List.HeadLinks | include/list.h:268-271 | The head's links are the first and last entries, and its own address exactly for an empty list |
| List.ListForEachSafe | include/list.h:585-587 | Safe iteration visits every entry once and in order although the body removes any of them, and leaves exactly the others in order |
| Hlist.PprevPointsHere | include/list.h:770-778 | For every linked node the pointer that `pprev` points at is the node |
| Hlist.HlistUnlink | include/list.h:821-829 | Removes the node at any position, without its head |
| Hlist.HlistDel | include/list.h:838-843 | The same, with the node's pointers cut |
| Hlist.HlistDelInit | include/list.h:851-857 | The same, with the node unhashed; on an unhashed node nothing is written |
| Hlist.HlistAddHead | include/list.h:867-875 | Inserts in front |
| Hlist.HlistAddBefore | include/list.h:882-889 | Inserts before any node, without the head |
| Hlist.HlistAddBehind | include/list.h:896-905 | Inserts behind any node, without the head |
| Hlist.HlistMoveList | include/list.h:951-958 | The whole chain belongs to the new head and the old one is empty |
| Number.Divl | lib/vsprintf.c:16-16 | The 64-by-32 division instruction, which needs the upper half below the divisor |
| Number.LongDivision | lib/vsprintf.c:10-17 | Dividing the upper half and then the remainder with the lower half is the exact 64-bit division |
| Number.DoDiv | lib/vsprintf.c:7-19 | Exact quotient and remainder for every 64-bit number and non-zero 32-bit base; the inner division never overflows |
| Number.DigitsFit | lib/vsprintf.c:130-130 | A 64-bit number has at most 64 digits in every base from 2, so `tmp[66]` is never overrun |
| Number.DigitCount | lib/vsprintf.c:162-167 | A number below base^k has at most k digits |
| Number.CollectDigits | lib/vsprintf.c:162-167 | The digit loop ends and leaves all digits, last one first, within `tmp` |
| Number.EmitField | lib/vsprintf.c:170-218 | The seven parts of the field, through every bounded loop; where each of them stands for every flag set is `Conversions.FieldParts` |
| Conversions.FieldParts | lib/vsprintf.c:170-218 | The layout of a field for every flag set: with `-`, sign, prefix, precision zeros and digits, and only spaces behind; else with `0`, zeros between prefix and digits; else spaces in front of the sign |
| Number.Number | lib/vsprintf.c:126-219 | The field text, with the layout of `Conversions.FieldParts` and the digits of `RoundTrip.NumeralIs`, as far as the buffer reaches, for every number, width, precision, flag set and base 2 to 36; nothing for other bases |
| Number.FieldLength | lib/vsprintf.c:156-218 | A field is max(width, sign + prefix + max(precision, digit count)) characters long |
| Number.SplitSign | lib/vsprintf.c:142-155 | The printed bits are those of the absolute value, computed with 64-bit wrap-around, also for the least number |
| Parse.SimpleStrtou | lib/vsprintf.c:27-94 | The value of the longest run of digits of the base, modulo 2^32 or 2^64, and where it ends, with base 0 resolved |
| Parse.SimpleStrto | lib/vsprintf.c:58-107 | The same with a leading minus, as a signed number |
| RoundTrip.SignedRoundTrip | lib/vsprintf.c:102-107 | `simple_strtoll` reads back every signed 64-bit number that `number` prints, the least one included, and stops at its end |
| RoundTrip.UnsignedRoundTrip | lib/vsprintf.c:71-94 | `simple_strtoull` reads back what `number` prints, for bases 2 to 36, exactly when all the digits are up to f |
| RoundTrip.UnsignedRoundTripTo16 | lib/vsprintf.c:71-94 | In bases 2 to 16 every 64-bit number is read back, up to the end of its text |
| RoundTrip.BaseZeroRoundTrip | lib/vsprintf.c:75-85 | With base 0, plain decimal and prefixed octal and hexadecimal are read back exactly unless the prefix is `0X` |
| RoundTrip.CapitalPrefix | lib/vsprintf.c:75-85 | After `0X`, reading with base 0 stops behind the zero with value 0 |
| RoundTrip.ReadDigits | lib/vsprintf.c:86-91 | Digits embedded anywhere in a string are read back up to the first character that is none |
| RoundTrip.DigitsDenote | lib/vsprintf.c:160-167 | In every base from 2 to 36 the printed digits denote the number, each is a digit of the base, and there is no leading zero but for zero |
| RoundTrip.DigitsTellApart | lib/vsprintf.c:160-167 | Different numbers have different digits, in every base |
| RoundTrip.NumeralIs | lib/vsprintf.c:120-167 | What is printed for a number are exactly the digits of the base that denote it, with letters in capitals exactly if LARGE is set and without a leading zero: no other text has these properties |
| RoundTrip.ReadsUnsigned | lib/vsprintf.c:86-94 | The number that the longest run of digits of the base denotes, modulo 2^32 or 2^64 |
| RoundTrip.ReadsSigned | lib/vsprintf.c:58-107 | That number, or its negative behind a minus sign, as the only signed number of the type that is congruent to it |
| RoundTrip.BaseZero | lib/vsprintf.c:75-85 | With base 0: hexadecimal behind `0x` if a hexadecimal digit follows, octal from any other `0` on, and else decimal |
| RoundTrip.LonePrefix | lib/vsprintf.c:80-83 | `0x` without a hexadecimal digit behind it reads as 0, and reading stops at the x |
| Ctype.TableClasses | lib/ctype.c:9-33 | The character classes are the tests of the masks in the table, for all 8-bit codes |
| RoundTrip.PrefixValue | lib/vsprintf.c:86-91 | What the readers make of printed digits, in any base: the number if they stop at the end, and a smaller one if they stop earlier, at a digit above f |
| RoundTrip.FirstDigit | lib/vsprintf.c:162-167 | No leading zero but for zero itself |
| Printf.FlagsAt | lib/vsprintf.c:264-274 | The flag scan stops inside the format, at the first character that is no flag |
| Printf.DirectiveAt | lib/vsprintf.c:264-314 | No scan of a directive passes the terminating NUL |
| Printf.ParseFlags | lib/vsprintf.c:264-274 | The `goto repeat` loop collects the flags and stops behind them |
| Conversions.FlagsAre | lib/vsprintf.c:264-274 | Flags are read up to the first character that is none, and each is set exactly if its character is among them |
| Printf.SkipAtoi | lib/vsprintf.c:109-116 | The loop computes the number of `Conversions.AtoiReads` and the position behind it |
| Conversions.AtoiReads | lib/vsprintf.c:109-116 | The number that the longest run of decimal digits denotes |
| Conversions.WidthIs | lib/vsprintf.c:276-288 | The width: a number in decimal digits, or for `*` the absolute value of the next argument as an int, with flag `-` added if that is negative, or none |
| Conversions.PrecisionIs | lib/vsprintf.c:290-303 | The precision behind a dot: a number in decimal digits, or for `*` the next argument as an int, and zero if that is negative or there is neither |
| Conversions.QualifierIs | lib/vsprintf.c:305-314 | The qualifier, one of h, l, L and Z, or ll, which counts as L |
| Conversions.ParsesDirective | lib/vsprintf.c:264-314 | A directive written out with any flags, width, precision and qualifier, each of which may be missing: which flags are set, and the numbers that the digits of width and precision denote |
| Conversions.NoSignYet | lib/vsprintf.c:264-314 | No flag character sets SIGN or LARGE; only a conversion does |
| Printf.ParseDirective | lib/vsprintf.c:264-314 | The directive of `Conversions.ParsesDirective`: flags, width, precision and qualifier, taken from the format or from the arguments |
| Printf.RoundAt | lib/vsprintf.c:256-447 | Every round moves on and stays inside the format, also behind the back-step for a directive that the format cuts off |
| Printf.EmitConversion | lib/vsprintf.c:319-446 | Each conversion writes its text as far as the buffer reaches; which text that is for which argument is stated by the rows `Conversions.Prints...` |
| Conversions.ConvertedIs | lib/vsprintf.c:428-444 | What is printed for an argument is its value in the type that qualifier and sign name: the only number of that range that differs from it by a multiple of the size |
| Conversions.PrintsInteger | lib/vsprintf.c:398-447 | `%d`, `%i`, `%u`, `%o`, `%x` and `%X` print a field of the argument's value: minus sign for negative numbers, plus sign or space for others only if flagged, prefix if flagged, the numeral in the base, laid out by width, precision and flags |
| Conversions.PrintsPointer | lib/vsprintf.c:365-373 | `%p` prints the address in hexadecimal digits, by default eight of them with leading zeros |
| Conversions.PrintsString | lib/vsprintf.c:339-363 | `%s` prints the string cut at its first NUL and at the precision, with spaces up to the width on the side that the flag says; `<NULL>` for a null pointer |
| Conversions.PrintsChar | lib/vsprintf.c:320-337 | `%c` prints the character of the lower eight bits, with spaces up to the width |
| Conversions.PrintsOthers | lib/vsprintf.c:376-426 | `%n` prints nothing, `%%` a percent sign, an unknown directive its percent sign and its character, and one that the format cuts off a percent sign |
| Conversions.LiteralPrints | lib/vsprintf.c:256-261 | Text without directives is printed as it stands |
| Conversions.PrintsMessage | init/main.c:17-17 | A message with a `%d` in it prints its text with the sign and the decimal numeral of any 32-bit number in place of the directive |
| Printf.LastCell | lib/vsprintf.c:248-254 | The last cell of the buffer, with the size cut where the buffer would run past the end of the address space |
| Printf.OneRound | lib/vsprintf.c:256-447 | One round of the main loop writes the text of a character or directive as far as the buffer reaches, and goes on behind it |
| Printf.OrdinaryBuffer | lib/vsprintf.c:248-456 | What the buffer holds afterwards if it is not null and lies in the address space: the first min(L, size-1) characters and a NUL if size > 0, and nothing else changed; nothing at all changed for size 0 |
| Printf.Vsnprintf | lib/vsprintf.c:231-457 | Returns the length of the whole text and leaves as much of it, with a NUL, as fits into the cells the code allows itself: size of them, fewer where the address space ends, and all of it for a null buffer. Nothing else is written |
| Printf.SizeZero | lib/vsprintf.c:248-254 | A call with size 0 writes nothing exactly if the buffer is not null; for a null pointer the whole text is written from address 0 on |
| FormatLaws.SameDirective | lib/vsprintf.c:264-314 | Parsing a directive looks at nothing behind its conversion character |
| FormatLaws.FollowedBy | lib/vsprintf.c:256-447 | A complete format prints its text wherever it stands, and leaves its unused arguments to what follows |
| FormatLaws.AtTheEnd | lib/vsprintf.c:256-447 | A format prints the same text at the end of any other |
| FormatLaws.PercentBehind | lib/vsprintf.c:415-426 | A percent sign behind a format that is cut off inside a directive adds nothing |
| FormatLaws.ConcatenationLaw | lib/vsprintf.c:256-447 | The text of a concatenation is the concatenation of the texts, for every continuation, if and only if the first format does not end inside a directive |
| Scanf.Vsscanf | lib/vsprintf.c:517-695 | The loop ends, and stores and counts what the rounds of the specification do one after the other; what those mean is stated by the rows from `Scanf.ScanOne` on |
| Scanf.ScanOne | lib/vsprintf.c:527-693 | One round: white space, a character to match, or a directive, with the meaning that `ScanLaws.WhiteSpaceMatches`, `Scanf.LiteralText` and `ScanLaws.IntegerDirective` state |
| ScanLaws.WhiteSpaceMatches | lib/vsprintf.c:532-537 | White space in the format stands for any amount of white space in the input, none included, whatever follows it |
| ScanLaws.StepBehindDigits | lib/vsprintf.c:561-575 | A directive's width is the number its digits denote, or the one carried there; behind width and qualifier stands the conversion |
| ScanLaws.PercentDirective | lib/vsprintf.c:625-629 | `%%` passes a percent sign, and ends the scan at anything else |
| ScanLaws.PositionDirective | lib/vsprintf.c:606-612 | `%n` stores how much of the input has been read, and does not count |
| ScanLaws.UnknownDirective | lib/vsprintf.c:630-633 | Any other conversion character ends the scan |
| ScanLaws.IntegerRead | lib/vsprintf.c:644-687 | Each qualifier stores the number that the digits denote with the value it has in the argument's type: the only one of its range that is congruent to it |
| ScanLaws.StoresInteger | lib/vsprintf.c:613-692 | An integer conversion skips white space, and stores that value if a decimal digit follows; else it ends the scan |
| ScanLaws.IntegerDirective | lib/vsprintf.c:546-692 | The same for a whole integer directive with any width and qualifier anywhere in a scan, which goes on behind it with one more store and count |
| Scanf.ConvertOne | lib/vsprintf.c:577-692 | The switch over the conversions with the field width it leaves behind |
| Scanf.ReadInteger | lib/vsprintf.c:644-687 | The reader for each qualifier and the cast to the argument's type |
| Scanf.CharConversion | lib/vsprintf.c:578-588 | `%c` stores one character more than the field width says, or as many as are left in the input, and leaves a width that is less by their number |
| Scanf.PlainChar | lib/vsprintf.c:566-588 | Anywhere in a scan, a `%c` without a width of its own, with or without a qualifier, stores exactly one character if and only if an earlier directive has left a width of zero or less, or the input ends there |
| Scanf.WideChar | lib/vsprintf.c:562-588 | A `%c` with a width of its own, with or without a qualifier, stores that many characters if and only if the input has just that many left |
| Scanf.PlainCharAlone | lib/vsprintf.c:578-588 | Alone in a format, `%c` stores two characters unless the input has only one |
| Scanf.StringConversion | lib/vsprintf.c:589-605 | `%s` skips white space and stores the longest run of other characters that the width allows; the width it leaves is less by their number, and -1 if it has cut the run off |
| Scanf.Suppressed | lib/vsprintf.c:553-559 | `%*` passes the rest of a word in the format and a whole word of the input, and stores nothing |
| Scanf.LiteralText | lib/vsprintf.c:540-544 | Literal text in the format passes the same text in the input without a store, up to where they first differ, and there the scan ends |
| Scanf.WidthStays | lib/vsprintf.c:524-603 | The field width that is carried from directive to directive never falls below -1 |
| Fields.PrintsFields | lib/vsprintf.c:231-457 | A format of space-separated integer directives, with any flags, width, precision and qualifier written out, prints their texts separated by spaces |
| Fields.PaddedText | lib/vsprintf.c:156-217 | Without other flags and precision, a field is spaces or zeros up to the width, with the sign before the zeros, and the digits |
| Fields.ReadsPadded | lib/vsprintf.c:86-91 | Digits are read back with any number of zeros before them |
| Fields.OneField | lib/vsprintf.c:527-693 | One round over a field stores its value if the field is readable and ends the scan otherwise, whatever width has been carried there |
| Fields.WhatIsReadable | lib/vsprintf.c:553-642 | Of the directives with at most a width and zero padding, and not `ll`, readable are: octal and unsigned ones; hexadecimal ones whose leading digit is below ten or that are filled with zeros; signed ones that are not negative. None is with another flag, a precision or `ll` |
| Fields.ScanUndoesPrint | lib/vsprintf.c:517-695 | For any integer directives, scanning what was printed for the same format recovers the arguments before the first field that is not readable, and the count; all of them if and only if every field is readable. An argument in the range of its type comes back as it is, any other one as the congruent value in that range |
| Fields.UnsignedFieldsComeBack | lib/vsprintf.c:517-695 | Any number of unsigned and octal fields of any width, filled with spaces or zeros, come back, with the count of fields as the result |
| Console.Console.ConsoleScrollUp | kernel/console.c:22-34 | The ascending overlapping copy shifts all rows up without loss, and the last row is blank |
| Console.Console.Kputchar | kernel/console.c:36-60 | The screen is the end of the roll before and after every character, and the position stays in [0, 2000) |
| Console.Console.ConsoleClear | kernel/console.c:62-70 | A blank screen in the given colours with the position at its beginning |
| Console.Console.Printk | kernel/console.c:72-90 | Types the first 1023 characters of the formatted text up to a NUL (`Console.KeptIs`), and returns their number; what those characters show is `Screen.TypesText` and `Screen.TextOnScreen` |
| Console.Console.PutBuffer | kernel/console.c:83-89 | Types exactly the characters before the first NUL of the buffer and returns their number |
| Console.EntryParts | include/console.h:32-35 | A cell shows its character in its two colours if and only if both are among the sixteen |
| Console.Window | kernel/console.c:36-59 | Typing a character leaves the screen where it is on the roll, or moves it down by exactly one row with a blank one below |
| Console.PaperStays | kernel/console.c:36-60 | At most one scroll for each character, and what has left the screen never changes |
| Console.KeptWithoutNul | kernel/console.c:80-89 | For a text without NUL, `printk` shows and counts its first min(L, 1023) characters |
| Console.KeptIs | kernel/console.c:80-89 | `printk` keeps the longest beginning of any text that has no NUL and at most 1023 characters |
| Layout.TypesAll | kernel/console.c:36-60 | After any printable characters, newlines and tabs from a cleared screen, the roll holds exactly the typeset text, on the background of the clearing or of the scrolls, and ends with the cursor's row |
| Layout.ScreenOfLines | kernel/console.c:36-60 | A line of m characters with its newline takes m / 80 + 1 rows, its characters stand there in order, and the screen shows the last 25 rows |
| Screen.TypesChar | kernel/console.c:36-60 | What each character does to the cells of the screen and the position: newline, carriage return, tab, backspace, any other one as its code in grey on black; and the scroll by one blank row at the end |
| Screen.TypesText | kernel/console.c:83-87 | The same for any text on any screen, one character after the other |
| Screen.TextOnScreen | kernel/console.c:36-60 | Of a text without carriage returns and backspaces on a cleared screen, each visible character stands, with its code and in grey on black, at the position behind the text before it, and every other cell is blank |
| Screen.PrintOnClearedScreen | kernel/console.c:62-90 | After `printk` on a cleared screen the roll displays the first 1023 characters of the text; if all are visible, cell k is 0x0700 with the code of character k, and the cells behind are blank |

## Left out

Assumptions about the machine and the callers:

- Operands %0 and %1 of the assembly in `switch_to` are its first and second argument, and the compiler puts no prologue before it, so the return address is at esp on entry.
- Compiled C code between two calls of the scheduler is a step that changes the registers and the running task's own stack arbitrarily, and nothing else in the memory of stacks.
- A task has room on its stack for a switch whenever it calls the scheduler. The boot stack of init is one more stack in the same memory.
- `task_run` is called for a task that is neither running nor queued; a task that has exited may be started again. Init never exits (init/main.c:44-45), so the empty queue in `exit_point` is excluded.
- Addresses count words in `Machine`; `container_of` is a map from links to tasks; the poison values of `list_del` and `hlist_del` are null.
- List operations are called as documented: nodes to insert are in no ring of the call, the two nodes of a swap differ, and the head is not rotated to the front.
- Field widths, precisions and the length of the output do not overflow int.
- A format or input string is a sequence that ends with NUL; reading stops at the first NUL in it.
- Characters are those of Dafny; `kputchar` gets the lower eight bits of their codes.

Not modelled:

- Printf.Vsnprintf: the cursor moves on behind the end of the buffer, and is assumed not to wrap at the end of the address space; the `requires` says so, and so does that of `Console.Console.Printk`. Arguments are a sequence of numbers and strings, not a `va_list`; an argument that is missing or of the other kind reads as zero or as the null string, and `%n` takes its argument but stores nothing.
- Fields.ScanUndoesPrint: directives with a width or precision of `*` are not among its fields. They take another argument in `vsnprintf`; in `vsscanf` such a width suppresses the directive, and the dot of such a precision ends the scan.
- Scanf.Vsscanf: what is stored through the pointer arguments is returned as a sequence, so pointers that overlap the input or each other are not covered.
- Kernel.Kernel.Schedule: the messages of the branches that are never reached are not printed, and interrupts do not occur.
- `snprintf`, `vsprintf`, `sprintf`, `sscanf` and `panic`: wrappers of what is modelled.
- Memory barriers and the careful and lockless list variants: with one processor and cooperative tasks they are plain reads and writes.
- `hlist_add_fake`, the tests for first and last entries, and the other iteration macros.
- `refresh_cursor` and the video port, port input and output, interrupts, clock and boot code: what they do lies in the hardware.
- `lib/string.c`: routine loops. `strnlen` is included as part of `%s`.
- Layout.TypesAll: carriage returns and backspaces, which overwrite text, are covered by `Screen.TypesText`.
