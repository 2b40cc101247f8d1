# Verified models of atomicles

atomicles is a set of small C tools that coordinate Unix processes through XSI inter-process
communication: a counting semaphore (`Semaphore.c`), a shared segment with a guard semaphore
(`SharedMemory.c`), the `lock` command built from both (`lock.c`), a run counter for daemons
(`daemonize.h`), and an emulator of some IA-32 instructions whose registers live in a shared
segment (`ia32emu.c`, `registers.c`, `bits.h`, `bits.c`).  This project models that code in Dafny
and proves what it does, for every interleaving, every run and every word.
`dafny verify dfyconfig.toml` checks all of it.

## How it is laid out

**Processes that run together.**  The state is explicit (semaphore value, one undo adjustment per
process, memory, program counters) and each system call, each load or store of a byte or word, each
crash and each fork is one step.  `Exec` runs any sequence of actions from any start; an action
whose process is not at that point of its program changes nothing, so every sequence is a run.

- `SemaphoreKernel`: one semaphore with its undo adjustments, after `semop()`, `semctl()` and
  `exit()` of POSIX.1-2017, System Interfaces, section 2.7 and section 3.
- `SemaphoreProtocol`: any mixture of persistent and undoable locks and unlocks, where unlock is
  "look whether anything is used, then post".
- `GuardProtocol`: the guard of a segment, with the asserts of `SharedMemory.c` as a state
  (`Aborted`) that is shown never to be entered.
- `CStrings`, `GuardedStrings`: string accesses byte by byte; `GuardedWords`: word accesses, where
  a read loads the word after it has released the guard; `RunCounter`: `inc_count`.

**One process after another.**  Classes whose methods follow the C functions, over a kernel object
that holds the semaphore sets, the segments and the clock.

- `IpcKernel`, `Semaphores`, `SharedSegments`: the system calls and the two objects.  While a
  process sleeps, the environment (`others`, an arbitrary function of semaphore and time) may change
  semaphore values.
- `LockTable`: what the `lock` command is for, as a map from key to size, units used and deadline.
  `LockObjects` says how kernel objects stand for that map, `LockTool` has the commands, `LockRuns`
  proves that any run of commands does to the objects what it does to the map.

**The bit engine.**  A word is its 32 bits, least significant first; `Value` and `Signed` are the
numbers it stands for (`Words`).  `BitReverse`, `Shifts`, `Emulator`, `Registers` and `HexDigits`
follow the table macros, `shift()`, TEST and the jumps, the stored registers and the operand
parser.  The reference is the entries for SAL/SAR/SHL/SHR and Jcc in volume 2 of the Intel 64 and
IA-32 Software Developer's Manual.

## What turned out

- Value plus undo adjustments is size less persistent locks plus persistent unlocks exactly when exits
  invent as many units as they drop at the system limit.  When undoable unlocks match undoable locks,
  none is invented.
- That value and adjustments stay within the size, in a matched run with both modes mixed, holds if and
  only if persistent unlocks only give back what persistent locks took (`WithinSizeExactly`); put in
  terms of the value, if and only if at no moment the death of all processes would leave more than the
  size (`BackedIffNoDeathOvershoots`).  Otherwise there is no bound: a semaphore of size 1 reaches every
  value up to the system limit in a matched run in which no two unlocks overlap (`MixedModesUnbounded`).
- Overlapping persistent unlocks overshoot by at most one less than their number when every used-check
  that passes is backed (`MixedOvershootBound`).  Runs of persistent operations alone always are
  (`OvershootBound`), and reach the bound (`BoundReached`).
- A run of `inc_count` calls loses no increment if and only if at every store the value that was loaded
  is still the count (`NothingLostExactly`).  Every count from c0 + 1 to c0 + n is the end of some run
  of n calls (`EveryCountOccurs`).
- `lock create` with a size above 32767, the largest value that the system accepts, returns -1 and
  leaves a semaphore set without a segment.  `CreateRefines` shows that this is the only case in
  which a command leaves the objects of a key incomplete.
- A set whose segment cannot be read counts as a lock of size 1 without expiry, except that `lock on`
  with the option `-x` takes it for expired and removes it (`WithoutSegment`).
- The documented key range 0..127 is the largest in which no two keys share a kernel object
  (`SlotsDisjoint`).

## Model

| member | source | states |
|---|---|---|
| SemaphoreProtocol.StepBalance | src/Semaphore.c:268-282 | every single step moves value plus adjustments only by a persistent lock (-1), a persistent unlock (+1) or what an exit invents or drops |
| SemaphoreProtocol.MatchedRun | src/Semaphore.c:356-365 | in a matched run every live process's adjustment is what it still owes, is not negative, and no exit invents a unit |
| SemaphoreProtocol.Conservation | src/Semaphore.c:268-369 | over every interleaving with crashes, value plus adjustments is size - persistent locks + persistent unlocks if and only if exits invent as many units as they drop at the limit; matched runs invent none |
| SemaphoreProtocol.WithinSizeExactly | src/Semaphore.c:268-369 | a matched run in any mixture of modes keeps value plus adjustments within the size at every moment if and only if each persistent unlock is backed by a persistent lock; then the value is within the size however many unlocks overlap, and the balance is exact |
| SemaphoreProtocol.BackedIffNoDeathOvershoots | src/Semaphore.c:268-369 | each persistent unlock of a matched run is backed if and only if at no moment the death of all processes would leave a value above the size |
| SemaphoreProtocol.MixedOvershootBound | src/Semaphore.c:354-368 | matched undoable operations and backed persistent used-checks: with at most n persistent unlocks under way, the value together with those under way is at most size - 1 + n, and within the size when they do not overlap |
| SemaphoreProtocol.OvershootBound | src/Semaphore.c:354-368 | persistent locking: with at most n processes between used-check and post the value is at most size - 1 + n (and the system limit), and at most size when unlocks do not overlap |
| SemaphoreProtocol.BoundReached | src/Semaphore.c:354-368 | for every n there is a run that reaches that bound |
| SemaphoreProtocol.UndoNeverOvershoots | src/Semaphore.c:354-368 | with undoable matched operations the value stays between 0 and size, however unlocks overlap |
| SemaphoreProtocol.MixedModesUnbounded | src/Semaphore.c:354-368 | with both modes mixed, a size-1 semaphore reaches every value up to the limit in a matched run in which no two unlocks overlap |
| GuardProtocol.GuardConserved | src/SharedMemory.c:200-210 | after any run with crashes, guard value plus adjustments is 1, an adjustment is 1 exactly while its process is between lock and unlock, and at most one process is |
| GuardProtocol.NoAssertFails | src/SharedMemory.c:201-210 | no process is ever stopped by an assert: a holder's used-check passes, its post succeeds and frees the guard |
| GuardProtocol.GuardNeverStuck | src/Semaphore.c:268-282 | the guard is free and any waiting process can take it, or a live process holds it and that process's death frees it |
| CStrings.WriteThenRead | src/SharedMemory.c:205-217 | reading back a NUL-free text at any offset inside the segment gives its first min(length, size - offset - 1) bytes padded with NULs; no byte outside the written range changes |
| CStrings.NextByte | src/SharedMemory.c:216-217 | strncpy can be made byte by byte: the next byte depends on the bytes already copied and one byte of the source |
| GuardedStrings.Serialisable | src/SharedMemory.c:200-220 | byte-by-byte accesses of any number of processes are serial: each read is, up to the first NUL, what the last accesses before it to store each byte have stored (the text as far as it fits, and its terminator), then NULs; between accesses so is the memory; without a crash no write is torn |
| GuardedStrings.ReadAfterWrite | src/SharedMemory.c:205-217 | in the serial order, a read straight after a write at the same place gets the text as far as it fits, padded with NULs |
| GuardedStrings.StringsLinearizable | src/SharedMemory.c:200-220 | every history of string calls and returns has a serial order that explains each result byte by byte and respects real time, in which only calls of crashed processes are torn, and none without a crash |
| GuardedStrings.AccessCompletes | src/SharedMemory.c:200-220 | in every reachable state a process in a string access that holds the guard, finds it free or has released it can complete the call by its own steps alone |
| GuardedStrings.TornWriteIsAPrefix | src/SharedMemory.c:200-210 | a writer may die at any moment inside; that leaves a prefix of its write over the earlier memory, and the guard free |
| GuardedWords.WordsLinearizable | src/SharedMemory.c:223-241 | every history of word reads and writes, crashes included, has an order that respects real time and in which each read returns the value of the last write to its offset before it, or the initial word |
| GuardedWords.HoldsOne | src/SharedMemory.c:223-241 | that last value is one value |
| GuardedWords.LiveMayDie | src/SharedMemory.c:223-241 | a process may die at any moment; memory and history stay, and the guard is free if it was the holder |
| GuardedWords.AccessCompletes | src/SharedMemory.c:223-241 | in every reachable state a process in a word access that holds the guard, finds it free or has released it can complete the call by its own steps alone |
| RunCounter.IncrementsBounded | src/daemonize.h:67-72 | n interleaved increments from c0 below 2^32, crashes included: the count is at least c0 + 1 once anyone has stored and at most c0 plus the stores; between c0 + 1 and c0 + n when all have returned |
| RunCounter.NothingLostExactly | src/daemonize.h:67-72 | the count is c0 plus the number of stores if and only if at every store of the run the loaded value is still the count |
| RunCounter.AwayFromIntMax | src/daemonize.h:67-72 | no increment is undefined in C unless the largest int is among c0, ..., c0 + n - 1 |
| RunCounter.LiveMayDie | src/daemonize.h:67-72 | a process may die at any moment of its increment; the count stays, and the guard is free if it was the holder |
| RunCounter.IncrementsExact | src/daemonize.h:67-72 | in particular, when no two calls overlap the count moves by exactly the number of stores, so by n when all have returned |
| RunCounter.EveryCountOccurs | src/daemonize.h:67-72 | for every m from 1 to n some run of n complete calls ends at c0 + m |
| Semaphores.Semaphore.New | src/Semaphore.c:44-89 | makes a set with every value at size, or attaches when allowed; a refused size fails and leaves the set; the exact resulting kernel state |
| Semaphores.Semaphore.Init | src/Semaphore.c:212-228 | every semaphore of the set holds the size, unless the system refuses it |
| Semaphores.Semaphore.Attach | src/Semaphore.c:119-147 | a handle of size 1 with the set's count exactly when the set exists |
| Semaphores.Semaphore.Delete | src/Semaphore.c:91-106 | removes the set exactly when told to, and nothing else |
| Semaphores.Semaphore.Used | src/Semaphore.c:149-158 | size less value; size + 1 when there is no such semaphore |
| Semaphores.Semaphore.Lock | src/Semaphore.c:247-336 | the outcome of the three modes under any environment, also without the semaphore: what is returned, which unit is taken from which state, and when |
| Semaphores.Semaphore.Poll | src/Semaphore.c:313-332 | takes a unit at the first whole second at which one is free, and otherwise gives up after exactly `timeout` seconds |
| Semaphores.FirstFree | src/Semaphore.c:317-332 | no unit is free before that second, and one is free at it |
| Semaphores.PolledTells | src/Semaphore.c:313-332 | the polled mode takes a unit at the first second at which one is free, or all its seconds pass and none was free at any of them |
| Semaphores.Semaphore.Unlock | src/Semaphore.c:338-369 | gives one unit back and returns 0 exactly when one is used and the value is below the limit; otherwise -1 and no change |
| SharedSegments.SharedMemory.New | src/SharedMemory.c:16-142 | the exact segments and guard sets after every combination of existing objects and `attach`, and when the handle is given |
| SharedSegments.SharedMemory.Attach | src/SharedMemory.c:172-186 | a handle exactly when the segment exists, without guard when the guard does not |
| SharedSegments.SharedMemory.Delete | src/SharedMemory.c:144-170 | removes segment and guard exactly when told to |
| SharedSegments.SharedMemory.WriteUInt | src/SharedMemory.c:223-231 | stores the word modulo 2^32; guard, clock and all other bytes as before; both asserts hold |
| SharedSegments.SharedMemory.ReadUInt | src/SharedMemory.c:232-241 | the stored word; guard and clock as before; both asserts hold |
| SharedSegments.SharedMemory.Write | src/SharedMemory.c:200-211 | stores the truncated text and its terminator; both asserts hold |
| SharedSegments.SharedMemory.Read | src/SharedMemory.c:212-220 | the bytes up to the first NUL, padded; both asserts hold |
| SharedSegments.RoundTrip | src/SharedMemory.c:200-220 | a write followed by a read at the same offset gives the text as far as it fits, padded, and changes nothing else |
| SharedSegments.WordAfterSetWord | src/SharedMemory.c:227-240 | a word loaded after a store is the stored one at that offset and the old one at any other |
| LockTool.Tool.Init | src/lock.c:116-141 | rebuilds size and deadline from the segment and the set's change time; returns -1 and changes nothing when the segment or its guard is missing |
| LockTool.Tool.Create | src/lock.c:143-168 | the objects made and the result, for a free key, a taken key, a refused size, and a segment or guard that is already there |
| LockTool.Tool.Delete | src/lock.c:170-188 | removes the set, and the segment with its guard, whichever exist; returns how many of set and segment were missing |
| LockTool.Tool.Status | src/lock.c:190-212 | reports used, size and remaining time of a lock that has not expired, whatever objects of the key exist; changes none |
| LockTool.Tool.Lock | src/lock.c:238-255 | an expired lock is removed; otherwise a unit is tried for within the remaining time; without a readable segment the options of the process decide |
| LockTool.Tool.Unlock | src/lock.c:257-268 | gives one unit back exactly when one is used, expired or not, whatever objects of the key exist |
| LockObjects.CreateSucceedsExactly | src/lock.c:143-168 | from any subset of a key's objects `create` succeeds if and only if there is none and the size is at most 32767; it then makes all three, and it never changes what exists |
| LockObjects.CreateRefines | src/lock.c:143-168 | `create` keeps every key's objects all-or-none if and only if the key is taken or the size is at most 32767, and is then the table's create |
| LockObjects.DeleteRefines | src/lock.c:170-188 | `delete` leaves none of the key's three objects, all other keys whole, and is the table's delete |
| LockObjects.DeleteClears | src/lock.c:170-188 | from any subset of a key's objects `delete` leaves none if and only if it was not a guard without its segment; it returns how many of set and segment were missing, and touches no other key |
| LockObjects.WithoutSegment | src/lock.c:190-268 | a set whose segment cannot be read: `status` reports 1 - value used of size 1 for ever, `off` and `on` treat it so, and `on` with `-x` removes it |
| LockObjects.RefusedCreateLeavesALock | src/lock.c:143-212 | after a create that was refused for its size, `status` says 1 used of 1, `off` succeeds once, and `status` says 0 of 1 |
| LockObjects.DeleteUndoesRefusedCreate | src/lock.c:143-188 | after a create that was refused for its size, `delete` returns 1 and gives exactly the objects of before |
| LockObjects.StatusRefines | src/lock.c:190-212 | `status` reports what the table holds |
| LockObjects.OffRefines | src/lock.c:257-268 | `off` is the table's off and keeps all-or-none |
| LockObjects.OnRefines | src/lock.c:238-255 | `on` is the table's on, expiry and timeout included, and keeps all-or-none |
| LockObjects.OnWithinDeadline | src/lock.c:244-248 | under any environment, `on` for an unexpired lock never waits without bound and ends by the deadline; it takes a unit only strictly before it, at the first second at which one was free; when it gives up it has spent its whole limit and none was free at any second of it |
| LockObjects.SlotsDisjoint | src/lock.c:273 | two keys use disjoint kernel slots if and only if they differ modulo 128 |
| LockRuns.Command | src/lock.c:86-97 | one command in a process of its own: state and result are the table's, and every key has all or none of its objects again |
| LockRuns.Run | src/lock.c:86-97 | any finite sequence of commands gives the table's final state and the table's results |
| LockTable.SaneRun | src/lock.c:257-268 | over any run the units used stay between 0 and the size |
| LockTable.Isolation | src/lock.c:143-268 | commands on other keys leave a key's entry alone |
| LockTable.UnitsConserved | src/lock.c:238-268 | units used are those taken by successful `on` less those given back by successful `off`; size and deadline do not change |
| LockTable.StatusTells | src/lock.c:190-212 | after a create with n units and x seconds and any commands that keep the lock, `status` replies with the units taken less those given back, n, and x less the seconds gone by (-1 for no expiry), or -1 -1 -1 once expired |
| LockTable.OnTells | src/lock.c:238-255 | then `on` fails and removes the lock if it has expired, succeeds at once exactly when a unit is left, and otherwise gives up at once, after the timeout cut to the remaining time, or never |
| LockTable.OffTells | src/lock.c:257-268 | then `off` succeeds exactly when a unit is used, a second `create` fails and `delete` succeeds |
| LockTable.MissingTells | src/lock.c:170-268 | without a lock every other command fails with its code and changes nothing |
| LockTable.ClockMoves | src/lock.c:244-249 | only waits, and `on` commands that give up, move the clock, by their seconds |
| LockTable.CreateAfterRemoval | src/lock.c:170-188 | after `delete`, or `on` that finds the lock expired, a later create of the key succeeds whatever happens to other keys |
| LockTable.ExpiringOnReturnsInTime | src/lock.c:244-248 | `on` for an unexpired lock returns 0 or 1 by the deadline, and 0 strictly before it |
| LockTable.BudgetWithinDelta | src/lock.c:246 | the timeout passed on is never the blocking one and never above the remaining time, also when it is cut to a 32-bit int |
| BitReverse.SchemeReverses | src/bits.h:33-36 | entry i of the nested macro scheme is i with its bits reversed, at every even width, offset and step |
| BitReverse.TableIsScheme | src/bits.h:33-36 | the 256 entries that the macros expand to are the scheme at four levels |
| BitReverse.TableReverses | src/bits.h:36 | entry i of the byte table is i with its 8 bits reversed |
| BitReverse.WordReversed | src/bits.h:37-42 | four look-ups reverse a word: bit i becomes bit 31 - i |
| BitReverse.ReverseInvolution | src/bits.h:37-42 | reversing twice gives the word back |
| Emulator.Machine.LsbMacro | src/bits.h:67-74 | the word 1 or 0 for bit 0 |
| Emulator.Machine.MsbMacro | src/bits.h:76-82 | the word 1 or 0 for bit 31 |
| Emulator.XorIsParity | src/bits.h:56-65 | the exclusive or of all bits is the parity of the number of set bits |
| Emulator.Machine.Shift | src/ia32emu.c:79-111 | the bit-by-bit loop gives the word shifted by count mod 32, CF the last bit out, OF for a count of one, and every flag unchanged for zero |
| Emulator.FlagsOfShift | src/ia32emu.c:82-105 | bit 0 of the flags is then bit 32 - c or c - 1 of the operand; bit 11 is set by a one-bit left shift if and only if doubling the signed operand overflows, reset by other one-bit shifts, as before for other counts; all other bits as before |
| Shifts.ShiftedIsArithmetic | src/ia32emu.c:79-97 | for every word and count: SAL/SHL is x * 2^c mod 2^32, SHR is floor(x / 2^c), SAR is floor(signed x / 2^c) |
| Shifts.ArithmeticIsShifted | src/ia32emu.c:79-97 | no other word is that product or quotient |
| Shifts.CarryIsBit | src/ia32emu.c:83-87 | the carry is bit 32 - c of the operand for a left shift and bit c - 1 for a right one |
| Shifts.ShiftsCompose | src/ia32emu.c:82-97 | shifting by a, then b, is shifting by a + b, carry included when b >= 1 |
| Shifts.DoublingOverflow | src/ia32emu.c:99-101 | the sign bit changes in a one-bit left shift (what OF records) exactly when doubling the signed number overflows; otherwise the result is the double |
| Emulator.Machine.Test | src/ia32emu.c:135-152 | TEST leaves the conjunction in the buffer, and CF, OF, SF, ZF, PF tell its sign, whether it is zero, and the parity of all 32 bits |
| Emulator.FlagsOfTest | src/ia32emu.c:135-152 | bits 2, 6 and 7 of the flags tell even parity, zero and sign; bits 0 and 11 are reset; all other bits as before |
| Emulator.TestFlags | src/ia32emu.c:140-147 | top bit, zero test and XNOR of a word are its sign, its being zero and the evenness of its set bits |
| Emulator.SetBitsCount | src/bits.h:56-65 | the number of set bits is how many places of the word hold one |
| Emulator.JumpsOnNumber | src/ia32emu.c:421-465 | each of the thirty jumps by bits 0, 2, 6, 7 and 11 of the flags as a number |
| Emulator.JumpCompares | src/ia32emu.c:421-465 | whenever the flags are those of a comparison of a and b as the Intel manual defines them, each of the thirty jumps decides the signed or unsigned order, overflow, sign or parity that its name says |
| Registers.RegisterFile.Init | src/registers.c:22-48 | the registers as last stored, zero for a new segment, with the reserved flag bits set |
| Registers.RegisterFile.Delete | src/registers.c:73-85 | eflags, eax, ebx, ecx and edx are words 0 to 4 of segment 32; segment and guard 160 stay |
| Registers.ReservedBits | src/registers.c:29-32 | loading sets bit 1 of the flags, resets bits 3, 5 and 15 and keeps the others |
| Registers.JumpDecides | src/registers.c:27-32 | after the flags of TEST are loaded again, each jump decides on the conjunction: zero, signed or unsigned order against zero, or parity |
| Registers.TestRun | src/ia32emu.c:376-384 | a run that tests two registers stores the flags of their conjunction, and the registers as they were set |
| Registers.JumpRun | src/ia32emu.c:421-467 | a later run decides its jump on the stored flags and leaves the general registers as they were |
| Registers.TestThenJump | src/ia32emu.c:135-152 | one after the other, through the shared segment: the jump decides on a & b as a number, and eax and ebx come back |
| HexDigits.HctocIsDigit | src/bits.c:1-7 | a digit in either case stands for its place among the hexadecimal digits |
| HexDigits.DigitAlphabet | src/bits.c:3-5 | the digits are the characters of 0123456789abcdef and 0123456789ABCDEF in that order |
| HexDigits.ShiftAndOr | src/ia32emu.c:275-278 | shifting by four and or-ing a digit is 16 * x + d mod 2^32 |
| HexDigits.ReadHex | src/ia32emu.c:272-279 | the loop reads a digit string of any length as its positional value mod 2^32 |
| HexDigits.PrintedValue | src/ia32emu.c:272-279 | a number printed in k digits has that number as positional value |
| HexDigits.PrintThenRead | src/ia32emu.c:272-279 | reading the eight-digit print of a word gives the word |
| HexDigits.ReadThenPrint | src/ia32emu.c:272-279 | printing the value of an upper-case digit string in as many digits gives the string |

## Left out

- The supervisor loop, signal handling and `setjmp` of `daemonize.c`: only that each child calls `inc_count` once is kept.
- Option parsing, printing, `summary`, `syslog`, `perror` and the formatting in `SharedMemory$write`: the formatted text is an input, and the `-t`, `-s` and `-x` values are numbers.
- The `semtimedop` branch of `Semaphore$lock`: the Makefile never defines `Linux`; the polling branch is modelled.
- Removal of a set during a lock (EIDRM, which the code returns as success) and interruption by a signal: no step does either.
- `mlock`, `mlockall`, `malloc` failure and `errno` texts.
- The `size` field that `SharedMemory$attach` leaves unset: accesses use the true size of the segment, and offsets beyond it are not modelled.
- System limits on the number and size of sets and segments, and permissions.
- What `exit()` does to a value that its adjustment would take out of range: it is kept between 0 and the limit, as Linux does.
- Identifiers of kernel objects: an object is known by its `ftok` key, taken to be the low eight bits of the number (src/common.h:7-8).
- Undo adjustments in the serial kernel: each guarded access there locks and unlocks in one go, so they are zero between calls; the protocol modules carry them.
- The time that work takes: in the serial part only `sleep` and the time between commands move the clock.
- Commands of the `lock` tool that interleave with each other: what other processes do to the semaphores during a poll is arbitrary, but creation and removal are not interleaved.
- The byte order of words (least byte first here), string and word accesses mixed on one segment, and the order in which `vsnprintf` stores its bytes (left to right here).
- RunCounter.IncrementsBounded: does not say what follows an increment of the largest int, because that is undefined in C (`get_count` returns a signed int); such an increment may store anything, and counters on either side of it are covered.
- Semaphores.Semaphore.Lock: a blocking call that has to wait ends as `Asleep`; that it takes a unit when one becomes free is part of the protocol modules, where several processes run.
- SharedSegments.SharedMemory.Delete: does not model that the bytes are zeroed before the segment goes, which only a process still attached could see.
- LockTool.Tool.Init and the commands that use it: objects of the key may be missing, but those that exist are of the shape that the tool makes (one semaphore, a segment of 16 bytes with a size of at most 32767, a free guard).
- LockRuns.Run: asks for sizes that the system accepts, because of the case that `CreateRefines` singles out, and for nobody else acting; `OnWithinDeadline` covers `on` under any environment.
- Sets of the registers and of the `lock` tool share one key space; a lock on key 32 would collide with the registers' segment and is not modelled.
- SUB, CMP, ADD, OR and XOR of the emulator, MOV, JCXZ and JECXZ, and the dispatch that passes SAR for all four shifts: the shift claims are about `shift()` itself.
- The flags that the code and the Intel manual disagree on are as in the code: OF after a one-bit SHR is always 0, and PF covers all 32 bits.
- BitReverse.WordReversed: the table is a parameter of the model, required to be the one that `TableReverses` describes; the constructor of `Machine` makes it with the macros.
- The front end of the `v` option (`strtoul`, the size test, RST); the loop is modelled from where it starts.
- The register lookup array and the 8- and 16-bit register names of `registers.c`.
- The set's change time is the time of `SETALL`; Linux resets it at no other call that the tool makes.
