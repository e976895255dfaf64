# Pintos system-call dispatcher and 17.14 fixed-point arithmetic

This project models two parts of a Pintos kernel:

- **The system-call dispatcher** of `src/userprog/syscall.c`. A user program traps
  with the system-call number on top of its stack and the arguments in the 32-bit
  words above it. `syscall_handler` reads the number through `esp_val`, then asks the
  page directory whether the stack page is mapped. It switches on the number. Every
  `case` except HALT checks the highest argument slot of its call with
  `check_user_mem`, reads the argument words and calls a handler stub. Finally it stores `ret_val` into the
  frame's `eax`.
- **The fixed-point macros** of `src/threads/float.h`. A real number is held in an
  `int` scaled by 2^14. There are 17 integer bits, 14 fraction bits and a sign bit.

Module `CInt` (`cint.dfy`) gives the C integer semantics both parts rest on:
- the ranges of `int`, `int64_t` and `uint32_t`;
- C's division, which truncates toward zero (`CDiv`);
- the conversion of an `int` into a 32-bit register (`ToUint32`).

Module `FixedPoint` (`fixed_point.dfy`) has one function per macro:
- Each `requires` states the C ranges in which the macro's expression does not
  overflow. Signed overflow is undefined behaviour in C, so those ranges are where
  the macro means anything.
- `Value(x) = x / 2^14` gives the meaning of each macro.

Module `Syscalls` (`syscall.dfy`) models the dispatcher:
- The user stack is a function `mem` from addresses to the 32-bit `int` stored there.
- Whether a page is mapped is a predicate `mapped`.
- The uninitialised `ret_val` is a parameter `stale`.
- Addresses are 32-bit, so `esp + 4*n` wraps modulo 2^32.
- Side effects become a trace of events: a read of a stack slot, an exit request, a
  power-off request, or a call of a handler stub with its argument words.
- `Dispatch` is the specification of one trap. The method
  `SyscallHandler` runs over a trap frame object (`IntrFrame`, with `esp` and
  `eax`). Its postcondition says it produces exactly `Dispatch`'s trace and leaves
  `Dispatch`'s `eax` in the frame.

The stubs `sys_exit` and `sys_halt` in this code return to their caller. So after a
failed check the handler carries on: it reads the arguments and calls the stub
anyway. The model keeps that behaviour. The outcome of a trap is the first exit or
power-off request in its trace (`FirstStop`, `ResultOf`); a trap without one completes
with `eax` written. Two behaviours of the code as written are stated by lemmas:
- The number is read before the mapping check (`NumberReadBeforeMapCheck`).
- HALT, EXIT, SEEK, CLOSE and an unknown number store the uninitialised `ret_val`
  into `eax` (`StaleEaxWritten`).

The code validates less than a system-call layer usually does, and the model keeps
what it does:
- The number is read before any check.
- Only the first byte of the highest argument slot is compared with `PHYS_BASE`.
- Only the page holding `esp` is looked up in the page directory.
- A failed check requests an exit but does not stop the handler.
- `eax` is written for every call, including HALT, EXIT, SEEK and CLOSE.

## Model

| member | source | states |
|---|---|---|
| CInt.CDiv | src/threads/float.h:9 | C's `/` truncates toward zero. The remainder is smaller than the divisor in magnitude and carries the sign of the dividend. |
| CInt.TruncQuotientUnique | src/threads/float.h:9 | Those two remainder rules determine the quotient uniquely. |
| CInt.ToUint32 | src/userprog/syscall.c:132 | Storing an `int` into the 32-bit `eax` gives the value congruent to it modulo 2^32. |
| CInt.ToUint32OfInt32 | src/userprog/syscall.c:132 | A non-negative `int` keeps its value in `eax`. A negative one becomes x + 2^32. |
| FixedPoint.IntToFp | src/threads/float.h:6-8 | Defined where the product n * 2^14 fits an `int`. INT_TO_FP(n) then has no fraction bits, its integer part is n, and it represents the real n. |
| FixedPoint.FpToIntZero | src/threads/float.h:9 | FP_TO_INT_ZERO is the quotient by 2^14 truncated toward zero. It always lies in [-2^17, 2^17). |
| FixedPoint.FpToIntRound | src/threads/float.h:10-12 | FP_TO_INT_ROUND scaled back is within half a unit of x. It lands exactly half a unit away only on the side away from zero. |
| FixedPoint.AddFp | src/threads/float.h:13 | ADD_FP represents the sum of the two represented numbers. |
| FixedPoint.SubFp | src/threads/float.h:14 | SUB_FP represents the difference of the two represented numbers. |
| FixedPoint.AddInt | src/threads/float.h:15 | ADD_INT adds the integer n to the represented number. |
| FixedPoint.SubInt | src/threads/float.h:16 | SUB_INT subtracts the integer n from the represented number. |
| FixedPoint.MultFp | src/threads/float.h:17 | The product of two `int`s fits the `int64_t` it is formed in. MULT_FP is that product divided by 2^14, truncated toward zero. |
| FixedPoint.MultInt | src/threads/float.h:18 | MULT_INT multiplies the represented number by the integer n. |
| FixedPoint.DivFp | src/threads/float.h:19 | The `int64_t` intermediate x * 2^14 cannot overflow. DIV_FP is that intermediate divided by y, truncated toward zero. |
| FixedPoint.DivInt | src/threads/float.h:20 | DIV_INT is x divided by n, truncated toward zero. It excludes the one overflowing `int` quotient, INT32_MIN / -1. |
| FixedPoint.IntToFpFitsInt32 | src/threads/float.h:4-8 | The product n * 2^14 of INT_TO_FP fits an `int` exactly when -2^17 <= n < 2^17, in both directions. |
| FixedPoint.ZeroRoundTrip | src/threads/float.h:8-9 | FP_TO_INT_ZERO(INT_TO_FP(n)) == n for every representable n. |
| FixedPoint.RoundRoundTrip | src/threads/float.h:8-12 | FP_TO_INT_ROUND(INT_TO_FP(n)) == n, with no intermediate overflow, for -2^17 < n < 2^17. |
| FixedPoint.RoundTripOverflowsAtMinimum | src/threads/float.h:8-12 | For n = -2^17, INT_TO_FP(n) is INT32_MIN, and the rounding intermediate `x - FRACTION/2` overflows. |
| FixedPoint.RoundIsNearest | src/threads/float.h:10-12 | No integer k is closer to x than FP_TO_INT_ROUND(x). |
| FixedPoint.RoundHalvesAwayFromZero | src/threads/float.h:10-12 | A value half-way between m and m + 1 rounds to m + 1 when it is non-negative, and to m when it is negative. |
| FixedPoint.RoundNegate | src/threads/float.h:10-12 | FP_TO_INT_ROUND(-x) == -FP_TO_INT_ROUND(x). |
| FixedPoint.AddIntIsAddFp | src/threads/float.h:13-15 | ADD_INT(x, n) == ADD_FP(x, INT_TO_FP(n)). |
| FixedPoint.SubIntIsSubFp | src/threads/float.h:14-16 | SUB_INT(x, n) == SUB_FP(x, INT_TO_FP(n)). |
| FixedPoint.MultFpProductFitsInt64 | src/threads/float.h:17 | The `int64_t` product in MULT_FP never overflows for two `int` operands. |
| FixedPoint.MultFpByIntIsMultInt | src/threads/float.h:17-18 | MULT_FP(x, INT_TO_FP(n)) == MULT_INT(x, n) exactly. |
| FixedPoint.DivFpByIntIsDivInt | src/threads/float.h:19-20 | DIV_FP(x, INT_TO_FP(n)) == DIV_INT(x, n). |
| Syscalls.Decode | src/userprog/syscall.c:50-128 | A number selects a `case` exactly when it is one of the 13 SYS_* numbers, and then it selects the call with that number. Every other number goes to `default`. |
| Syscalls.DecodeNumber | src/userprog/syscall.c:50-128 | Each call's own number selects that call. |
| Syscalls.ArgWords | src/userprog/syscall.c:50-125 | The highest argument slot each `case` reads, and the slot every `case` except HALT checks: 0 for HALT; 1 for EXIT, EXEC, WAIT, REMOVE, OPEN, FILESIZE, TELL and CLOSE; 2 for CREATE and SEEK; 3 for READ and WRITE. |
| Syscalls.EspVal | src/userprog/syscall.c:138-140 | `esp_val(esp, n)` is the 32-bit address congruent to esp + 4n. |
| Syscalls.SlotAddress | src/userprog/syscall.c:138-140 | Without wrap-around, slot 0 lies at esp and slot n lies 4n bytes above it. |
| Syscalls.CheckUserMem | src/userprog/syscall.c:142-144 | For 4n below 2^32, `check_user_mem(esp, n)` holds exactly in two cases: esp + 4n lies below PHYS_BASE, or the sum wraps past 2^32 onto an address below PHYS_BASE. |
| Syscalls.CheckUserMemMonotone | src/userprog/syscall.c:142-144 | Without wrap-around, a passing check of slot n implies a passing check of every lower slot. |
| Syscalls.CheckUserMemWrapsAround | src/userprog/syscall.c:142-144 | esp = 0xFFFFFFFC is a kernel address, yet the check of slot 1 passes because esp + 4 wraps to 0. |
| Syscalls.CheckUserMemFirstByteOnly | src/userprog/syscall.c:142-144 | A slot starting at PHYS_BASE - 1 passes the check although its last three bytes lie in kernel memory. |
| Syscalls.FirstStop | src/userprog/syscall.c:147-152 | It finds no outcome exactly when the trace holds no exit or power-off request. An outcome it finds is a termination, never a completion. |
| Syscalls.FirstStopIsFirst | src/userprog/syscall.c:147-152 | An outcome it finds is that of a request in the trace with no request before it. |
| Syscalls.ResultOf | src/userprog/syscall.c:132-152 | Definition only. The outcome of a trap is its first exit or power-off request, because the stubs return. With no such request, the trap completes with the eax it wrote. |
| Syscalls.FirstStopAppend | src/userprog/syscall.c:147-152 | A request in the first part of a trace decides the outcome. Otherwise the rest decides it. |
| Syscalls.SysExec | src/userprog/syscall.c:153-155 | Definition only: the stub returns -1 whatever its argument. |
| Syscalls.SysWait | src/userprog/syscall.c:156-158 | Definition only: the stub returns -1. |
| Syscalls.SysCreate | src/userprog/syscall.c:159-161 | Definition only: the stub returns false. |
| Syscalls.SysRemove | src/userprog/syscall.c:162-164 | Definition only: the stub returns false. |
| Syscalls.SysOpen | src/userprog/syscall.c:165-167 | Definition only: the stub returns -1. |
| Syscalls.SysFilesize | src/userprog/syscall.c:168-170 | Definition only: the stub returns -1. |
| Syscalls.SysTell | src/userprog/syscall.c:174-176 | Definition only: the stub returns 0. |
| Syscalls.SysRead | src/userprog/syscall.c:180-182 | Definition only: the stub returns -1. |
| Syscalls.SysWrite | src/userprog/syscall.c:183-185 | Definition only: the stub returns -1. |
| Syscalls.Loads | src/userprog/syscall.c:56-125 | The reads of argument slots 1..k: there are k of them. |
| Syscalls.LoadsAt | src/userprog/syscall.c:56-125 | The i-th of those reads is the read of slot i + 1 at the address `esp_val` gives for it. |
| Syscalls.Args | src/userprog/syscall.c:56-125 | The words of argument slots 1..k that the handler passes on: there are k of them. |
| Syscalls.CaseTrace | src/userprog/syscall.c:50-131 | Definition only, the events of one `case`. HALT requests a power-off. Every other case has, in order: the exit request of a failed check, the reads of slots 1..k, and the handler call, which for EXIT is the exit request with the word of slot 1. |
| Syscalls.CaseTraceExtends | src/userprog/syscall.c:50-131 | A `case` only appends to the trace before it, and its last event is the call the `case` makes. |
| Syscalls.RetVal | src/userprog/syscall.c:61-125 | The `ret_val` a case leaves is an `int`. HALT, EXIT, SEEK and CLOSE leave the uninitialised value unchanged. |
| Syscalls.Prologue | src/userprog/syscall.c:45-47 | Definition only: the read of slot 0, then an exit request with status -1 when the stack page is unmapped. |
| Syscalls.PrologueFacts | src/userprog/syscall.c:45-47 | The prologue starts with the read of slot 0 at esp and holds nothing but that read and the exit request. It ends the trap with status -1 exactly when the stack page is unmapped. |
| Syscalls.Dispatch | src/userprog/syscall.c:39-136 | Definition only, one trap: the prologue, then the selected `case` or, for an unknown number, an exit request with status -1. `eax` becomes ret_val modulo 2^32. Its properties are the lemmas below. |
| Syscalls.NumberReadBeforeMapCheck | src/userprog/syscall.c:45-47 | Every trap starts by reading slot 0 at esp. A failed mapping check comes only after that read. |
| Syscalls.UnmappedStackExits | src/userprog/syscall.c:47 | An unmapped stack page ends the trap with exit status -1, whatever the number. |
| Syscalls.UnknownNumberExits | src/userprog/syscall.c:127-128 | An unknown number ends the trap with exit status -1. No slot other than slot 0 is read. |
| Syscalls.FailedCheckExitsBeforeArgs | src/userprog/syscall.c:55-125 | A failed check of the highest argument slot ends the trap with exit status -1. That request precedes every read of an argument slot. |
| Syscalls.OnlyArgumentSlotsRead | src/userprog/syscall.c:45-125 | Every read is of a slot 0..ArgWords(call), at the address `esp_val` gives for it. |
| Syscalls.AllArgumentSlotsRead | src/userprog/syscall.c:45-125 | Every slot 0..ArgWords(call) is read. |
| Syscalls.CheckedCallOutcome | src/userprog/syscall.c:47-132 | When both checks pass: HALT powers off, EXIT exits with the word in slot 1, and every other call completes with the eax it wrote. |
| Syscalls.StaleEaxWritten | src/userprog/syscall.c:44-132 | HALT, EXIT, SEEK, CLOSE and an unknown number leave the uninitialised `ret_val` in eax. |
| Syscalls.StubSentinels | src/userprog/syscall.c:153-185 | EXEC, WAIT, OPEN, FILESIZE, READ and WRITE put 0xFFFFFFFF (-1) in eax. CREATE, REMOVE and TELL put 0 there. |
| Syscalls.RunCase | src/userprog/syscall.c:50-131 | One `case` of the switch appends the trace `CaseTrace` specifies and yields the `ret_val` that `RetVal` specifies. |
| Syscalls.SyscallHandler | src/userprog/syscall.c:39-136 | The trace produced and the eax left in the frame are exactly those of `Dispatch`. No other field of the frame changes. |

## Left out

- `syscall_init` registers the handler for interrupt 0x30 (syscall.c:33-37). Interrupt registration is outside this model. The handler is called directly.
- `pagedir_get_page(thread_current()->pagedir, esp)` is the predicate `mapped`. Page tables and the current thread are not part of this model.
- Each argument word is read as a 32-bit `int`, whatever pointer type the source casts the slot to (`unsigned *`, `const char **`, `void **`). All these types are 32 bits wide, and only the exit status is used as a number.
- Dereferencing a user address is the function `mem`. A fault on an unmapped or kernel address is not modelled: each read is recorded as an event and yields `mem` at that address.
- The `printf` and `thread_exit` after the store into eax (syscall.c:134-135) are not modelled. The first is console output. `thread_exit` never returns and destroys the calling thread, so in this code no trap resumes the user program; `Completed(eax)` means only that the handler reached the store at syscall.c:132.
- The handler stubs are modelled exactly as written: fixed return values, and requests for exit and halt. File descriptors, process records and a file system do not exist in this code.
- `sys_seek` is declared `void` but contains `return -1;` (syscall.c:171-173). Its result is discarded by the caller, so the model gives it none.
- C leaves the order in which a call's arguments are evaluated unspecified. The model records the reads of a call left to right.
- The values of `PHYS_BASE` (0xC0000000) and of the SYS_* numbers (0 to 12, in the order of the `case` labels) come from `threads/vaddr.h` and `lib/syscall-nr.h`. Neither file is part of this model.
- The macros of float.h are modelled as values. The parenthesisation hazards at their call sites are not modelled: `FRACTION` expands to an unparenthesised `1 << (Q)`. Every macro body except `FP_TO_INT_ROUND` lacks an outer pair of parentheses. Every use of `FRACTION` inside float.h is parenthesised, so the macros themselves compute what the model says. The call sites are not part of this model.
- `MULT_FP` and `DIV_FP` yield `int64_t` values. A caller storing them back into an `int` truncates them, and that conversion is not modelled.
- The fixed-point functions require the operands and their intermediate results to fit their C types. Overflow, which is undefined in C, is not modelled.
- SlotAddress: stated only for slots whose address does not wrap. `EspVal` itself covers the wrapping case, as a value congruent to esp + 4n.
- CheckUserMemMonotone: stated only for slots whose address does not wrap. With wrap-around it does not hold, as `CheckUserMemWrapsAround` shows.
- RoundRoundTrip: stated for -2^17 < n rather than -2^17 <= n. At n = -2^17 the rounding intermediate overflows, as `RoundTripOverflowsAtMinimum` shows.
