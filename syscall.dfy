/**
  The system-call dispatcher of userprog/syscall.c: how a trapped request is decoded
  from the user stack, which argument words are checked against the user/kernel
  boundary and read, which handler stub runs, and what is written back into the
  trap frame's eax.

  Side effects are recorded as a trace of events. The handler stubs `sys_exit` and
  `sys_halt` return to their caller, so the code as written carries on after an exit
  request; the outcome of a system call is therefore the FIRST exit or halt request in
  its trace (ResultOf); a trace without one completes the handler with eax written.
  After that store the handler prints a message and calls thread_exit, which never
  returns and destroys the calling thread, so in this code no trap resumes the user
  program; those two calls are not part of this model.
 */
module Syscalls {
  import opened CInt

  /** A 32-bit virtual address. */
  type Addr = Uint32

  /** Start of kernel virtual memory; user addresses lie below it. */
  const PHYS_BASE: int := 0xC000_0000

  datatype Option<T> = None | Some(value: T)

  /** The system calls the dispatcher handles. */
  datatype SyscallNr =
    | Halt | Exit | Exec | Wait | Create | Remove | Open
    | Filesize | Read | Write | Seek | Tell | Close

  /** The SYS_* number of each system call (their order in the enumeration). */
  function Number(sc: SyscallNr): int {
    match sc
    case Halt => 0
    case Exit => 1
    case Exec => 2
    case Wait => 3
    case Create => 4
    case Remove => 5
    case Open => 6
    case Filesize => 7
    case Read => 8
    case Write => 9
    case Seek => 10
    case Tell => 11
    case Close => 12
  }

  /** The `case` label of the switch that a syscall number selects, or None for the
      `default` branch. */
  function Decode(num: int): (r: Option<SyscallNr>)
    ensures r.Some? <==> 0 <= num <= 12
    ensures r.Some? ==> Number(r.value) == num
  {
    if num == 0 then Some(Halt)
    else if num == 1 then Some(Exit)
    else if num == 2 then Some(Exec)
    else if num == 3 then Some(Wait)
    else if num == 4 then Some(Create)
    else if num == 5 then Some(Remove)
    else if num == 6 then Some(Open)
    else if num == 7 then Some(Filesize)
    else if num == 8 then Some(Read)
    else if num == 9 then Some(Write)
    else if num == 10 then Some(Seek)
    else if num == 11 then Some(Tell)
    else if num == 12 then Some(Close)
    else None
  }

  /** Every system call's number selects that system call's case. */
  lemma DecodeNumber(sc: SyscallNr)
    ensures Decode(Number(sc)) == Some(sc)
  {
  }

  /** The number of argument words a system call takes. For every call except HALT,
      whose `case` checks nothing, it is also the slot its `case` passes to
      check_user_mem before reading. */
  function ArgWords(sc: SyscallNr): (k: nat)
    ensures k == 0 <==> sc == Halt
    ensures k == 1 <==> sc in {Exit, Exec, Wait, Remove, Open, Filesize, Tell, Close}
    ensures k == 2 <==> sc in {Create, Seek}
    ensures k == 3 <==> sc in {Read, Write}
  {
    match sc
    case Halt => 0
    case Create | Seek => 2
    case Read | Write => 3
    case _ => 1
  }

  // ---------------------------------------------------------------------------
  // Argument slots and the boundary check

  /** esp_val(esp, n): the address of argument slot n, `esp + 4 * n` computed on a
      32-bit pointer, so it wraps past the top of the address space. */
  function EspVal(esp: Addr, n: nat): (a: Addr)
    ensures (esp + 4 * n - a) % UINT32_MODULUS == 0
  {
    (esp + 4 * n) % UINT32_MODULUS
  }

  /** check_user_mem(esp, n): the address of slot n lies below PHYS_BASE. For every
      slot the source can name (4 * n below 2^32), it holds exactly when esp + 4 * n
      is a user address, or wraps past the top of the address space onto one. */
  function CheckUserMem(esp: Addr, n: nat): (ok: bool)
    ensures 4 * n < UINT32_MODULUS ==>
      (ok <==> esp + 4 * n < PHYS_BASE
               || UINT32_MODULUS <= esp + 4 * n < UINT32_MODULUS + PHYS_BASE)
  {
    EspVal(esp, n) < PHYS_BASE
  }

  /** Without wrap-around, slot n starts exactly 4 * n bytes above the stack pointer,
      and slot 0, the syscall number, is at the stack pointer itself. */
  lemma SlotAddress(esp: Addr, n: nat)
    requires esp + 4 * n < UINT32_MODULUS
    ensures EspVal(esp, 0) == esp
    ensures EspVal(esp, n) == esp + 4 * n
    ensures EspVal(esp, n) - EspVal(esp, 0) == 4 * n
  {
  }

  /** Without wrap-around, the check is monotone: when it passes for slot n it passes
      for every lower slot, so checking the highest slot a call reads covers them all. */
  lemma CheckUserMemMonotone(esp: Addr, m: nat, n: nat)
    requires m <= n && esp + 4 * n < UINT32_MODULUS
    requires CheckUserMem(esp, n)
    ensures CheckUserMem(esp, m)
  {
  }

  /** With wrap-around the check is not monotone: a stack pointer 4 bytes below the top
      of the address space passes the check for slot 1, whose address wraps to 0,
      while its slot 0 lies in kernel space. */
  lemma CheckUserMemWrapsAround()
    ensures CheckUserMem(0xFFFF_FFFC, 1) && !CheckUserMem(0xFFFF_FFFC, 0)
  {
  }

  /** The check tests only the first byte of a 4-byte slot: a slot that starts one
      byte below PHYS_BASE passes, although its last three bytes are kernel memory. */
  lemma CheckUserMemFirstByteOnly(esp: Addr, n: nat)
    requires esp + 4 * n == PHYS_BASE - 1
    ensures CheckUserMem(esp, n)
    ensures EspVal(esp, n) + 3 >= PHYS_BASE
  {
  }

  // ---------------------------------------------------------------------------
  // The handler stubs. Each ignores its arguments; a `bool` or `unsigned` result
  // becomes the `int` ret_val by C's conversions.

  function SysExec(cmdline: int): int { -1 }
  function SysWait(pid: int): int { -1 }
  function SysCreate(filename: int, initialSize: int): bool { false }
  function SysRemove(filename: int): bool { false }
  function SysOpen(file: int): int { -1 }
  function SysFilesize(fd: int): int { -1 }
  function SysRead(fd: int, buffer: int, size: int): int { -1 }
  function SysWrite(fd: int, buffer: int, size: int): int { -1 }
  function SysTell(fd: int): int { 0 }

  /** The `int` a C `bool` converts to. */
  function BoolToInt(b: bool): int { if b then 1 else 0 }

  // ---------------------------------------------------------------------------
  // Traces and outcomes

  /** What the dispatcher does that can be observed: a 4-byte read of user memory at
      an argument slot, a request to terminate the process, a request to power off,
      and a call to one of the other handler stubs with the words it was passed. */
  datatype Event =
    | Load(slot: nat, addr: Addr)
    | ExitRequest(status: int)
    | HaltRequest
    | Invoke(call: SyscallNr, args: seq<int>)

  /** The events of one trap, and the value written into the frame's eax. */
  datatype Run = Run(trace: seq<Event>, eax: Uint32)

  /** How a trap ends: the process is terminated with a status, the machine is
      powered off, or the handler reaches its store of ret_val into eax (Completed).
      Completed does not mean the user program resumes with eax: the handler goes on
      to thread_exit, which destroys the calling thread. */
  datatype Outcome = Exited(status: int) | Halted | Completed(eax: Uint32)

  predicate IsStop(e: Event) {
    e.ExitRequest? || e.HaltRequest?
  }

  /** The outcome a termination request stands for. */
  function StopOutcome(e: Event): Outcome
    requires IsStop(e)
  {
    if e.ExitRequest? then Exited(e.status) else Halted
  }

  /** The outcome that the first exit or halt request of a trace stands for; there is
      none exactly when the trace holds no request (FirstStopIsFirst says which request
      it is). */
  function FirstStop(t: seq<Event>): (r: Option<Outcome>)
    ensures r.None? <==> forall i :: 0 <= i < |t| ==> !IsStop(t[i])
    ensures r.Some? ==> !r.value.Completed?
  {
    if t == [] then None
    else if IsStop(t[0]) then Some(StopOutcome(t[0]))
    else
      assert forall i :: 1 <= i < |t| ==> t[i] == t[1..][i - 1];
      FirstStop(t[1..])
  }

  /** An outcome FirstStop finds is that of a request with no request before it. */
  lemma {:induction false} FirstStopIsFirst(t: seq<Event>)
    requires FirstStop(t).Some?
    ensures exists i :: 0 <= i < |t| && IsStop(t[i]) && FirstStop(t).value == StopOutcome(t[i])
                        && forall j :: 0 <= j < i ==> !IsStop(t[j])
  {
    if IsStop(t[0]) {
      assert IsStop(t[0]) && FirstStop(t).value == StopOutcome(t[0]);
    } else {
      FirstStopIsFirst(t[1..]);
      var k :| 0 <= k < |t[1..]| && IsStop(t[1..][k]) && FirstStop(t[1..]).value == StopOutcome(t[1..][k])
               && forall j :: 0 <= j < k ==> !IsStop(t[1..][j]);
      assert t[k + 1] == t[1..][k];
      assert forall j :: 1 <= j < k + 1 ==> t[j] == t[1..][j - 1];
    }
  }

  /** The outcome of a trap: its first termination request, if any; otherwise the
      completion of the handler with the eax it wrote. */
  function ResultOf(run: Run): Outcome {
    match FirstStop(run.trace)
    case Some(o) => o
    case None => Completed(run.eax)
  }

  /** The first request of a concatenation is the first request of its front part, if
      that has one. */
  lemma {:induction false} FirstStopAppend(t1: seq<Event>, t2: seq<Event>)
    ensures FirstStop(t1 + t2) == if FirstStop(t1).Some? then FirstStop(t1) else FirstStop(t2)
  {
    if t1 == [] {
      assert t1 + t2 == t2;
    } else {
      assert (t1 + t2)[0] == t1[0];
      assert (t1 + t2)[1..] == t1[1..] + t2;
      FirstStopAppend(t1[1..], t2);
    }
  }

  // ---------------------------------------------------------------------------
  // The dispatcher as a function of its inputs

  /** The reads of argument slots 1..k, in order. */
  function Loads(esp: Addr, k: nat): (t: seq<Event>)
    ensures |t| == k
  {
    if k == 0 then [] else Loads(esp, k - 1) + [Load(k, EspVal(esp, k))]
  }

  /** The words in argument slots 1..k of user memory. */
  function Args(esp: Addr, mem: Addr -> Int32, k: nat): (args: seq<int>)
    ensures |args| == k
  {
    if k == 0 then [] else Args(esp, mem, k - 1) + [mem(EspVal(esp, k))]
  }

  /** Trace t followed by the exit request of a failed check_user_mem(esp, k). */
  function Guarded(t: seq<Event>, esp: Addr, k: nat): seq<Event> {
    if CheckUserMem(esp, k) then t else t + [ExitRequest(-1)]
  }

  /** Loads and Args written out for the slot counts the dispatcher uses. */
  lemma SlotsUnfold(esp: Addr, mem: Addr -> Int32)
    ensures Loads(esp, 1) == [Load(1, EspVal(esp, 1))]
    ensures Loads(esp, 2) == [Load(1, EspVal(esp, 1)), Load(2, EspVal(esp, 2))]
    ensures Loads(esp, 3) == [Load(1, EspVal(esp, 1)), Load(2, EspVal(esp, 2)), Load(3, EspVal(esp, 3))]
    ensures Args(esp, mem, 1) == [mem(EspVal(esp, 1))]
    ensures Args(esp, mem, 2) == [mem(EspVal(esp, 1)), mem(EspVal(esp, 2))]
    ensures Args(esp, mem, 3) == [mem(EspVal(esp, 1)), mem(EspVal(esp, 2)), mem(EspVal(esp, 3))]
  {
    var l1, l2, l3 := Load(1, EspVal(esp, 1)), Load(2, EspVal(esp, 2)), Load(3, EspVal(esp, 3));
    assert Loads(esp, 3) == [l1, l2, l3] by {
      assert Loads(esp, 1) == [l1];
      assert Loads(esp, 2) == [l1, l2];
    }
  }

  /** The handler call a `case` ends with. */
  function CallEvent(sc: SyscallNr, args: seq<int>): Event
    requires sc != Halt && |args| == ArgWords(sc)
  {
    if sc == Exit then ExitRequest(args[0]) else Invoke(sc, args)
  }

  /** Trace t followed by the events of one `case` of the switch: the boundary check
      on the highest slot (an exit request when it fails), the reads of the argument
      slots, the handler call. */
  function CaseTrace(sc: SyscallNr, esp: Addr, mem: Addr -> Int32, t: seq<Event>): seq<Event> {
    if sc == Halt then
      t + [HaltRequest]
    else
      var k := ArgWords(sc);
      Guarded(t, esp, k) + Loads(esp, k) + [CallEvent(sc, Args(esp, mem, k))]
  }

  /** The value ret_val holds when the switch is left. Only the cases that assign it
      change it; otherwise it is still whatever its storage held (stale). */
  function RetVal(sc: SyscallNr, args: seq<int>, stale: Int32): (r: int)
    requires |args| == ArgWords(sc)
    ensures IsInt32(r)
    ensures sc in {Halt, Exit, Seek, Close} ==> r == stale
  {
    match sc
    case Exec => SysExec(args[0])
    case Wait => SysWait(args[0])
    case Create => BoolToInt(SysCreate(args[0], args[1]))
    case Remove => BoolToInt(SysRemove(args[0]))
    case Open => SysOpen(args[0])
    case Filesize => SysFilesize(args[0])
    case Read => SysRead(args[0], args[1], args[2])
    case Write => SysWrite(args[0], args[1], args[2])
    case Tell => SysTell(args[0])
    case Halt | Exit | Seek | Close => stale
  }

  /** The read of the syscall number, then the exit request of a failed mapping check. */
  function Prologue(esp: Addr, mapped: Addr -> bool): seq<Event> {
    var read := [Load(0, EspVal(esp, 0))];
    if mapped(esp) then read else read + [ExitRequest(-1)]
  }

  /** One trap through syscall_handler, for a stack pointer esp, a page mapping
      `mapped`, user memory `mem` (the word stored at each address) and the stale
      content `stale` of the uninitialised ret_val. */
  function Dispatch(esp: Addr, mapped: Addr -> bool, mem: Addr -> Int32, stale: Int32): Run {
    var prologue := Prologue(esp, mapped);
    match Decode(mem(EspVal(esp, 0)))
    case None =>
      Run(prologue + [ExitRequest(-1)], ToUint32(stale))
    case Some(sc) =>
      Run(CaseTrace(sc, esp, mem, prologue),
          ToUint32(RetVal(sc, Args(esp, mem, ArgWords(sc)), stale)))
  }

  // ---------------------------------------------------------------------------
  // Properties of the dispatcher

  /** A `case` only appends to the trace before it, and its last event is the request
      or handler call the `case` makes. */
  lemma CaseTraceExtends(sc: SyscallNr, esp: Addr, mem: Addr -> Int32, t: seq<Event>)
    ensures var r := CaseTrace(sc, esp, mem, t);
      |r| > |t| && r[..|t|] == t
      && r[|r| - 1] == if sc == Halt then HaltRequest else CallEvent(sc, Args(esp, mem, ArgWords(sc)))
  {
  }

  /** The prologue starts with the read of slot 0 at esp, holds nothing else but the
      exit request of a failed mapping check, and ends the trap with status -1 exactly
      when the stack page is unmapped. */
  lemma PrologueFacts(esp: Addr, mapped: Addr -> bool)
    ensures var p := Prologue(esp, mapped);
      p[0] == Load(0, esp)
      && (forall e :: e in p ==> e == Load(0, esp) || e == ExitRequest(-1))
      && FirstStop(p) == if mapped(esp) then None else Some(Exited(-1))
  {
    var read := [Load(0, EspVal(esp, 0))];
    assert FirstStop(read) == None;
    FirstStopAppend(read, [ExitRequest(-1)]);
  }

  /** The i-th read of Loads is the read of slot i + 1. */
  lemma {:induction false} LoadsAt(esp: Addr, k: nat, i: nat)
    requires i < k
    ensures Loads(esp, k)[i] == Load(i + 1, EspVal(esp, i + 1))
  {
    if i < k - 1 {
      LoadsAt(esp, k - 1, i);
    }
  }

  /** The syscall number is read from the user stack before the check that the
      stack page is mapped: the first event of every trap is the read of slot 0,
      and only then comes the exit request of a failed mapping check. */
  lemma NumberReadBeforeMapCheck(esp: Addr, mapped: Addr -> bool, mem: Addr -> Int32, stale: Int32)
    ensures var t := Dispatch(esp, mapped, mem, stale).trace;
      |t| >= 2 && t[0] == Load(0, esp) && (!mapped(esp) ==> t[1] == ExitRequest(-1))
  {
    PrologueFacts(esp, mapped);
  }

  /** A stack pointer on an unmapped page ends the trap with exit status -1. */
  lemma UnmappedStackExits(esp: Addr, mapped: Addr -> bool, mem: Addr -> Int32, stale: Int32)
    requires !mapped(esp)
    ensures ResultOf(Dispatch(esp, mapped, mem, stale)) == Exited(-1)
  {
    var p := Prologue(esp, mapped);
    PrologueFacts(esp, mapped);
    var t := Dispatch(esp, mapped, mem, stale).trace;
    var rest: seq<Event>;
    if Decode(mem(esp)).None? {
      rest := [ExitRequest(-1)];
    } else if Decode(mem(esp)).value == Halt {
      rest := [HaltRequest];
    } else {
      var sc := Decode(mem(esp)).value;
      var k := ArgWords(sc);
      var guard := if CheckUserMem(esp, k) then [] else [ExitRequest(-1)];
      assert Guarded(p, esp, k) == p + guard;
      rest := guard + Loads(esp, k) + [CallEvent(sc, Args(esp, mem, k))];
    }
    assert t == p + rest;
    FirstStopAppend(p, rest);
  }

  /** A number that selects no `case` ends the trap with exit status -1, and no
      argument slot beyond the number itself is read. */
  lemma UnknownNumberExits(esp: Addr, mapped: Addr -> bool, mem: Addr -> Int32, stale: Int32)
    requires Decode(mem(esp)).None?
    ensures ResultOf(Dispatch(esp, mapped, mem, stale)) == Exited(-1)
    ensures var t := Dispatch(esp, mapped, mem, stale).trace;
      forall j :: 0 <= j < |t| && t[j].Load? ==> t[j].slot == 0
  {
    var p := Prologue(esp, mapped);
    PrologueFacts(esp, mapped);
    FirstStopAppend(p, [ExitRequest(-1)]);
    var t := Dispatch(esp, mapped, mem, stale).trace;
    forall j | 0 <= j < |t| && t[j].Load?
      ensures t[j].slot == 0
    {
      if j < |p| {
        assert t[j] in p;
      }
    }
  }

  /** When check_user_mem fails for the highest argument slot of a call, the trap
      ends with exit status -1, and that exit request comes before every read of an
      argument slot. */
  lemma FailedCheckExitsBeforeArgs(esp: Addr, mapped: Addr -> bool, mem: Addr -> Int32, stale: Int32, sc: SyscallNr)
    requires Decode(mem(esp)) == Some(sc) && sc != Halt
    requires !CheckUserMem(esp, ArgWords(sc))
    ensures ResultOf(Dispatch(esp, mapped, mem, stale)) == Exited(-1)
    ensures var t := Dispatch(esp, mapped, mem, stale).trace;
      forall j :: 0 <= j < |t| && t[j].Load? && t[j].slot >= 1 ==> ExitRequest(-1) in t[..j]
  {
    var k := ArgWords(sc);
    var p := Prologue(esp, mapped);
    PrologueFacts(esp, mapped);
    var guarded := p + [ExitRequest(-1)];
    FirstStopAppend(p, [ExitRequest(-1)]);
    var t := Dispatch(esp, mapped, mem, stale).trace;
    var rest := Loads(esp, k) + [CallEvent(sc, Args(esp, mem, k))];
    assert t == guarded + rest;
    FirstStopAppend(guarded, rest);
    forall j | 0 <= j < |t| && t[j].Load? && t[j].slot >= 1
      ensures ExitRequest(-1) in t[..j]
    {
      assert t[..j][|p|] == ExitRequest(-1);
    }
  }

  /** Every read of a call is of some argument slot 0..ArgWords(sc), at the address
      esp_val gives for that slot. */
  lemma OnlyArgumentSlotsRead(esp: Addr, mapped: Addr -> bool, mem: Addr -> Int32, stale: Int32, sc: SyscallNr)
    requires Decode(mem(esp)) == Some(sc)
    ensures var t := Dispatch(esp, mapped, mem, stale).trace;
      forall j :: 0 <= j < |t| && t[j].Load? ==>
        t[j].slot <= ArgWords(sc) && t[j].addr == EspVal(esp, t[j].slot)
  {
    var k := ArgWords(sc);
    var p := Prologue(esp, mapped);
    PrologueFacts(esp, mapped);
    var t := Dispatch(esp, mapped, mem, stale).trace;
    var head := if sc == Halt then p else Guarded(p, esp, k);
    var loads := if sc == Halt then [] else Loads(esp, k);
    var last := if sc == Halt then HaltRequest else CallEvent(sc, Args(esp, mem, k));
    assert t == head + loads + [last];
    forall j | 0 <= j < |t| && t[j].Load?
      ensures t[j].slot <= k && t[j].addr == EspVal(esp, t[j].slot)
    {
      if |head| <= j < |head| + |loads| {
        LoadsAt(esp, k, j - |head|);
      }
    }
  }

  /** Each argument slot 0..ArgWords(sc) of a call is read. */
  lemma AllArgumentSlotsRead(esp: Addr, mapped: Addr -> bool, mem: Addr -> Int32, stale: Int32, sc: SyscallNr)
    requires Decode(mem(esp)) == Some(sc)
    ensures var t := Dispatch(esp, mapped, mem, stale).trace;
      forall i :: 0 <= i <= ArgWords(sc) ==> Load(i, EspVal(esp, i)) in t
  {
    var k := ArgWords(sc);
    var p := Prologue(esp, mapped);
    PrologueFacts(esp, mapped);
    var t := Dispatch(esp, mapped, mem, stale).trace;
    assert t[0] == Load(0, EspVal(esp, 0)) by {
      NumberReadBeforeMapCheck(esp, mapped, mem, stale);
    }
    if sc != Halt {
      var head := Guarded(p, esp, k);
      assert t == head + Loads(esp, k) + [CallEvent(sc, Args(esp, mem, k))];
      forall i | 1 <= i <= k
        ensures Load(i, EspVal(esp, i)) in t
      {
        LoadsAt(esp, k, i - 1);
        assert t[|head| + i - 1] == Load(i, EspVal(esp, i));
      }
    }
  }

  /** When the stack page is mapped and the highest argument slot passes the check,
      HALT ends in a power-off request, EXIT in an exit with the status word of slot 1,
      and every other call completes with the eax the handler wrote. */
  lemma CheckedCallOutcome(esp: Addr, mapped: Addr -> bool, mem: Addr -> Int32, stale: Int32, sc: SyscallNr)
    requires mapped(esp) && Decode(mem(esp)) == Some(sc)
    requires sc == Halt || CheckUserMem(esp, ArgWords(sc))
    ensures var run := Dispatch(esp, mapped, mem, stale);
      ResultOf(run)
      == if sc == Halt then Halted
         else if sc == Exit then Exited(mem(EspVal(esp, 1)))
         else Completed(run.eax)
  {
    var read := [Load(0, EspVal(esp, 0))];
    assert Prologue(esp, mapped) == read;
    assert FirstStop(read) == None;
    var t := Dispatch(esp, mapped, mem, stale).trace;
    if sc == Halt {
      assert t == read + [HaltRequest];
      FirstStopAppend(read, [HaltRequest]);
    } else {
      var k := ArgWords(sc);
      var call := CallEvent(sc, Args(esp, mem, k));
      assert Guarded(read, esp, k) == read;
      assert t == read + Loads(esp, k) + [call];
      assert FirstStop(Loads(esp, k)) == None by {
        forall i | 0 <= i < k
          ensures !IsStop(Loads(esp, k)[i])
        {
          LoadsAt(esp, k, i);
        }
      }
      FirstStopAppend(read, Loads(esp, k));
      FirstStopAppend(read + Loads(esp, k), [call]);
      if sc == Exit {
        SlotsUnfold(esp, mem);
        assert call == ExitRequest(mem(EspVal(esp, 1)));
      }
    }
  }


  /** HALT, EXIT, SEEK, CLOSE and an unknown number never assign ret_val, yet the
      handler stores it into eax: eax receives whatever the uninitialised variable
      held, whether or not any check failed. */
  lemma StaleEaxWritten(esp: Addr, mapped: Addr -> bool, mem: Addr -> Int32, stale: Int32)
    requires Decode(mem(esp)).None? || Decode(mem(esp)).value in {Halt, Exit, Seek, Close}
    ensures Dispatch(esp, mapped, mem, stale).eax == ToUint32(stale)
  {
  }

  /** The handler stubs return fixed sentinels, which reach eax through ret_val:
      -1 (0xFFFFFFFF) from exec, wait, open, filesize, read and write; 0 from create
      and remove (false) and from tell. */
  lemma StubSentinels(esp: Addr, mapped: Addr -> bool, mem: Addr -> Int32, stale: Int32, sc: SyscallNr)
    requires Decode(mem(esp)) == Some(sc)
    ensures sc in {Exec, Wait, Open, Filesize, Read, Write} ==>
      Dispatch(esp, mapped, mem, stale).eax == 0xFFFF_FFFF
    ensures sc in {Create, Remove, Tell} ==> Dispatch(esp, mapped, mem, stale).eax == 0
  {
  }

  // ---------------------------------------------------------------------------
  // The handler over a trap frame

  /** The part of the interrupt frame the dispatcher uses. */
  class IntrFrame {
    var esp: Addr
    var eax: Uint32
  }

  /** The `switch` of syscall_handler for a decoded number: checks the highest
      argument slot, reads the arguments, calls the handler stub and, in the cases
      that assign it, sets ret_val. */
  method RunCase(sc: SyscallNr, esp: Addr, mem: Addr -> Int32, trace: seq<Event>, retVal: Int32)
    returns (trace': seq<Event>, retVal': int)
    ensures trace' == CaseTrace(sc, esp, mem, trace)
    ensures retVal' == RetVal(sc, Args(esp, mem, ArgWords(sc)), retVal)
  {
    SlotsUnfold(esp, mem);
    trace', retVal' := trace, retVal;
    match sc {
      case Halt =>
        trace' := trace' + [HaltRequest];
      case Exit =>
        if !CheckUserMem(esp, 1) { trace' := trace' + [ExitRequest(-1)]; }
        assert trace' == Guarded(trace, esp, 1);
        var status := mem(EspVal(esp, 1));
        trace' := trace' + [Load(1, EspVal(esp, 1))];
        assert trace' == Guarded(trace, esp, 1) + Loads(esp, 1);
        trace' := trace' + [ExitRequest(status)];
      case Exec =>
        if !CheckUserMem(esp, 1) { trace' := trace' + [ExitRequest(-1)]; }
        assert trace' == Guarded(trace, esp, 1);
        var cmdline := mem(EspVal(esp, 1));
        trace' := trace' + [Load(1, EspVal(esp, 1))];
        assert trace' == Guarded(trace, esp, 1) + Loads(esp, 1);
        trace' := trace' + [Invoke(Exec, [cmdline])];
        retVal' := SysExec(cmdline);
      case Wait =>
        if !CheckUserMem(esp, 1) { trace' := trace' + [ExitRequest(-1)]; }
        assert trace' == Guarded(trace, esp, 1);
        var pid := mem(EspVal(esp, 1));
        trace' := trace' + [Load(1, EspVal(esp, 1))];
        assert trace' == Guarded(trace, esp, 1) + Loads(esp, 1);
        trace' := trace' + [Invoke(Wait, [pid])];
        retVal' := SysWait(pid);
      case Create =>
        if !CheckUserMem(esp, 2) { trace' := trace' + [ExitRequest(-1)]; }
        assert trace' == Guarded(trace, esp, 2);
        var filename := mem(EspVal(esp, 1));
        trace' := trace' + [Load(1, EspVal(esp, 1))];
        var initialSize := mem(EspVal(esp, 2));
        trace' := trace' + [Load(2, EspVal(esp, 2))];
        assert trace' == Guarded(trace, esp, 2) + Loads(esp, 2);
        trace' := trace' + [Invoke(Create, [filename, initialSize])];
        retVal' := BoolToInt(SysCreate(filename, initialSize));
      case Remove =>
        if !CheckUserMem(esp, 1) { trace' := trace' + [ExitRequest(-1)]; }
        assert trace' == Guarded(trace, esp, 1);
        var filename := mem(EspVal(esp, 1));
        trace' := trace' + [Load(1, EspVal(esp, 1))];
        assert trace' == Guarded(trace, esp, 1) + Loads(esp, 1);
        trace' := trace' + [Invoke(Remove, [filename])];
        retVal' := BoolToInt(SysRemove(filename));
      case Open =>
        if !CheckUserMem(esp, 1) { trace' := trace' + [ExitRequest(-1)]; }
        assert trace' == Guarded(trace, esp, 1);
        var file := mem(EspVal(esp, 1));
        trace' := trace' + [Load(1, EspVal(esp, 1))];
        assert trace' == Guarded(trace, esp, 1) + Loads(esp, 1);
        trace' := trace' + [Invoke(Open, [file])];
        retVal' := SysOpen(file);
      case Filesize =>
        if !CheckUserMem(esp, 1) { trace' := trace' + [ExitRequest(-1)]; }
        assert trace' == Guarded(trace, esp, 1);
        var fd := mem(EspVal(esp, 1));
        trace' := trace' + [Load(1, EspVal(esp, 1))];
        assert trace' == Guarded(trace, esp, 1) + Loads(esp, 1);
        trace' := trace' + [Invoke(Filesize, [fd])];
        retVal' := SysFilesize(fd);
      case Read =>
        if !CheckUserMem(esp, 3) { trace' := trace' + [ExitRequest(-1)]; }
        assert trace' == Guarded(trace, esp, 3);
        var fd := mem(EspVal(esp, 1));
        trace' := trace' + [Load(1, EspVal(esp, 1))];
        var buffer := mem(EspVal(esp, 2));
        trace' := trace' + [Load(2, EspVal(esp, 2))];
        var size := mem(EspVal(esp, 3));
        trace' := trace' + [Load(3, EspVal(esp, 3))];
        assert trace' == Guarded(trace, esp, 3) + Loads(esp, 3);
        trace' := trace' + [Invoke(Read, [fd, buffer, size])];
        retVal' := SysRead(fd, buffer, size);
      case Write =>
        if !CheckUserMem(esp, 3) { trace' := trace' + [ExitRequest(-1)]; }
        assert trace' == Guarded(trace, esp, 3);
        var fd := mem(EspVal(esp, 1));
        trace' := trace' + [Load(1, EspVal(esp, 1))];
        var buffer := mem(EspVal(esp, 2));
        trace' := trace' + [Load(2, EspVal(esp, 2))];
        var size := mem(EspVal(esp, 3));
        trace' := trace' + [Load(3, EspVal(esp, 3))];
        assert trace' == Guarded(trace, esp, 3) + Loads(esp, 3);
        trace' := trace' + [Invoke(Write, [fd, buffer, size])];
        retVal' := SysWrite(fd, buffer, size);
      case Seek =>
        if !CheckUserMem(esp, 2) { trace' := trace' + [ExitRequest(-1)]; }
        assert trace' == Guarded(trace, esp, 2);
        var fd := mem(EspVal(esp, 1));
        trace' := trace' + [Load(1, EspVal(esp, 1))];
        var position := mem(EspVal(esp, 2));
        trace' := trace' + [Load(2, EspVal(esp, 2))];
        assert trace' == Guarded(trace, esp, 2) + Loads(esp, 2);
        trace' := trace' + [Invoke(Seek, [fd, position])];
      case Tell =>
        if !CheckUserMem(esp, 1) { trace' := trace' + [ExitRequest(-1)]; }
        assert trace' == Guarded(trace, esp, 1);
        var fd := mem(EspVal(esp, 1));
        trace' := trace' + [Load(1, EspVal(esp, 1))];
        assert trace' == Guarded(trace, esp, 1) + Loads(esp, 1);
        trace' := trace' + [Invoke(Tell, [fd])];
        retVal' := SysTell(fd);
      case Close =>
        if !CheckUserMem(esp, 1) { trace' := trace' + [ExitRequest(-1)]; }
        assert trace' == Guarded(trace, esp, 1);
        var fd := mem(EspVal(esp, 1));
        trace' := trace' + [Load(1, EspVal(esp, 1))];
        assert trace' == Guarded(trace, esp, 1) + Loads(esp, 1);
        trace' := trace' + [Invoke(Close, [fd])];
    }
  }

  /** syscall_handler: reads the syscall number from the user stack of frame f,
      checks that the stack page is mapped, runs the selected `case` (an unknown
      number requests sys_exit(-1)) and stores ret_val into f.eax. */
  method SyscallHandler(f: IntrFrame, mapped: Addr -> bool, mem: Addr -> Int32, stale: Int32)
    returns (trace: seq<Event>)
    modifies f`eax
    ensures Run(trace, f.eax) == Dispatch(f.esp, mapped, mem, stale)
  {
    var esp := f.esp;
    var retVal: int := stale;
    var syscallNum := mem(EspVal(esp, 0));
    trace := [Load(0, EspVal(esp, 0))];
    if !mapped(esp) {
      trace := trace + [ExitRequest(-1)];
    }
    match Decode(syscallNum) {
      case Some(sc) =>
        trace, retVal := RunCase(sc, esp, mem, trace, stale);
      case None =>
        trace := trace + [ExitRequest(-1)];
    }
    f.eax := ToUint32(retVal);
  }
}
