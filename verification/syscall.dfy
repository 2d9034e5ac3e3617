/** The system-call dispatch table (src/kernel/syscall.c): an array of optional handlers
    indexed by call number, filled by `syscall_init`, updated by `syscall_register`, and
    consulted by `syscall_handler`, which writes the outcome into the caller's
    parameter block. */
module Syscall {
  import opened Kernel

  /** `SYS_MAX`: the number of entries of the table (kernel.h:216-253). */
  const SysMax: nat := 26

  // The numbers of `SyscallNumber` that `syscall_init` registers or that stay empty.
  const SysNop: U32 := 0
  const SysExit: U32 := 1
  const SysFork: U32 := 2
  const SysExec: U32 := 3
  const SysWait: U32 := 4
  const SysGetPid: U32 := 5
  const SysGetTime: U32 := 6
  const SysAlloc: U32 := 7
  const SysFree: U32 := 8
  const SysMemInfo: U32 := 9
  const SysMpoolCreate: U32 := 10
  const SysMpoolDestroy: U32 := 11
  const SysIpcSend: U32 := 12
  const SysIpcReceive: U32 := 13
  const SysIpcQueueCreate: U32 := 14
  const SysIpcQueueDelete: U32 := 15
  const SysModuleLoad: U32 := 16
  const SysModuleUnload: U32 := 17
  const SysModuleQuery: U32 := 18
  const SysModuleCall: U32 := 19
  const SysOpen: U32 := 20
  const SysStat: U32 := 25

  /** A handler: one of the kernel's own, or any other code address a caller registers. */
  datatype Handler =
    | Exit | GetPid | GetTime
    | Alloc | Free | MemInfo | MpoolCreate | MpoolDestroy
    | IpcSend | IpcReceive | IpcQueueCreate | IpcQueueDelete
    | ModuleLoad | ModuleUnload | ModuleQuery | ModuleCall
    | Foreign(address: U32)

  /** The handler `syscall_init` registers under `num`, if any. */
  function InitialHandler(num: nat): Option<Handler> {
    match num
    case 1 => Some(Exit)
    case 5 => Some(GetPid)
    case 6 => Some(GetTime)
    case 7 => Some(Alloc)
    case 8 => Some(Free)
    case 9 => Some(MemInfo)
    case 10 => Some(MpoolCreate)
    case 11 => Some(MpoolDestroy)
    case 12 => Some(IpcSend)
    case 13 => Some(IpcReceive)
    case 14 => Some(IpcQueueCreate)
    case 15 => Some(IpcQueueDelete)
    case 16 => Some(ModuleLoad)
    case 17 => Some(ModuleUnload)
    case 18 => Some(ModuleQuery)
    case 19 => Some(ModuleCall)
    case _ => None
  }

  /** The table right after `syscall_init`. */
  function InitialTable(): (t: seq<Option<Handler>>)
    ensures |t| == SysMax
    ensures forall n :: 0 <= n < SysMax ==> t[n] == InitialHandler(n)
  {
    seq(SysMax, (n: nat) => InitialHandler(n))
  }

  /** The handler `syscall_handler` runs for `num`: none when the number is out of range
      or its entry is empty. */
  function Dispatch(t: seq<Option<Handler>>, num: U32): (h: Option<Handler>)
    requires |t| == SysMax
    ensures h.Some? <==> num < SysMax && t[num].Some?
    ensures h.Some? ==> t[num] == h
  {
    if num >= SysMax then None else t[num]
  }

  /** What `syscall_handler` stores in `params->result`: the handler's return value, or
      `ERR_NOT_IMPLEMENTED` converted to `u32` when no handler runs. */
  function ResultWord(h: Option<Handler>, handlerResult: U32): (r: U32)
    ensures h.None? ==> r == Word(NotImplemented) == 0xFFFF_FFF7
    ensures h.Some? ==> r == handlerResult
  {
    if h.None? then Word(NotImplemented) else handlerResult
  }

  /** After `syscall_init` exactly the sixteen numbers `SYS_EXIT` and `SYS_GETPID`
      through `SYS_MODULE_CALL` have a handler. */
  lemma InitialTablePopulated(num: U32)
    ensures Dispatch(InitialTable(), num).Some? <==> num == SysExit || SysGetPid <= num <= SysModuleCall
  {
  }

  /** The numbers `syscall_init` leaves empty, `SYS_NOP`, `SYS_FORK`, `SYS_EXEC`,
      `SYS_WAIT` and `SYS_OPEN` through `SYS_STAT`, answer `ERR_NOT_IMPLEMENTED`, as does
      every number from `SYS_MAX` on. */
  lemma UnregisteredNotImplemented(num: U32, handlerResult: U32)
    requires num in {SysNop, SysFork, SysExec, SysWait} || SysOpen <= num
    ensures ResultWord(Dispatch(InitialTable(), num), handlerResult) == Word(NotImplemented)
  {
  }

  /** Each of the sixteen kernel handlers is registered under exactly one number. */
  lemma InitialHandlersDistinct(m: nat, n: nat)
    requires m < SysMax && n < SysMax && InitialHandler(m).Some? && InitialHandler(m) == InitialHandler(n)
    ensures m == n
  {
  }

  /** `syscall_module_call`'s outcome for the pointer `ret` that `module_call` returned:
      success exactly when it is non-null, and the pointer is stored through `result`
      only when the caller passed one. */
  function ModuleCallOutcome(ret: U32, hasResult: bool): (o: (U32, Option<U32>))
    ensures o.0 == Word(Success) <==> ret != 0
    ensures o.0 != Word(Success) ==> o.0 == Word(Generic)
    ensures o.1.Some? <==> hasResult
    ensures o.1.Some? ==> o.1.value == ret
  {
    (if ret != 0 then Word(Success) else Word(Generic), if hasResult then Some(ret) else None)
  }

  /** `SyscallParams` (kernel.h:256-264). */
  class Params {
    var syscallNum: U32
    var arg1: U32
    var arg2: U32
    var arg3: U32
    var arg4: U32
    var arg5: U32
    var result: U32

    constructor (num: U32, a1: U32, a2: U32, a3: U32, a4: U32, a5: U32)
      ensures syscallNum == num && arg1 == a1 && arg2 == a2 && arg3 == a3 && arg4 == a4 && arg5 == a5
      ensures result == 0
    {
      syscallNum, arg1, arg2, arg3, arg4, arg5 := num, a1, a2, a3, a4, a5;
      result := 0;
    }
  }

  class Table {
    /** `syscall_table`. */
    const handlers: array<Option<Handler>>

    ghost predicate Valid()
      reads this
    {
      handlers.Length == SysMax
    }

    /** The table as a static array starts out all null. */
    constructor ()
      ensures Valid() && fresh(handlers)
      ensures forall n :: 0 <= n < SysMax ==> handlers[n].None?
    {
      handlers := new Option<Handler>[SysMax](_ => None);
    }

    /** `syscall_register`. */
    method Register(num: U32, handler: Option<Handler>) returns (e: ErrorCode)
      requires Valid()
      modifies handlers
      ensures num >= SysMax ==> e == InvalidArg && handlers[..] == old(handlers[..])
      ensures num < SysMax ==> e == Success && handlers[..] == old(handlers[..])[num := handler]
    {
      if num >= SysMax {
        return InvalidArg;
      }
      handlers[num] := handler;
      return Success;
    }

    /** `syscall_init`: clear the table, then register the sixteen kernel handlers. */
    method Init()
      requires Valid()
      modifies handlers
      ensures handlers[..] == InitialTable()
    {
      forall k | 0 <= k < handlers.Length {
        handlers[k] := None;
      }
      var ignored := Register(SysExit, Some(Exit));
      ignored := Register(SysGetPid, Some(GetPid));
      ignored := Register(SysGetTime, Some(GetTime));
      ignored := Register(SysAlloc, Some(Alloc));
      ignored := Register(SysFree, Some(Free));
      ignored := Register(SysMemInfo, Some(MemInfo));
      ignored := Register(SysMpoolCreate, Some(MpoolCreate));
      ignored := Register(SysMpoolDestroy, Some(MpoolDestroy));
      ignored := Register(SysIpcSend, Some(IpcSend));
      ignored := Register(SysIpcReceive, Some(IpcReceive));
      ignored := Register(SysIpcQueueCreate, Some(IpcQueueCreate));
      ignored := Register(SysIpcQueueDelete, Some(IpcQueueDelete));
      ignored := Register(SysModuleLoad, Some(ModuleLoad));
      ignored := Register(SysModuleUnload, Some(ModuleUnload));
      ignored := Register(SysModuleQuery, Some(ModuleQuery));
      ignored := Register(SysModuleCall, Some(ModuleCall));
      assert forall k :: 0 <= k < SysMax ==> handlers[k] == InitialHandler(k);
    }

    /** `syscall_handler`. `params` is the caller's block (null: nothing happens) and
        `handlerResult` what the selected handler returns; `invoked` is the handler run. */
    method Handle(params: Params?, handlerResult: U32) returns (invoked: Option<Handler>)
      requires Valid()
      modifies params
      ensures params == null ==> invoked.None?
      ensures params != null ==>
        && invoked == Dispatch(handlers[..], old(params.syscallNum))
        && params.result == ResultWord(invoked, handlerResult)
        && params.syscallNum == old(params.syscallNum)
        && params.arg1 == old(params.arg1) && params.arg2 == old(params.arg2)
        && params.arg3 == old(params.arg3) && params.arg4 == old(params.arg4)
        && params.arg5 == old(params.arg5)
    {
      if params == null {
        return None;
      }
      var num := params.syscallNum;
      if num >= SysMax as U32 || handlers[num].None? {
        params.result := Word(NotImplemented);
        return None;
      }
      invoked := handlers[num];
      params.result := handlerResult;
    }
  }
}
