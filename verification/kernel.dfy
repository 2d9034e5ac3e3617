/** Shared vocabulary of the kernel: fixed-width integers, the error codes and the
    table sizes (src/kernel/kernel.h). */
module Kernel {

  /** A `u32` of the C source; arithmetic on it is written out where it wraps. */
  type U32 = x: int | 0 <= x < 0x1_0000_0000

  /** A `u8`; raw memory is a sequence of these. */
  type Byte = x: int | 0 <= x < 256

  datatype Option<T> = None | Some(value: T)

  const MaxIpcQueues: nat := 128

  /** The `ErrorCode` enumeration, one constructor per enumerator. */
  datatype ErrorCode =
    | Success | Generic | NoMemory | InvalidArg | NotFound | Exists | Permission | Busy
    | Timeout | NotImplemented | ModuleNotLoaded | InvalidModule | MempoolFull | MempoolEmpty
    | IpcQueueFull
  {
    /** The enumerator's numeric value: 0 for success, -1 down to -14 for the errors. */
    function Code(): (n: int)
      ensures n == 0 <==> this == Success
      ensures -14 <= n <= 0
    {
      match this
      case Success => 0
      case Generic => -1
      case NoMemory => -2
      case InvalidArg => -3
      case NotFound => -4
      case Exists => -5
      case Permission => -6
      case Busy => -7
      case Timeout => -8
      case NotImplemented => -9
      case ModuleNotLoaded => -10
      case InvalidModule => -11
      case MempoolFull => -12
      case MempoolEmpty => -13
      case IpcQueueFull => -14
    }
  }

  /** Conversion of a C `int` to `u32`: two's-complement wrap-around. */
  function ToU32(n: int): (r: U32)
    ensures 0 <= n < 0x1_0000_0000 ==> r == n
    ensures -0x1_0000_0000 <= n < 0 ==> r == n + 0x1_0000_0000
  {
    n % 0x1_0000_0000
  }

  /** The error code as it lands in a `u32` slot such as `SyscallParams.result`. */
  function Word(e: ErrorCode): (r: U32)
    ensures r == 0 <==> e == Success
    ensures e != Success ==> r >= 0x1_0000_0000 - 14
  {
    ToU32(e.Code())
  }

  /** Two distinct error codes never share a word: the mapping is injective. */
  lemma WordInjective(e1: ErrorCode, e2: ErrorCode)
    requires Word(e1) == Word(e2)
    ensures e1 == e2
  {
    assert e1.Code() == e2.Code();
  }

  /** `strncpy(dst, src, cap)` into a zeroed buffer: at most `cap` characters survive. */
  function Truncate(s: string, cap: nat): (r: string)
    ensures |r| <= cap && r <= s
    ensures |s| <= cap ==> r == s
    ensures |s| > cap ==> r == s[..cap]
  {
    if |s| <= cap then s else s[..cap]
  }
}
