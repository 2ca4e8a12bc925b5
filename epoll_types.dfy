/** The types shared by the two copies of the epoll timer
    (epoll/timer/mytimer.h, epoll/timer2/main.c:16-53), the Linux constants
    they pass to the kernel, and the record of what the code asks of the
    kernel.

    Kernel calls are not executed: every call the code makes is recorded as
    a `Call`, and what the kernel answers is a parameter of the operation. */
module EpollTypes {

  /** A C `int`. */
  newtype int32 = x: int | -0x8000_0000 <= x < 0x8000_0000

  /** A C `unsigned int`. */
  newtype uint32 = x: int | 0 <= x < 0x1_0000_0000

  /** The bit pattern of a C `int` that is combined with `|`. */
  type Word = bv32

  /** A C `int` given as its bit pattern is negative exactly when its sign bit is set. */
  predicate Negative(w: Word) {
    w & 0x8000_0000 != 0
  }

  // ---------------------------------------------------------------------------
  // Constants of the Linux (x86-64) headers the code includes

  const CLOCK_REALTIME: int32 := 0
  const EPOLL_CTL_ADD: int32 := 1
  const EPOLLIN: bv32 := 0x001
  const EPOLLERR: bv32 := 0x008
  const EPOLLHUP: bv32 := 0x010
  const F_GETFD: int32 := 1
  const F_SETFD: int32 := 2
  const F_GETFL: int32 := 3
  const F_SETFL: int32 := 4
  const FD_CLOEXEC: Word := 1
  const O_APPEND: Word := 0x400
  const O_NONBLOCK: Word := 0x800
  const O_ASYNC: Word := 0x2000
  const O_DIRECT: Word := 0x4000
  const O_NOATIME: Word := 0x40000

  // ---------------------------------------------------------------------------
  // Constants of the timer code

  /** `EPOOL_SIZE`, the size hint given to `epoll_create`. */
  const EPOOL_SIZE: int32 := 32000

  /** `EPOOL_EVENT`, the capacity of the event buffer of `epollWait`. */
  const EPOOL_EVENT: int32 := 32

  /** The return codes `DEFAULT_ERROR`, `PARAM_ERROR` and `RESULT_OK` of
      comontype.h: three distinct codes whose numeric values are not known. */
  datatype Status = DefaultError | ParamError | ResultOk

  // ---------------------------------------------------------------------------
  // Registration records

  /** `ENFD_TYPE`: what kind of descriptor a record describes. */
  datatype FdType = FdTimer | FdSocket | FdFile

  /** A callback (`TimerCallback`) and its argument (`void *`) are opaque:
      only their identity is kept, so that an invocation can be recorded. */
  type Callback = nat
  type Arg = nat

  /** `STEpollParam`: a descriptor, its kind, and the callback to run with
      the argument when the descriptor is readable. */
  datatype EpollParam = EpollParam(fd: int32, kind: FdType, cb: Callback, arg: Arg)

  /** The `void *` payload of an event: null, or a registration record. */
  datatype Payload = Null | Ptr(param: EpollParam)

  /** `struct epoll_event`: the event mask and the payload `data.ptr`. */
  datatype EpollEvent = EpollEvent(events: bv32, data: Payload)

  // ---------------------------------------------------------------------------
  // What the code asks of the kernel, and the callbacks it runs

  /** `struct timespec`; both casts into it (`(time_t)` and `(long)` of an
      `unsigned int`) widen, so the values are kept as they are. */
  datatype Timespec = Timespec(sec: int, nsec: int)

  /** `struct itimerspec`: the period and the first expiry. */
  datatype Itimerspec = Itimerspec(interval: Timespec, value: Timespec)

  datatype Call =
    | EpollCreate(size: int32)
    | TimerfdCreate(clock: int32, flags: int32)
    | TimerfdSettime(fd: int32, flags: int32, spec: Itimerspec)
    | EpollCtl(epfd: int32, op: int32, fd: int32, event: EpollEvent)
    | FcntlGet(fd: int32, cmd: int32)
    | FcntlSet(fd: int32, cmd: int32, word: Word)
    | EpollWaitCall(epfd: int32, maxEvents: int32, timeout: int32)
    | Invoke(cb: Callback, fd: int32, arg: Arg)
    | Close(fd: int32)

  /** What an operation returns, with the calls it made, in order. */
  datatype Outcome<T> = Outcome(ret: T, calls: seq<Call>)

  /** The number of `Close` calls in a trace. */
  function CloseCount(t: seq<Call>): nat {
    if t == [] then 0
    else CloseCount(t[..|t| - 1]) + (if t[|t| - 1].Close? then 1 else 0)
  }

  lemma {:induction false} CloseCountAppend(a: seq<Call>, b: seq<Call>)
    ensures CloseCount(a + b) == CloseCount(a) + CloseCount(b)
    decreases |b|
  {
    if b == [] {
      assert a + b == a;
    } else {
      assert (a + b)[..|a + b| - 1] == a + b[..|b| - 1];
      CloseCountAppend(a, b[..|b| - 1]);
    }
  }

  /** What `epoll_wait` answers in one round: a batch of at most
      `EPOOL_EVENT` ready events written to the start of the buffer, or a
      negative count. */
  datatype WaitAnswer = Ready(batch: seq<EpollEvent>) | Failed
}
