# A verified model of `mytools`: breadth-first search and the epoll timer

The project models three source files.

- `arithmetic/bfs.py`: a breadth-first traversal of an adjacency map.
- `epoll/timer/mytimer.c`: a single-threaded epoll timer. It creates a
  periodic `timerfd` and creates an epoll instance. It registers a
  registration record (descriptor, kind tag, callback, argument) with that
  instance. It then loops on `epoll_wait` and hands every readable entry to
  `recvMsg`, which runs the callback of a timer record.
- `epoll/timer2/main.c`: a second copy of the same timer. It returns the
  literals `0` and `-1` where the first copy returns the status codes.

Files:

| file | module | contents |
|---|---|---|
| `graphs.dfy` | `Graphs` | adjacency maps, reachability, and breadth-first distance (`Dist`) as the least level holding a vertex |
| `bfs.dfy` | `Bfs` | `bfs` as an imperative loop (`Bfs.Bfs`) and as a function (`BfsOrder`), the loop invariants, and the properties of the order |
| `epoll_types.dfy` | `EpollTypes` | `STEpollParam`, `epoll_event`, `itimerspec`, the Linux constants, the three status codes, and the record of calls the code makes |
| `linux_fcntl.dfy` | `LinuxFcntl` | what `fcntl` does to the descriptor flags and the file status flags, as the fcntl(2) manual page describes it |
| `mytimer.dfy` | `MyTimer` | the operations of `mytimer.c` |
| `timer2.dfy` | `Timer2` | the operations of `timer2/main.c`, each proved to agree with `MyTimer` |

How the kernel is modelled:

- The code under study makes kernel calls, but nothing here executes them.
- A trace, a `seq<Call>`, records these calls in order:
  - the kernel calls `timerfd_create`, `timerfd_settime`, `epoll_create`,
    `fcntl`, `epoll_ctl`, `epoll_wait` and `close`;
  - the callback invocations `cb(fd, arg)`.
- `malloc` and `memset` are not recorded. Whether `malloc` found the buffer
  is the `buffered` parameter of `epollWait`, and the zeroed buffer is
  `NewBuffer`.
- The calls to `recvMsg` are not recorded either. Only the callbacks they
  run are.
- Every answer the kernel gives is a parameter of the operation.
- The answers to the successive `epoll_wait` calls form a finite script of
  `WaitAnswer`s. Each is a batch of ready events or a failure.
- `epollWait` allocates a buffer of `EPOOL_EVENT` entries, has the kernel
  write each batch to it, and runs a `for` loop over it. It is therefore a
  method over an `array`. It is proved equal to `WaitTrace`, a function
  over the script.
- `createTimer`, `createEpoll`, `setNoBlock`, `addFdToEpoll` and `recvMsg`
  only decide on answers and return. They are functions that give the
  return value together with the calls made.
- `DEFAULT_ERROR`, `PARAM_ERROR` and `RESULT_OK` are defined in
  `comontype.h`, which is not part of this model. They are modelled as the
  three distinct values of `Status`.

## Model

| member | source | states |
|---|---|---|
| Bfs.Bfs | arithmetic/bfs.py:13-29 | the loop returns exactly `BfsOrder(graph, star)`, the function form of the traversal. Its result is `Sound`, which its invariant `Inv` carries to the exit and to the failing lookup. `Inv` says: `scan + queue` is a breadth-first discovery order, `seen` is exactly the queued and output vertices, every output vertex's neighbours are seen, and everything closer than the queue front is output |
| Bfs.InvSeen | arithmetic/bfs.py:14-28 | under the loop invariant, `seen` holds exactly the queued and the output vertices, and no vertex is both queued and output |
| Bfs.BfsOrderSound | arithmetic/bfs.py:13-29 | two outcomes: (a) the output starts at `star`, repeats nothing, is breadth-first along a shortest-path tree in which each vertex's parent is the first output vertex listing it, holds exactly the vertices reachable from `star`, and all of them are keys; (b) the KeyError names a reachable vertex that is not a key |
| Bfs.BfsStartsAtStar | arithmetic/bfs.py:16-28 | the first output vertex is `star` |
| Bfs.BfsNoDuplicates | arithmetic/bfs.py:25-27 | no vertex is output twice |
| Bfs.BfsVisitsReachable | arithmetic/bfs.py:20-28 | a vertex is output if and only if it is reachable from `star` |
| Bfs.BfsKeyError | arithmetic/bfs.py:23 | the lookup `graph[cur]` fails if and only if some reachable vertex is not a key, and the failing key is such a vertex |
| Bfs.BfsLevelOrder | arithmetic/bfs.py:21-26 | the distance from `star` never decreases along the output |
| Bfs.BfsTreeOrder | arithmetic/bfs.py:24-27 | every later vertex is neighbour `pos[j]` of an earlier vertex `par[j]`, one level further out. `par[j]` is the first output vertex whose list holds the vertex, and `pos[j]` is the first position there that holds it, so every still-unseen neighbour is queued by the vertex being expanded. Children of an earlier parent come first, and children of one parent come in adjacency-list order |
| Bfs.LateParentRejected | arithmetic/bfs.py:24-27 | on `{A: [B, C], B: [F], C: [D, F]}`, an order that makes C the parent of F breaks `FirstFound`. B is expanded before C and queues F itself |
| Bfs.BfsLength | arithmetic/bfs.py:20-23 | the output is no longer than the number of keys, so the outer loop runs at most once per key |
| Bfs.Expand | arithmetic/bfs.py:24-27 | the inner loop only adds to `seen`, and only neighbours of `cur`. When it adds nothing, the queue is unchanged |
| Bfs.SampleOrder | arithmetic/bfs.py:4-11 | on the sample graph from `"A"` the output is A, B, C, D, E, F |
| MyTimer.Arming | epoll/timer/mytimer.c:52-57 | the first expiry is one second and no nanoseconds, which is nonzero, so the timer is armed. The period is `(uiSec, uiNsec)` |
| MyTimer.CreateTimer | epoll/timer/mytimer.c:26-66 | the result is non-negative exactly when both `timerfd_create` and `timerfd_settime` succeed, and then it is the created descriptor; otherwise it is -1. It arms the created descriptor with `Arming`, makes no arming call when creation failed, and closes nothing |
| MyTimer.CreateEpoll | epoll/timer/mytimer.c:111-130 | calls `epoll_create(EPOOL_SIZE)`. The result is the descriptor when that call succeeds and -1 when it fails |
| MyTimer.SetNoBlock | epoll/timer/mytimer.c:77-100 | as written: reads with `F_GETFD` and writes back with `F_SETFD` the value read with `O_NONBLOCK` added. It returns `RESULT_OK` exactly when the read is non-negative and the write succeeds, and `DEFAULT_ERROR` otherwise. There is no write after a failed read |
| MyTimer.WithNonBlock | epoll/timer/mytimer.c:90 | the flags word with `O_NONBLOCK` set and every other bit as read |
| MyTimer.Registration | epoll/timer/mytimer.c:144-146 | the registered event asks for `EPOLLIN`, `EPOLLERR` and `EPOLLHUP` and for no other event bit, and carries the record itself as payload |
| MyTimer.AddFdToEpoll | epoll/timer/mytimer.c:141-153 | exactly one `epoll_ctl(epfd, EPOLL_CTL_ADD, pstParam->fd, Registration)` call. The result is `DEFAULT_ERROR` exactly when `epoll_ctl` fails, otherwise `RESULT_OK` |
| MyTimer.RecvMsg | epoll/timer/mytimer.c:164-184 | a null payload gives `PARAM_ERROR` and runs nothing. A record gives `RESULT_OK`. A callback runs if and only if the record is tagged `FD_TIMER`, and then exactly once, with the record's own `fd` and argument |
| MyTimer.Dispatch | epoll/timer/mytimer.c:216-223 | dispatching a batch never closes a descriptor |
| MyTimer.DispatchBatch | epoll/timer/mytimer.c:216-223 | the `for` loop over the first `nfds` buffer entries makes exactly the calls of `Dispatch` on those entries |
| MyTimer.NewBuffer | epoll/timer/mytimer.c:202-207 | the buffer is new, holds `EPOOL_EVENT` entries, and every entry is zeroed |
| MyTimer.EpollWait | epoll/timer/mytimer.c:195-230 | the method's calls are exactly `WaitTrace`. Without the buffer it returns at once. Otherwise, each round waits for at most `EPOOL_EVENT` events with no timeout and dispatches the batch, until the first failed wait. Then `epfd` is closed |
| MyTimer.FiringIndices | epoll/timer/mytimer.c:216-223 | the indices of a batch whose entry is readable and carries a timer record, each in range, all of them, in increasing order |
| MyTimer.DispatchFires | epoll/timer/mytimer.c:216-223 | a batch runs one callback per firing entry and nothing else, in index order, each with that entry's own record |
| MyTimer.ErrorHangupSkipped | epoll/timer/mytimer.c:219 | an entry reporting only `EPOLLERR` or `EPOLLHUP` is not readable and runs nothing |
| MyTimer.RoundsClose | epoll/timer/mytimer.c:209-227 | the rounds close a descriptor once if some wait fails and never otherwise. The close is the last call and is of `epfd` |
| MyTimer.WaitCloses | epoll/timer/mytimer.c:202-227 | without the buffer `epollWait` makes no call at all. With it, `epfd` is closed exactly when a wait fails: once, and as the last call |
| MyTimer.StopsAtFailure | epoll/timer/mytimer.c:209-215 | nothing after the first failed wait is consumed |
| MyTimer.RegisteredEventDispatches | epoll/timer/mytimer.c:144-147 | a readable report for a registered descriptor carries back the registered record and runs exactly what `recvMsg` runs for it |
| MyTimer.TimerTickRound | epoll/timer/mytimer.c:211-223 | a round whose batch is one readable timer entry is one wait followed by one invocation of that record's callback |
| MyTimer.DemoRun | epoll/timer/main.c:28-57 | the demo driver's scenario: `createEpoll` gives 3 and `createTimer(3, 0)` gives 4. Registration succeeds. Two ticks then a failed wait give: wait, callback, wait, callback, wait, close(3) |
| MyTimer.SetNoBlockKeepsStatus | epoll/timer/mytimer.c:83-92 | under the fcntl(2) semantics, a `setNoBlock` that succeeds leaves the file status flags, where `O_NONBLOCK` lives, unchanged |
| MyTimer.SetNoBlockCounterexample | epoll/timer/mytimer.c:83-92 | a blocking descriptor (descriptor flags 0, status flags `O_RDWR`) is still blocking after `setNoBlock` returns `RESULT_OK` |
| MyTimer.SetNonBlocking | epoll/timer/mytimer.c:83-92 | corrected `setNoBlock`: the same decisions and return codes, with the `F_GETFL`/`F_SETFL` pair |
| MyTimer.SetNonBlockingEffect | epoll/timer/mytimer.c:83-92 | the corrected version succeeds and stores the read status flags with `O_NONBLOCK` added |
| MyTimer.SetNonBlockingSets | epoll/timer/mytimer.c:83-92 | after the corrected version the descriptor is non-blocking. The descriptor flags and every other status flag are unchanged |
| MyTimer.NonBlockingBits | epoll/timer/mytimer.c:90 | storing the read status flags with `O_NONBLOCK` added sets that bit and keeps every other bit |
| Timer2.Code | epoll/timer2/main.c:119-139 | the literal for a status: 0 exactly for success, otherwise -1 |
| Timer2.SetNoBlock | epoll/timer2/main.c:117-140 | as written, with `F_GETFD`/`F_SETFD`: 0 exactly when the read is non-negative and the write succeeds, otherwise -1. Same calls as `MyTimer.SetNoBlock`, and a code that agrees with it |
| Timer2.SetNonBlocking | epoll/timer2/main.c:123-132 | corrected `setNoBlock` with `F_GETFL`/`F_SETFL`. It agrees with `MyTimer.SetNonBlocking` |
| Timer2.AddFdToEpoll | epoll/timer2/main.c:181-193 | one `epoll_ctl` with mask `EPOLLIN\|EPOLLERR\|EPOLLHUP` and the record as payload. The result is -1 exactly when that call fails, otherwise 0. Agrees with `MyTimer.AddFdToEpoll` |
| Timer2.RecvMsg | epoll/timer2/main.c:204-224 | -1 exactly for a null payload, otherwise 0. A callback runs if and only if the record is a timer record, and then once with its own `fd` and argument. Agrees with `MyTimer.RecvMsg` |
| Timer2.DispatchBatch | epoll/timer2/main.c:256-263 | the inner loop makes exactly the calls of `MyTimer.Dispatch` on the first `nfds` entries |
| Timer2.EpollWait | epoll/timer2/main.c:235-270 | the calls are exactly `MyTimer.WaitTrace`, so every property proved of it holds for this copy too |
| Timer2.SetNoBlockCounterexample | epoll/timer2/main.c:123-132 | a blocking descriptor is still blocking after `setNoBlock` returns 0 |
| Timer2.SetNonBlockingSets | epoll/timer2/main.c:123-132 | the corrected version returns 0 and makes the descriptor non-blocking, changing no other flag |

## Left out

- Kernel behaviour of `timerfd_create`, `timerfd_settime`, `epoll_create`,
  `epoll_ctl`, `epoll_wait` and `close` is not modelled. Each of these calls
  is recorded, and its answer is a parameter.
- `malloc` is not recorded. Its answer is the `buffered` flag.
- The kernel behaviour that is not modelled includes when a timer fires,
  the expiration counter, and readiness.
- `fcntl` is the one exception. The effect of its four commands on the two
  flag words is modelled in `LinuxFcntl`, so that the `setNoBlock` finding
  can be stated.
- The constant values are those of Linux on x86-64.
- `MyTimer.EpollWait`: the source loops until a wait fails. The model runs
  over a finite script of answers, so it cannot state that the loop never
  ends on its own. When the script runs out without a failure, the model
  stops where the real loop would go on waiting, and `epfd` is not closed.
- `MyTimer.RecvMsg`: it never writes the record. This holds because records
  are values in the model. Addresses, aliasing, and a callback that
  changes its argument are not modelled.
- Callbacks are opaque: only the call `cb(fd, arg)` is recorded. What the
  demo callback does (`read` of the expiration counter, `printf`) is not
  modelled.
- `MyTimer.AddFdToEpoll`: a null `pstParam` is undefined behaviour in the
  source, because it is dereferenced. The model has no null record.
- The `memset` of the event buffer is modelled as a zero-filled buffer.
  `epoll_wait` overwrites the first `nfds` entries. The other entries are
  never read.
- `createTimer` and `createEpoll` in `epoll/timer2/main.c` (lines 66-106 and
  151-170) decide exactly as their copies in `mytimer.c` and return the same
  values. They are modelled once, as `MyTimer.CreateTimer` and
  `MyTimer.CreateEpoll`.
- The two demo drivers (`epoll/timer/main.c`, `epoll/timer2/main.c:272-330`)
  are left out as I/O-driven examples. Only their scenario is stated, as
  `MyTimer.DemoRun`.
- `arithmetic/bfs.py`: the printing at lines 31-33 is left out. Its run is
  stated as `Bfs.SampleOrder`.
- Python's `KeyError` is modelled as the `KeyError` outcome.
- Vertices are any type with equality. Python's hashing is not modelled.

## Findings

| source | as written | input that shows it | evidently intended | confidence | as-written member | corrected member |
|---|---|---|---|---|---|---|
| epoll/timer/mytimer.c:83-92 | `setNoBlock` reads and writes the flags with `F_GETFD`/`F_SETFD`. Those commands reach only the descriptor flags (`FD_CLOEXEC`), and Linux drops `O_NONBLOCK` there | an open descriptor with descriptor flags 0 and status flags `O_RDWR` (2): `setNoBlock` returns `RESULT_OK` and the descriptor is still blocking | `F_GETFL`/`F_SETFL`, which set `O_NONBLOCK` in the file status flags | not executed; high, from the fcntl(2) manual page | MyTimer.SetNoBlockCounterexample | MyTimer.SetNonBlockingSets |
| epoll/timer2/main.c:123-132 | the same `F_GETFD`/`F_SETFD` pair | the same descriptor: `setNoBlock` returns 0 and the descriptor is still blocking | `F_GETFL`/`F_SETFL` | not executed; high, from the fcntl(2) manual page | Timer2.SetNoBlockCounterexample | Timer2.SetNonBlockingSets |
