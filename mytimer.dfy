/** The epoll timer of epoll/timer/mytimer.c.

    `createTimer`, `setNoBlock`, `addFdToEpoll` and `recvMsg` decide on what
    the kernel answers and return a code: they are functions of those answers
    returning the code and the calls they made.  `epollWait` allocates an
    event buffer and loops on `epoll_wait`: it is a method over an array,
    proved against `WaitTrace`. */
module MyTimer {
  import opened EpollTypes
  import opened LinuxFcntl

  // ---------------------------------------------------------------------------
  // createTimer

  /** The `itimerspec` handed to `timerfd_settime`: first expiry after one
      second, then every `sec` seconds and `nsec` nanoseconds. */
  function Arming(sec: uint32, nsec: uint32): (spec: Itimerspec)
    ensures spec.value == Timespec(1, 0) && spec.value != Timespec(0, 0)
    ensures spec.interval.sec == sec as int && spec.interval.nsec == nsec as int
  {
    Itimerspec(interval := Timespec(sec as int, nsec as int), value := Timespec(1, 0))
  }

  /** `createTimer(uiSec, uiNsec)`, where `created` is what `timerfd_create`
      answers and `armed` what `timerfd_settime` answers. */
  function CreateTimer(sec: uint32, nsec: uint32, created: int32, armed: int32): (r: Outcome<int32>)
    ensures r.ret >= 0 <==> created >= 0 && armed >= 0
    ensures r.ret >= 0 ==> r.ret == created
    ensures r.ret < 0 ==> r.ret == -1
    ensures |r.calls| == (if created < 0 then 1 else 2)
    ensures r.calls[0] == TimerfdCreate(CLOCK_REALTIME, 0)
    ensures created >= 0 ==> r.calls[1] == TimerfdSettime(created, 0, Arming(sec, nsec))
    ensures CloseCount(r.calls) == 0
  {
    var create := [TimerfdCreate(CLOCK_REALTIME, 0)];
    if created < 0 then Outcome(-1, create)
    else
      var calls := create + [TimerfdSettime(created, 0, Arming(sec, nsec))];
      if armed < 0 then Outcome(-1, calls) else Outcome(created, calls)
  }

  // ---------------------------------------------------------------------------
  // setNoBlock

  /** The flags word with `O_NONBLOCK` added: the non-blocking bit is set
      and every other bit is as read. */
  function WithNonBlock(w: Word): (r: Word)
    ensures r & O_NONBLOCK != 0
    ensures r & !O_NONBLOCK == w & !O_NONBLOCK
  {
    w | O_NONBLOCK
  }

  /** `setNoBlock(fd)`, where `got` is what `fcntl(fd, F_GETFD)` answers and
      `setRet` what `fcntl(fd, F_SETFD, ...)` answers.  The commands are the
      descriptor-flag pair, as written. */
  function SetNoBlock(fd: int32, got: Word, setRet: int32): (r: Outcome<Status>)
    ensures r.ret == ResultOk <==> !Negative(got) && setRet >= 0
    ensures r.ret != ResultOk ==> r.ret == DefaultError
    ensures |r.calls| == (if Negative(got) then 1 else 2)
    ensures r.calls[0] == FcntlGet(fd, F_GETFD)
    ensures !Negative(got) ==> r.calls[1] == FcntlSet(fd, F_SETFD, WithNonBlock(got))
  {
    var get := [FcntlGet(fd, F_GETFD)];
    if Negative(got) then Outcome(DefaultError, get)
    else
      var calls := get + [FcntlSet(fd, F_SETFD, WithNonBlock(got))];
      if setRet < 0 then Outcome(DefaultError, calls) else Outcome(ResultOk, calls)
  }

  /** `setNoBlock` with the file-status-flag pair `F_GETFL`/`F_SETFL`, which
      is where Linux keeps `O_NONBLOCK`. */
  function SetNonBlocking(fd: int32, got: Word, setRet: int32): (r: Outcome<Status>)
    ensures r.ret == ResultOk <==> !Negative(got) && setRet >= 0
    ensures r.ret != ResultOk ==> r.ret == DefaultError
    ensures |r.calls| == (if Negative(got) then 1 else 2)
    ensures r.calls[0] == FcntlGet(fd, F_GETFL)
    ensures !Negative(got) ==> r.calls[1] == FcntlSet(fd, F_SETFL, WithNonBlock(got))
  {
    var get := [FcntlGet(fd, F_GETFL)];
    if Negative(got) then Outcome(DefaultError, get)
    else
      var calls := get + [FcntlSet(fd, F_SETFL, WithNonBlock(got))];
      if setRet < 0 then Outcome(DefaultError, calls) else Outcome(ResultOk, calls)
  }

  // ---------------------------------------------------------------------------
  // createEpoll

  /** `createEpoll()`, where `created` is what `epoll_create(EPOOL_SIZE)`
      answers: the new descriptor, or -1. */
  function CreateEpoll(created: int32): (r: Outcome<int32>)
    ensures r.ret >= 0 <==> created >= 0
    ensures r.ret >= 0 ==> r.ret == created
    ensures r.ret < 0 ==> r.ret == -1
    ensures r.calls == [EpollCreate(EPOOL_SIZE)]
  {
    var calls := [EpollCreate(EPOOL_SIZE)];
    if created < 0 then Outcome(-1, calls) else Outcome(created, calls)
  }

  // ---------------------------------------------------------------------------
  // addFdToEpoll and recvMsg

  /** The `epoll_event` registered for a record: readable, error and hang-up
      events and no other, with the record itself as payload. */
  function Registration(param: EpollParam): (ev: EpollEvent)
    ensures ev.events & EPOLLIN != 0 && ev.events & EPOLLERR != 0 && ev.events & EPOLLHUP != 0
    ensures ev.events & !(EPOLLIN | EPOLLERR | EPOLLHUP) == 0
    ensures ev.data == Ptr(param)
  {
    EpollEvent(EPOLLIN | EPOLLERR | EPOLLHUP, Ptr(param))
  }

  /** `addFdToEpoll(epfd, pstParam)`, where `ctl` is what `epoll_ctl` answers. */
  function AddFdToEpoll(epfd: int32, param: EpollParam, ctl: int32): (r: Outcome<Status>)
    ensures r.ret == DefaultError <==> ctl < 0
    ensures r.ret != DefaultError ==> r.ret == ResultOk
    ensures r.calls == [EpollCtl(epfd, EPOLL_CTL_ADD, param.fd, Registration(param))]
  {
    var calls := [EpollCtl(epfd, EPOLL_CTL_ADD, param.fd, Registration(param))];
    if ctl < 0 then Outcome(DefaultError, calls) else Outcome(ResultOk, calls)
  }

  /** `recvMsg(pvParam)`: a null payload is refused; a timer record runs its
      callback once on its own descriptor and argument; any other record is
      accepted and runs nothing. */
  function RecvMsg(p: Payload): (r: Outcome<Status>)
    ensures p.Null? ==> r.ret == ParamError && r.calls == []
    ensures p.Ptr? ==> r.ret == ResultOk
    ensures r.calls != [] <==> p.Ptr? && p.param.kind == FdTimer
    ensures r.calls != [] ==> r.calls == [Invoke(p.param.cb, p.param.fd, p.param.arg)]
    ensures CloseCount(r.calls) == 0
  {
    match p
    case Null => Outcome(ParamError, [])
    case Ptr(param) =>
      match param.kind
      case FdTimer => Outcome(ResultOk, [Invoke(param.cb, param.fd, param.arg)])
      case FdSocket => Outcome(ResultOk, [])
      case FdFile => Outcome(ResultOk, [])
  }

  // ---------------------------------------------------------------------------
  // epollWait as functions

  /** The test `events[i].events & EPOLLIN`. */
  predicate Readable(e: EpollEvent) {
    e.events & EPOLLIN != 0
  }

  /** The inner loop over one batch: `recvMsg` on each readable entry, in
      index order. */
  function Dispatch(batch: seq<EpollEvent>): (t: seq<Call>)
    ensures CloseCount(t) == 0
  {
    if batch == [] then []
    else
      var last := batch[|batch| - 1];
      var before := Dispatch(batch[..|batch| - 1]);
      var now := if Readable(last) then RecvMsg(last.data).calls else [];
      CloseCountAppend(before, now);
      before + now
  }

  /** One round of the outer loop: wait for at most `EPOOL_EVENT` events with
      no timeout; then dispatch the batch, or, on a negative count, leave the
      loop and close `epfd`. */
  function Round(epfd: int32, answer: WaitAnswer): seq<Call> {
    [EpollWaitCall(epfd, EPOOL_EVENT, -1)] +
    match answer
    case Failed => [Close(epfd)]
    case Ready(batch) => Dispatch(batch)
  }

  /** The rounds of the outer loop, one per answer of `epoll_wait`, up to the
      first negative count.  When the answers run out the loop is still
      waiting. */
  function Rounds(epfd: int32, answers: seq<WaitAnswer>): seq<Call> {
    if answers == [] then []
    else if answers[0].Failed? then Round(epfd, answers[0])
    else Round(epfd, answers[0]) + Rounds(epfd, answers[1..])
  }

  /** `epollWait(epfd)`, where `buffered` says whether `malloc` found the
      event buffer: without it nothing is waited for and nothing is closed. */
  function WaitTrace(epfd: int32, buffered: bool, answers: seq<WaitAnswer>): seq<Call> {
    if buffered then Rounds(epfd, answers) else []
  }

  // ---------------------------------------------------------------------------
  // epollWait as the source writes it

  /** The kernel's side of `epoll_wait`: never more events than the buffer holds. */
  predicate FitsBuffer(answers: seq<WaitAnswer>) {
    forall k :: 0 <= k < |answers| && answers[k].Ready? ==> |answers[k].batch| <= EPOOL_EVENT as int
  }

  /** The inner `for` loop of `epollWait` over the first `nfds` entries of
      the buffer. */
  method DispatchBatch(events: array<EpollEvent>, nfds: nat) returns (t: seq<Call>)
    requires nfds <= events.Length
    ensures t == Dispatch(events[..nfds])
  {
    t := [];
    for i := 0 to nfds
      invariant t == Dispatch(events[..i])
    {
      assert events[..i + 1][..i] == events[..i];
      if events[i].events & EPOLLIN != 0 {
        var r := RecvMsg(events[i].data);
        t := t + r.calls;
      }
    }
  }

  /** What `epoll_wait` does to the buffer: the batch is written to its start. */
  method Fill(events: array<EpollEvent>, batch: seq<EpollEvent>)
    requires |batch| <= events.Length
    modifies events
    ensures events[..|batch|] == batch
    ensures events[|batch|..] == old(events[|batch|..])
  {
    forall k | 0 <= k < |batch| {
      events[k] := batch[k];
    }
  }

  /** The zeroed buffer of `EPOOL_EVENT` entries `epollWait` allocates. */
  method NewBuffer() returns (events: array<EpollEvent>)
    ensures fresh(events) && events.Length == EPOOL_EVENT as int
    ensures forall k :: 0 <= k < events.Length ==> events[k] == EpollEvent(0, Null)
  {
    events := new EpollEvent[EPOOL_EVENT as int](_ => EpollEvent(0, Null));
  }

  /** `epollWait(epfd)`: allocate the buffer, then wait and dispatch until a
      wait fails, and close `epfd`.  `answers` are the kernel's answers to
      the successive waits; when they run out the loop is still waiting. */
  method EpollWait(epfd: int32, buffered: bool, answers: seq<WaitAnswer>) returns (trace: seq<Call>)
    requires FitsBuffer(answers)
    ensures trace == WaitTrace(epfd, buffered, answers)
  {
    trace := [];
    if !buffered {
      return;
    }
    var events := NewBuffer();
    var rest := answers;
    while rest != []
      invariant FitsBuffer(rest)
      invariant trace + Rounds(epfd, rest) == Rounds(epfd, answers)
      decreases |rest|
    {
      var round := [EpollWaitCall(epfd, EPOOL_EVENT, -1)];
      if rest[0].Failed? {
        trace := trace + round + [Close(epfd)];
        return;
      }
      var batch := rest[0].batch;
      Fill(events, batch);
      var calls := DispatchBatch(events, |batch|);
      assert round + calls == Round(epfd, rest[0]);
      trace := trace + (round + calls);
      rest := rest[1..];
    }
  }

  // ---------------------------------------------------------------------------
  // Which entries of a batch run a callback

  /** An entry whose dispatch runs a callback: readable, with a timer record. */
  predicate Fires(e: EpollEvent) {
    Readable(e) && e.data.Ptr? && e.data.param.kind == FdTimer
  }

  /** The callback invocation a timer record asks for. */
  function Invocation(param: EpollParam): Call {
    Invoke(param.cb, param.fd, param.arg)
  }

  /** The indices of the entries of a batch that fire, in increasing order. */
  function FiringIndices(batch: seq<EpollEvent>): (ix: seq<nat>)
    ensures forall k :: 0 <= k < |ix| ==> ix[k] < |batch| && Fires(batch[ix[k]])
    ensures forall i :: 0 <= i < |batch| && Fires(batch[i]) ==> i in ix
    ensures forall k, l :: 0 <= k < l < |ix| ==> ix[k] < ix[l]
  {
    if batch == [] then []
    else
      var n := |batch| - 1;
      var init := batch[..n];
      assert forall i :: 0 <= i < n ==> init[i] == batch[i];
      FiringIndices(init) + (if Fires(batch[n]) then [n] else [])
  }

  /** One batch runs exactly the callbacks of the readable timer entries, one
      invocation each, in index order. */
  lemma {:induction false} DispatchFires(batch: seq<EpollEvent>)
    ensures |Dispatch(batch)| == |FiringIndices(batch)|
    ensures forall k :: 0 <= k < |Dispatch(batch)| ==>
      Dispatch(batch)[k] == Invocation(batch[FiringIndices(batch)[k]].data.param)
  {
    if batch != [] {
      var n := |batch| - 1;
      var init, last := batch[..n], batch[n];
      DispatchFires(init);
      var d, ix := Dispatch(init), FiringIndices(init);
      var now := if Readable(last) then RecvMsg(last.data).calls else [];
      assert Dispatch(batch) == d + now;
      assert FiringIndices(batch) == ix + (if Fires(last) then [n] else []);
      assert now != [] <==> Fires(last);
      forall k | 0 <= k < |Dispatch(batch)|
        ensures Dispatch(batch)[k] == Invocation(batch[FiringIndices(batch)[k]].data.param)
      {
        if k < |d| {
          assert init[ix[k]] == batch[ix[k]];
        }
      }
    }
  }

  /** An entry reporting only an error or a hang-up runs nothing. */
  lemma ErrorHangupSkipped(e: EpollEvent)
    requires e.events & !(EPOLLERR | EPOLLHUP) == 0
    ensures !Readable(e) && Dispatch([e]) == []
  {
    assert [e][..0] == [];
  }

  // ---------------------------------------------------------------------------
  // The wait loop

  predicate AnyFailed(answers: seq<WaitAnswer>) {
    exists k :: 0 <= k < |answers| && answers[k].Failed?
  }

  lemma {:induction false} RoundsClose(epfd: int32, answers: seq<WaitAnswer>)
    ensures CloseCount(Rounds(epfd, answers)) == if AnyFailed(answers) then 1 else 0
    ensures AnyFailed(answers) ==> Rounds(epfd, answers)[|Rounds(epfd, answers)| - 1] == Close(epfd)
    decreases |answers|
  {
    if answers != [] {
      var w := [EpollWaitCall(epfd, EPOOL_EVENT, -1)];
      assert CloseCount(w) == 0 by { assert w[..0] == []; }
      match answers[0]
      case Failed =>
        assert CloseCount([Close(epfd)]) == 1 by { assert [Close(epfd)][..0] == []; }
        CloseCountAppend(w, [Close(epfd)]);
      case Ready(batch) =>
        var rest := answers[1..];
        RoundsClose(epfd, rest);
        CloseCountAppend(w, Dispatch(batch));
        CloseCountAppend(Round(epfd, answers[0]), Rounds(epfd, rest));
        assert AnyFailed(answers) <==> AnyFailed(rest) by {
          if AnyFailed(answers) {
            var k :| 0 <= k < |answers| && answers[k].Failed?;
            assert rest[k - 1] == answers[k];
          }
          if AnyFailed(rest) {
            var k :| 0 <= k < |rest| && rest[k].Failed?;
            assert answers[k + 1] == rest[k];
          }
        }
    }
  }

  /** `epfd` is closed exactly when the buffer was allocated and a wait failed,
      then once and as the last call; without the buffer nothing is called. */
  lemma WaitCloses(epfd: int32, buffered: bool, answers: seq<WaitAnswer>)
    ensures !buffered ==> WaitTrace(epfd, buffered, answers) == []
    ensures CloseCount(WaitTrace(epfd, buffered, answers)) == if buffered && AnyFailed(answers) then 1 else 0
    ensures CloseCount(WaitTrace(epfd, buffered, answers)) > 0 ==>
      WaitTrace(epfd, buffered, answers)[|WaitTrace(epfd, buffered, answers)| - 1] == Close(epfd)
  {
    RoundsClose(epfd, answers);
  }

  /** Nothing after the first failed wait is ever consumed. */
  lemma {:induction false} StopsAtFailure(epfd: int32, answers: seq<WaitAnswer>, k: nat)
    requires k < |answers| && answers[k].Failed?
    ensures Rounds(epfd, answers) == Rounds(epfd, answers[..k + 1])
    decreases k
  {
    var prefix := answers[..k + 1];
    assert prefix[0] == answers[0];
    if answers[0].Ready? {
      StopsAtFailure(epfd, answers[1..], k - 1);
      assert prefix[1..] == answers[1..][..k];
    }
  }

  /** A readiness report for a registered descriptor carries the record back,
      and, when it says readable, runs what `recvMsg` runs for that record. */
  lemma RegisteredEventDispatches(epfd: int32, param: EpollParam, ctl: int32, mask: bv32)
    requires mask & EPOLLIN != 0
    ensures var ev := AddFdToEpoll(epfd, param, ctl).calls[0].event;
      Dispatch([EpollEvent(mask, ev.data)]) == RecvMsg(Ptr(param)).calls
  {
    var e := EpollEvent(mask, Ptr(param));
    assert [e][..0] == [];
  }

  /** A readable report for a timer record runs its callback once. */
  lemma TimerTickRound(epfd: int32, param: EpollParam)
    requires param.kind == FdTimer
    ensures Round(epfd, Ready([EpollEvent(EPOLLIN, Ptr(param))])) ==
      [EpollWaitCall(epfd, EPOOL_EVENT, -1), Invocation(param)]
  {
    var tick := EpollEvent(EPOLLIN, Ptr(param));
    assert [tick][..0] == [];
    assert Dispatch([tick]) == [Invocation(param)];
  }

  /** The rounds of a batch followed by more answers. */
  lemma RoundsCons(epfd: int32, a: WaitAnswer, rest: seq<WaitAnswer>)
    requires a.Ready?
    ensures Rounds(epfd, [a] + rest) == Round(epfd, a) + Rounds(epfd, rest)
  {
    assert ([a] + rest)[0] == a && ([a] + rest)[1..] == rest;
  }

  /** The demo driver's run: the epoll instance is created on descriptor 3, a
      timer on descriptor 4 with a period of three seconds is registered with
      it, fires twice and then the wait fails. */
  lemma DemoRun(cb: Callback, arg: Arg)
    ensures CreateEpoll(3).ret == 3 && CreateTimer(3, 0, 4, 0).ret == 4
    ensures var param := EpollParam(4, FdTimer, cb, arg);
      && AddFdToEpoll(3, param, 0).ret == ResultOk
      && var tick := EpollEvent(EPOLLIN, Ptr(param));
         WaitTrace(3, true, [Ready([tick]), Ready([tick]), Failed]) ==
           [EpollWaitCall(3, EPOOL_EVENT, -1), Invoke(cb, 4, arg),
            EpollWaitCall(3, EPOOL_EVENT, -1), Invoke(cb, 4, arg),
            EpollWaitCall(3, EPOOL_EVENT, -1), Close(3)]
  {
    var param := EpollParam(4, FdTimer, cb, arg);
    var ready := Ready([EpollEvent(EPOLLIN, Ptr(param))]);
    var wait, fire := EpollWaitCall(3, EPOOL_EVENT, -1), Invoke(cb, 4, arg);
    TimerTickRound(3, param);
    var last := Rounds(3, [Failed]);
    assert last == [wait, Close(3)];
    RoundsCons(3, ready, [Failed]);
    RoundsCons(3, ready, [ready, Failed]);
    assert [ready] + [Failed] == [ready, Failed];
    assert [ready] + [ready, Failed] == [ready, ready, Failed];
  }

  // ---------------------------------------------------------------------------
  // setNoBlock against the Linux fcntl semantics

  /** As written, `setNoBlock` reports success and leaves the file status
      flags, where `O_NONBLOCK` lives, as they were. */
  lemma SetNoBlockKeepsStatus(fd: int32, f: OpenFile)
    requires !Negative(f.fdFlags)
    ensures var r := SetNoBlock(fd, Get(f, F_GETFD), 0);
      r.ret == ResultOk && ApplyAll(f, r.calls).statusFlags == f.statusFlags
  {
    var r := SetNoBlock(fd, Get(f, F_GETFD), 0);
    var f1 := Apply(f, r.calls[0]);
    assert f1 == f;
    var f2 := Apply(f1, r.calls[1]);
    assert f2.statusFlags == f.statusFlags;
    assert r.calls[1..][1..] == [];
    assert ApplyAll(f, r.calls) == ApplyAll(f1, r.calls[1..]) == ApplyAll(f2, []);
  }

  /** A blocking socket stays blocking after a successful `setNoBlock`. */
  lemma SetNoBlockCounterexample()
    ensures var f := OpenFile(0, 2);
      var r := SetNoBlock(5, Get(f, F_GETFD), 0);
      r.ret == ResultOk && Blocking(ApplyAll(f, r.calls))
  {
    SetNoBlockKeepsStatus(5, OpenFile(0, 2));
  }

  /** With the status-flag commands `setNoBlock` succeeds and the flags
      `F_SETFL` stores are those read with `O_NONBLOCK` added. */
  lemma SetNonBlockingEffect(fd: int32, f: OpenFile)
    requires !Negative(f.statusFlags)
    ensures var r := SetNonBlocking(fd, Get(f, F_GETFL), 0);
      && r.ret == ResultOk
      && ApplyAll(f, r.calls) == f.(statusFlags := SetFl(f.statusFlags, WithNonBlock(f.statusFlags)))
  {
    var r := SetNonBlocking(fd, Get(f, F_GETFL), 0);
    var f1 := Apply(f, r.calls[0]);
    assert f1 == f;
    var f2 := Apply(f1, r.calls[1]);
    assert r.calls[1..][1..] == [];
    assert ApplyAll(f, r.calls) == ApplyAll(f1, r.calls[1..]) == ApplyAll(f2, []);
  }

  /** With the status-flag commands the descriptor becomes non-blocking, and
      no other flag changes. */
  lemma SetNonBlockingSets(fd: int32, f: OpenFile)
    requires !Negative(f.statusFlags)
    ensures var r := SetNonBlocking(fd, Get(f, F_GETFL), 0);
      var f' := ApplyAll(f, r.calls);
      && r.ret == ResultOk && !Blocking(f')
      && f'.fdFlags == f.fdFlags
      && f'.statusFlags & !O_NONBLOCK == f.statusFlags & !O_NONBLOCK
  {
    SetNonBlockingEffect(fd, f);
    NonBlockingBits(f.statusFlags);
  }

  /** Storing the read flags with `O_NONBLOCK` added sets that bit and keeps
      every other one. */
  lemma NonBlockingBits(s: Word)
    ensures var s' := SetFl(s, WithNonBlock(s));
      s' & O_NONBLOCK != 0 && s' & !O_NONBLOCK == s & !O_NONBLOCK
  {
  }
}
