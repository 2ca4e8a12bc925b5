/** The second copy of the epoll timer, epoll/timer2/main.c.  Its operations
    decide as those of epoll/timer/mytimer.c do and make the same calls, but
    return the literals 0 and -1 instead of the status codes.  Each is
    modelled on its own and proved to agree with the first copy, so that
    everything proved about `MyTimer` carries over. */
module Timer2 {
  import opened EpollTypes
  import opened LinuxFcntl
  import MyTimer

  /** The literal timer2 returns where mytimer returns a status. */
  function Code(s: Status): (c: int32)
    ensures c == 0 <==> s == ResultOk
    ensures c != 0 ==> c == -1
  {
    if s == ResultOk then 0 else -1
  }

  /** `setNoBlock(fd)` as written, with the descriptor-flag commands. */
  function SetNoBlock(fd: int32, got: Word, setRet: int32): (r: Outcome<int32>)
    ensures r.ret == 0 <==> !Negative(got) && setRet >= 0
    ensures r.ret != 0 ==> r.ret == -1
    ensures r.calls == MyTimer.SetNoBlock(fd, got, setRet).calls
    ensures r.ret == Code(MyTimer.SetNoBlock(fd, got, setRet).ret)
  {
    var get := [FcntlGet(fd, F_GETFD)];
    if Negative(got) then Outcome(-1, get)
    else
      var calls := get + [FcntlSet(fd, F_SETFD, got | O_NONBLOCK)];
      if setRet < 0 then Outcome(-1, calls) else Outcome(0, calls)
  }

  /** `setNoBlock(fd)` with the file-status-flag commands. */
  function SetNonBlocking(fd: int32, got: Word, setRet: int32): (r: Outcome<int32>)
    ensures r.ret == 0 <==> !Negative(got) && setRet >= 0
    ensures r.ret != 0 ==> r.ret == -1
    ensures r.calls == MyTimer.SetNonBlocking(fd, got, setRet).calls
    ensures r.ret == Code(MyTimer.SetNonBlocking(fd, got, setRet).ret)
  {
    var get := [FcntlGet(fd, F_GETFL)];
    if Negative(got) then Outcome(-1, get)
    else
      var calls := get + [FcntlSet(fd, F_SETFL, got | O_NONBLOCK)];
      if setRet < 0 then Outcome(-1, calls) else Outcome(0, calls)
  }

  /** `addFdToEpoll(epfd, pstParam)`, where `ctl` is what `epoll_ctl` answers. */
  function AddFdToEpoll(epfd: int32, param: EpollParam, ctl: int32): (r: Outcome<int32>)
    ensures r.ret == -1 <==> ctl < 0
    ensures r.ret != -1 ==> r.ret == 0
    ensures r.calls == [EpollCtl(epfd, EPOLL_CTL_ADD, param.fd, MyTimer.Registration(param))]
    ensures r.calls == MyTimer.AddFdToEpoll(epfd, param, ctl).calls
    ensures r.ret == Code(MyTimer.AddFdToEpoll(epfd, param, ctl).ret)
  {
    var calls := [EpollCtl(epfd, EPOLL_CTL_ADD, param.fd, EpollEvent(EPOLLIN | EPOLLERR | EPOLLHUP, Ptr(param)))];
    if ctl < 0 then Outcome(-1, calls) else Outcome(0, calls)
  }

  /** `recvMsg(pvParam)`: -1 for a null payload, else 0, after running the
      callback of a timer record. */
  function RecvMsg(p: Payload): (r: Outcome<int32>)
    ensures r.ret == -1 <==> p.Null?
    ensures r.ret != -1 ==> r.ret == 0
    ensures r.calls != [] <==> p.Ptr? && p.param.kind == FdTimer
    ensures r.calls != [] ==> r.calls == [Invoke(p.param.cb, p.param.fd, p.param.arg)]
    ensures r.calls == MyTimer.RecvMsg(p).calls
    ensures r.ret == Code(MyTimer.RecvMsg(p).ret)
  {
    match p
    case Null => Outcome(-1, [])
    case Ptr(param) =>
      if param.kind == FdTimer then Outcome(0, [Invoke(param.cb, param.fd, param.arg)])
      else Outcome(0, [])
  }

  /** The inner `for` loop of `epollWait` over the first `nfds` entries. */
  method DispatchBatch(events: array<EpollEvent>, nfds: nat) returns (t: seq<Call>)
    requires nfds <= events.Length
    ensures t == MyTimer.Dispatch(events[..nfds])
  {
    t := [];
    for i := 0 to nfds
      invariant t == MyTimer.Dispatch(events[..i])
    {
      assert events[..i + 1][..i] == events[..i];
      if events[i].events & EPOLLIN != 0 {
        var r := RecvMsg(events[i].data);
        t := t + r.calls;
      }
    }
  }

  /** `epollWait(epfd)`: the same rounds as in mytimer, up to the first
      failed wait, after which `epfd` is closed. */
  method EpollWait(epfd: int32, buffered: bool, answers: seq<WaitAnswer>) returns (trace: seq<Call>)
    requires MyTimer.FitsBuffer(answers)
    ensures trace == MyTimer.WaitTrace(epfd, buffered, answers)
  {
    trace := [];
    if !buffered {
      return;
    }
    var events := MyTimer.NewBuffer();
    var rest := answers;
    while rest != []
      invariant MyTimer.FitsBuffer(rest)
      invariant trace + MyTimer.Rounds(epfd, rest) == MyTimer.Rounds(epfd, answers)
      decreases |rest|
    {
      var round := [EpollWaitCall(epfd, EPOOL_EVENT, -1)];
      if rest[0].Failed? {
        trace := trace + round + [Close(epfd)];
        return;
      }
      var batch := rest[0].batch;
      MyTimer.Fill(events, batch);
      var calls := DispatchBatch(events, |batch|);
      assert round + calls == MyTimer.Round(epfd, rest[0]);
      trace := trace + (round + calls);
      rest := rest[1..];
    }
  }

  /** As written, a blocking socket stays blocking after `setNoBlock`
      returns 0. */
  lemma SetNoBlockCounterexample()
    ensures var f := OpenFile(0, 2);
      var r := SetNoBlock(5, Get(f, F_GETFD), 0);
      r.ret == 0 && Blocking(ApplyAll(f, r.calls))
  {
    MyTimer.SetNoBlockCounterexample();
  }

  /** With the status-flag commands the descriptor becomes non-blocking, and
      no other flag changes. */
  lemma SetNonBlockingSets(fd: int32, f: OpenFile)
    requires !Negative(f.statusFlags)
    ensures var r := SetNonBlocking(fd, Get(f, F_GETFL), 0);
      var f' := ApplyAll(f, r.calls);
      && r.ret == 0 && !Blocking(f')
      && f'.fdFlags == f.fdFlags
      && f'.statusFlags & !O_NONBLOCK == f.statusFlags & !O_NONBLOCK
  {
    MyTimer.SetNonBlockingSets(fd, f);
  }
}
