/** What Linux does with the `fcntl` commands the timer code issues, as
    described by the fcntl(2) manual page: `F_GETFD`/`F_SETFD` read and write
    the file descriptor flags, of which only `FD_CLOEXEC` exists;
    `F_GETFL`/`F_SETFL` read and write the file status flags, and `F_SETFL`
    changes only `O_APPEND`, `O_ASYNC`, `O_DIRECT`, `O_NOATIME` and
    `O_NONBLOCK`. */
module LinuxFcntl {
  import opened EpollTypes

  /** The flags `fcntl` reads and writes for one open descriptor. */
  datatype OpenFile = OpenFile(fdFlags: Word, statusFlags: Word)

  /** The status flags `F_SETFL` can change. */
  const SETFL_MASK: Word := O_APPEND | O_NONBLOCK | O_ASYNC | O_DIRECT | O_NOATIME

  /** What `fcntl(fd, cmd)` answers for a read command (-1 for any other). */
  function Get(f: OpenFile, cmd: int32): (w: Word)
    ensures cmd == F_GETFD ==> w == f.fdFlags
    ensures cmd == F_GETFL ==> w == f.statusFlags
  {
    if cmd == F_GETFD then f.fdFlags
    else if cmd == F_GETFL then f.statusFlags
    else 0xFFFF_FFFF
  }

  /** The status flags after `F_SETFL` with `w`: the changeable flags as in
      `w`, the others as they were. */
  function SetFl(s: Word, w: Word): Word {
    (s & !SETFL_MASK) | (w & SETFL_MASK)
  }

  /** The effect of one recorded call on the descriptor's flags. */
  function Apply(f: OpenFile, c: Call): (f': OpenFile)
    ensures c.FcntlSet? && c.cmd == F_SETFD ==> f'.statusFlags == f.statusFlags
    ensures c.FcntlSet? && c.cmd == F_SETFL ==> f'.fdFlags == f.fdFlags
    ensures !c.FcntlSet? ==> f' == f
  {
    match c
    case FcntlSet(_, cmd, w) =>
      if cmd == F_SETFD then f.(fdFlags := w & FD_CLOEXEC)
      else if cmd == F_SETFL then f.(statusFlags := SetFl(f.statusFlags, w))
      else f
    case _ => f
  }

  /** The flags after a sequence of calls. */
  function ApplyAll(f: OpenFile, calls: seq<Call>): OpenFile
    decreases |calls|
  {
    if calls == [] then f else ApplyAll(Apply(f, calls[0]), calls[1..])
  }

  /** Reads and writes on the descriptor block. */
  predicate Blocking(f: OpenFile) {
    f.statusFlags & O_NONBLOCK == 0
  }
}
