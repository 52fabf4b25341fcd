/**
 The descriptor table, descriptor duplication, and pipes shared through it
 (src/fd.rs, src/sys/file.rs).

 A table slot names what it is and which shared state is behind it: two slots with the same pipe
 number are aliases of one pipe.
 */
module Descriptors {
  import opened Base
  import opened Bytes

  const FD_LIMIT: nat := 0xFFFF_FFFF

  datatype Resource =
    | Stdin(pipe: nat) | Stdout(pipe: nat) | Stderr(pipe: nat) | PipeRead(pipe: nat) | PipeWrite(pipe: nat)
    | File(id: nat) | Socket(id: nat)
    | Epoll(id: nat) | EventFd(id: nat)
  {
    predicate Reads() { Stdin? || PipeRead? }
    predicate Writes() { Stdout? || Stderr? || PipeWrite? }
    predicate IsPipe() { Reads() || Writes() }
    predicate DupAble() { !Epoll? && !EventFd? }
  }

  datatype PipeState = PipeState(buf: seq<byte>, closed: bool, nonblock: bool)

  /** Bytes that went into or came out of a pipe, and through which descriptor. */
  datatype Event = Wrote(fd: nat, pipe: nat, bytes: seq<byte>) | Took(fd: nat, pipe: nat, bytes: seq<byte>)

  ghost function WrittenTo(log: seq<Event>, p: nat): seq<byte> {
    if log == [] then []
    else
      var e := log[|log| - 1];
      WrittenTo(log[..|log| - 1], p) + (if e.Wrote? && e.pipe == p then e.bytes else [])
  }

  ghost function TakenFrom(log: seq<Event>, p: nat): seq<byte> {
    if log == [] then []
    else
      var e := log[|log| - 1];
      TakenFrom(log[..|log| - 1], p) + (if e.Took? && e.pipe == p then e.bytes else [])
  }

  /** First in, first out: what came out, then what is buffered, is what went in. */
  ghost predicate Kept(log: seq<Event>, p: nat, buf: seq<byte>) {
    TakenFrom(log, p) + buf == WrittenTo(log, p)
  }

  ghost predicate Conserved(log: seq<Event>, pipes: seq<PipeState>) {
    forall p :: 0 <= p < |pipes| ==> Kept(log, p, pipes[p].buf)
  }

  ghost predicate PipesKnown(log: seq<Event>, n: nat) {
    forall e :: e in log ==> e.pipe < n
  }

  lemma LogOne(log: seq<Event>, e: Event, p: nat)
    ensures WrittenTo(log + [e], p) == WrittenTo(log, p) + (if e.Wrote? && e.pipe == p then e.bytes else [])
    ensures TakenFrom(log + [e], p) == TakenFrom(log, p) + (if e.Took? && e.pipe == p then e.bytes else [])
  {
    assert (log + [e])[..|log|] == log;
  }

  lemma {:induction false} UnknownPipe(log: seq<Event>, p: nat)
    requires PipesKnown(log, p)
    ensures WrittenTo(log, p) == [] && TakenFrom(log, p) == []
  {
    if log != [] {
      var n := |log| - 1;
      assert log[n] in log;
      UnknownPipe(log[..n], p);
    }
  }

  /**
   What a read of at least one byte reports, told by the log alone: "try again" on an open pipe and
   end of file on a closed one when everything written was taken already, else the bytes taken now.
   */
  ghost predicate ReadReported(log: seq<Event>, log': seq<Event>, p: nat, closed: bool, r: int) {
    var drained := TakenFrom(log, p) == WrittenTo(log, p);
    && (r == -EAGAIN <==> drained && !closed)
    && (r == 0 <==> drained && closed)
    && (!drained ==> r > 0 && |TakenFrom(log', p)| == |TakenFrom(log, p)| + r)
  }

  lemma DrainedIff(log: seq<Event>, pipes: seq<PipeState>, p: nat)
    requires Conserved(log, pipes) && p < |pipes|
    ensures TakenFrom(log, p) == WrittenTo(log, p) <==> pipes[p].buf == []
  {
    assert Kept(log, p, pipes[p].buf);
    assert |TakenFrom(log, p) + pipes[p].buf| == |TakenFrom(log, p)| + |pipes[p].buf|;
    if pipes[p].buf == [] { assert TakenFrom(log, p) + [] == TakenFrom(log, p); }
  }

  lemma ReadReports(log: seq<Event>, pipes: seq<PipeState>, fd: nat, p: nat, got: seq<byte>, len: int)
    requires Conserved(log, pipes) && p < |pipes| && len > 0 && got == pipes[p].buf[..Min(len, |pipes[p].buf|)]
    ensures ReadReported(log, log + [Took(fd, p, got)], p, pipes[p].closed,
                         if got != [] then |got| else if pipes[p].closed then 0 else -EAGAIN)
  {
    DrainedIff(log, pipes, p);
    LogOne(log, Took(fd, p, got), p);
  }

  lemma WriteConserves(log: seq<Event>, pipes: seq<PipeState>, fd: nat, p: nat, bytes: seq<byte>)
    requires Conserved(log, pipes) && p < |pipes|
    ensures Conserved(log + [Wrote(fd, p, bytes)], pipes[p := pipes[p].(buf := pipes[p].buf + bytes)])
  {
    var log', pipes' := log + [Wrote(fd, p, bytes)], pipes[p := pipes[p].(buf := pipes[p].buf + bytes)];
    forall q | 0 <= q < |pipes'| ensures Kept(log', q, pipes'[q].buf) {
      LogOne(log, Wrote(fd, p, bytes), q);
      assert Kept(log, q, pipes[q].buf);
    }
  }

  lemma TakeConserves(log: seq<Event>, pipes: seq<PipeState>, fd: nat, p: nat, n: nat)
    requires Conserved(log, pipes) && p < |pipes| && n <= |pipes[p].buf|
    ensures Conserved(log + [Took(fd, p, pipes[p].buf[..n])], pipes[p := pipes[p].(buf := pipes[p].buf[n..])])
  {
    var e := Took(fd, p, pipes[p].buf[..n]);
    var log', pipes' := log + [e], pipes[p := pipes[p].(buf := pipes[p].buf[n..])];
    forall q | 0 <= q < |pipes'| ensures Kept(log', q, pipes'[q].buf) {
      LogOne(log, e, q);
      assert Kept(log, q, pipes[q].buf);
      if q == p { assert pipes[p].buf == pipes[p].buf[..n] + pipes[p].buf[n..]; }
    }
  }

  lemma NewPipeConserves(log: seq<Event>, pipes: seq<PipeState>, s: PipeState)
    requires Conserved(log, pipes) && PipesKnown(log, |pipes|) && s.buf == []
    ensures Conserved(log, pipes + [s])
  {
    UnknownPipe(log, |pipes|);
  }

  /** The log went on with events of one descriptor on one pipe, all of one kind. */
  ghost predicate LogGrew(log: seq<Event>, log': seq<Event>, fd: nat, p: nat, took: bool) {
    && log <= log'
    && forall k :: |log| <= k < |log'| ==> log'[k].fd == fd && log'[k].pipe == p && log'[k].Took? == took
  }

  lemma LogGrewNone(log: seq<Event>, fd: nat, p: nat, took: bool)
    ensures LogGrew(log, log, fd, p, took)
  {
  }

  lemma LogGrewTwice(a: seq<Event>, b: seq<Event>, c: seq<Event>, fd: nat, p: nat, took: bool)
    requires LogGrew(a, b, fd, p, took) && LogGrew(b, c, fd, p, took)
    ensures LogGrew(a, c, fd, p, took)
  {
  }

  lemma {:induction false} LogGrewMeans(log: seq<Event>, log': seq<Event>, fd: nat, p: nat, took: bool, q: nat)
    requires LogGrew(log, log', fd, p, took)
    ensures took || q != p ==> WrittenTo(log', q) == WrittenTo(log, q)
    ensures !took || q != p ==> TakenFrom(log', q) == TakenFrom(log, q)
  {
    if |log| < |log'| {
      LogGrewMeans(log, log'[..|log'| - 1], fd, p, took, q);
    } else {
      assert log' == log;
    }
  }

  /** What a run of reads took: the front of the queue, and nothing was written meanwhile. */
  ghost predicate TookFrom(log: seq<Event>, log': seq<Event>, p: nat, bytes: seq<byte>) {
    && log <= log' && TakenFrom(log', p) == TakenFrom(log, p) + bytes && WrittenTo(log', p) == WrittenTo(log, p)
    && forall q: nat :: q != p ==> WrittenTo(log', q) == WrittenTo(log, q) && TakenFrom(log', q) == TakenFrom(log, q)
  }

  /** What a run of writes wrote, and nothing was taken meanwhile. */
  ghost predicate WroteTo(log: seq<Event>, log': seq<Event>, p: nat, bytes: seq<byte>) {
    && log <= log' && WrittenTo(log', p) == WrittenTo(log, p) + bytes && TakenFrom(log', p) == TakenFrom(log, p)
    && forall q: nat :: q != p ==> WrittenTo(log', q) == WrittenTo(log, q) && TakenFrom(log', q) == TakenFrom(log, q)
  }

  lemma CancelTail(a: seq<byte>, b: seq<byte>, c: seq<byte>)
    requires a + c == b + c
    ensures a == b
  {
    assert a == (a + c)[..|a|] && b == (b + c)[..|b|];
  }

  lemma TookFront(log: seq<Event>, log': seq<Event>, pipes: seq<PipeState>, pipes': seq<PipeState>, fd: nat, p: nat,
                  n: nat)
    requires p < |pipes| && Conserved(log, pipes) && Conserved(log', pipes') && LogGrew(log, log', fd, p, true)
    requires Drained(pipes, p, n, pipes')
    ensures TookFrom(log, log', p, pipes[p].buf[..n])
  {
    forall q: nat
      ensures WrittenTo(log', q) == WrittenTo(log, q) && (q != p ==> TakenFrom(log', q) == TakenFrom(log, q))
    {
      LogGrewMeans(log, log', fd, p, true, q);
    }
    var buf := pipes[p].buf;
    assert Kept(log, p, buf) && Kept(log', p, pipes'[p].buf);
    assert buf == buf[..n] + buf[n..];
    CancelTail(TakenFrom(log', p), TakenFrom(log, p) + buf[..n], buf[n..]);
  }

  lemma WroteBack(log: seq<Event>, log': seq<Event>, pipes: seq<PipeState>, pipes': seq<PipeState>, fd: nat, p: nat,
                  bytes: seq<byte>)
    requires p < |pipes| && Conserved(log, pipes) && Conserved(log', pipes') && LogGrew(log, log', fd, p, false)
    requires pipes' == pipes[p := pipes[p].(buf := pipes[p].buf + bytes)]
    ensures WroteTo(log, log', p, bytes)
  {
    forall q: nat
      ensures TakenFrom(log', q) == TakenFrom(log, q) && (q != p ==> WrittenTo(log', q) == WrittenTo(log, q))
    {
      LogGrewMeans(log, log', fd, p, false, q);
    }
    assert Kept(log, p, pipes[p].buf) && Kept(log', p, pipes'[p].buf);
  }

  // ----- the table -----

  class Process {
    var table: map<nat, Resource>
    var nextFd: nat
    var cloexec: set<nat>
    var pipes: seq<PipeState>
    var memory: seq<byte>
    ghost var log: seq<Event>

    /** Open descriptors lie below `nextFd`, name existing pipes, and every pipe conserves its bytes. */
    ghost predicate Valid()
      reads this
    {
      && nextFd <= FD_LIMIT
      && (forall fd :: fd in table ==> fd < nextFd && (table[fd].IsPipe() ==> table[fd].pipe < |pipes|))
      && PipesKnown(log, |pipes|)
      && Conserved(log, pipes)
    }

    constructor (memory: seq<byte>)
      ensures Valid() && table == map[] && nextFd == 3 && cloexec == {} && pipes == [] && log == []
      ensures this.memory == memory
    {
      table, nextFd, cloexec, pipes, this.memory, log := map[], 3, {}, [], memory, [];
    }

    /**
     The table a process starts with. Standard input is the read end of the pipe whose write end is
     standard output; standard error has a pipe of its own.
     */
    constructor WithStdio(memory: seq<byte>)
      ensures Valid() && table == map[0 := Stdin(0), 1 := Stdout(0), 2 := Stderr(1)]
      ensures nextFd == 3 && cloexec == {} && this.memory == memory && log == []
      ensures pipes == [PipeState([], false, false), PipeState([], false, false)]
    {
      table, nextFd, cloexec := map[0 := Stdin(0), 1 := Stdout(0), 2 := Stderr(1)], 3, {};
      pipes, this.memory, log := [PipeState([], false, false), PipeState([], false, false)], memory, [];
    }

    /** Insert at `nextFd`, which is never an open slot. */
    method Insert(r: Resource) returns (fd: nat)
      requires Valid() && nextFd < FD_LIMIT && (r.IsPipe() ==> r.pipe < |pipes|)
      modifies this`table, this`nextFd
      ensures Valid()
      ensures fd == old(nextFd) && fd !in old(table) && table == old(table)[fd := r] && nextFd == fd + 1
    {
      fd := nextFd;
      nextFd := nextFd + 1;
      table := table[fd := r];
    }

    method InsertAt(fd: nat, r: Resource) returns (res: Result<nat>)
      requires Valid() && fd < FD_LIMIT && (r.IsPipe() ==> r.pipe < |pipes|)
      modifies this`table, this`nextFd
      ensures Valid()
      ensures fd in old(table) ==> res == Err(-EBADF) && table == old(table) && nextFd == old(nextFd)
      ensures fd !in old(table) ==>
                && res == Ok(fd) && table == old(table)[fd := r]
                && nextFd == if fd >= old(nextFd) then fd + 1 else old(nextFd)
    {
      if fd in table {
        return Err(-EBADF);
      }
      if fd >= nextFd {
        nextFd := fd + 1;
      }
      table := table[fd := r];
      return Ok(fd);
    }

    /** Insert at the lowest free number not below `min`; the search ends because open slots lie below `nextFd`. */
    method InsertAtLeast(min: nat, r: Resource) returns (fd: nat)
      requires Valid() && min < FD_LIMIT && nextFd < FD_LIMIT && (r.IsPipe() ==> r.pipe < |pipes|)
      modifies this`table, this`nextFd
      ensures Valid()
      ensures LowestFree(old(table), min, fd)
      ensures table == old(table)[fd := r] && nextFd == if fd >= old(nextFd) then fd + 1 else old(nextFd)
    {
      fd := min;
      while fd in table
        invariant min <= fd && (forall x :: min <= x < fd ==> x in table) && (fd <= min || fd <= nextFd)
        decreases nextFd - fd
      {
        fd := fd + 1;
      }
      if fd >= nextFd {
        nextFd := fd + 1;
      }
      table := table[fd := r];
    }

    method SetCloexec(fd: nat, on: bool)
      modifies this`cloexec
      ensures cloexec == if on then old(cloexec) + {fd} else old(cloexec) - {fd}
    {
      cloexec := if on then cloexec + {fd} else cloexec - {fd};
    }

    method Close(fd: nat) returns (res: Result<()>)
      requires Valid()
      modifies this`table, this`cloexec
      ensures Valid()
      ensures res == (if fd in old(table) then Ok(()) else Err(-EBADF))
      ensures table == old(table) - {fd}
      ensures cloexec == if fd in old(table) then old(cloexec) - {fd} else old(cloexec)
    {
      if fd in table {
        table := table - {fd};
        cloexec := cloexec - {fd};
        return Ok(());
      }
      return Err(-EBADF);
    }

    // ----- duplication -----

    /** The shared body of dup, dup2 and dup3: nothing changes unless the source can be duplicated. */
    method InternalDup(oldfd: nat, target: Option<nat>, wantCloexec: bool) returns (r: int)
      requires Valid() && nextFd < FD_LIMIT
      requires target.Some? ==> target.value < FD_LIMIT
      modifies this`table, this`nextFd, this`cloexec
      ensures Valid()
      ensures old(CloexecOk()) ==> CloexecOk()
      ensures !(oldfd in old(table) && old(table)[oldfd].DupAble()) ==>
                r == -EBADF && table == old(table) && nextFd == old(nextFd) && cloexec == old(cloexec)
      ensures oldfd in old(table) && old(table)[oldfd].DupAble() ==>
                && 0 <= r && table == old(table)[r := old(table)[oldfd]]
                && (if target.Some? then r == target.value else LowestFree(old(table), oldfd + 1, r))
                && cloexec == if wantCloexec then old(cloexec) + {r} else old(cloexec) - {r}
    {
      if oldfd !in table || !table[oldfd].DupAble() {
        return -EBADF;
      }
      var cloned := table[oldfd];
      var newfd: nat;
      if target.Some? {
        var _ := Close(target.value);
        var ins := InsertAt(target.value, cloned);
        newfd := ins.value;
      } else {
        newfd := InsertAtLeast(oldfd + 1, cloned);
      }
      SetCloexec(newfd, wantCloexec);
      return newfd;
    }

    ghost predicate CloexecOk()
      reads this
    {
      cloexec <= table.Keys
    }

    /** Nothing but the table changed, and in it only slot `fd`, which now aliases `src`. */
    twostate predicate Aliased(src: nat, fd: int, wantCloexec: bool)
      reads this
    {
      && 0 <= fd && src in old(table) && table == old(table)[fd := old(table)[src]]
      && cloexec == if wantCloexec then old(cloexec) + {fd} else old(cloexec) - {fd}
    }

    twostate predicate TableSame()
      reads this
    {
      table == old(table) && nextFd == old(nextFd) && cloexec == old(cloexec)
    }

    /** `dup`: the lowest free number above `oldfd`. */
    method Dup(oldfd: int) returns (r: int)
      requires Valid() && nextFd < FD_LIMIT
      modifies this`table, this`nextFd, this`cloexec
      ensures Valid() && (old(CloexecOk()) ==> CloexecOk())
      ensures oldfd in old(table) && old(table)[oldfd].DupAble() ==>
                Aliased(oldfd, r, false) && LowestFree(old(table), oldfd + 1, r)
      ensures !(oldfd in old(table) && old(table)[oldfd].DupAble()) ==> r == -EBADF && TableSame()
    {
      if oldfd < 0 || oldfd >= U32 {
        return -EBADF;
      }
      r := InternalDup(oldfd, None, false);
    }

    /** `dup2`: exactly slot `newfd`; equal numbers only check that the descriptor is open. */
    method Dup2(oldfd: int, newfd: int) returns (r: int)
      requires Valid() && nextFd < FD_LIMIT && newfd != FD_LIMIT
      modifies this`table, this`nextFd, this`cloexec
      ensures Valid() && (old(CloexecOk()) ==> CloexecOk())
      ensures 0 <= newfd < U32 && oldfd != newfd && oldfd in old(table) && old(table)[oldfd].DupAble() ==>
                r == newfd && Aliased(oldfd, newfd, false)
      ensures oldfd == newfd && oldfd in old(table) ==> r == newfd && TableSame()
      ensures newfd < 0 || newfd >= U32 || oldfd !in old(table) || (oldfd != newfd && !old(table)[oldfd].DupAble()) ==>
                r == -EBADF && TableSame()
    {
      if oldfd < 0 || oldfd >= U32 || newfd < 0 || newfd >= U32 {
        return -EBADF;
      }
      if oldfd == newfd {
        return if oldfd in table then newfd else -EBADF;
      }
      r := InternalDup(oldfd, Some(newfd), false);
    }

    /** `dup3`: like `dup2` with a close-on-exec flag; equal numbers and other flags are refused. */
    method Dup3(oldfd: int, newfd: int, cloexecFlag: bool, otherFlags: bool) returns (r: int)
      requires Valid() && nextFd < FD_LIMIT && newfd != FD_LIMIT
      modifies this`table, this`nextFd, this`cloexec
      ensures Valid() && (old(CloexecOk()) ==> CloexecOk())
      ensures !(0 <= oldfd < U32 && 0 <= newfd < U32) ==> r == -EBADF && TableSame()
      ensures 0 <= oldfd < U32 && 0 <= newfd < U32 && (otherFlags || oldfd == newfd) ==> r == -EINVAL && TableSame()
      ensures 0 <= oldfd < U32 && 0 <= newfd < U32 && !otherFlags && oldfd != newfd ==>
                if oldfd in old(table) && old(table)[oldfd].DupAble() then
                  r == newfd && Aliased(oldfd, newfd, cloexecFlag)
                else r == -EBADF && TableSame()
    {
      if oldfd < 0 || oldfd >= U32 || newfd < 0 || newfd >= U32 {
        return -EBADF;
      }
      if otherFlags || oldfd == newfd {
        return -EINVAL;
      }
      r := InternalDup(oldfd, Some(newfd), cloexecFlag);
    }

    /** `fcntl(F_DUPFD)` and its close-on-exec form: the lowest free number not below `min`. */
    method DupFd(oldfd: int, min: int, wantCloexec: bool) returns (r: int)
      requires Valid() && nextFd < FD_LIMIT && min < 0x8000_0000
      modifies this`table, this`nextFd, this`cloexec
      ensures Valid() && (old(CloexecOk()) ==> CloexecOk())
      ensures oldfd < 0 || oldfd >= U32 ==> r == -EBADF && TableSame()
      ensures 0 <= oldfd < U32 && min < 0 ==> r == -EINVAL && TableSame()
      ensures 0 <= min && oldfd in old(table) && old(table)[oldfd].DupAble() ==>
                Aliased(oldfd, r, wantCloexec) && LowestFree(old(table), min, r)
      ensures 0 <= min && !(oldfd in old(table) && old(table)[oldfd].DupAble()) ==> r == -EBADF && TableSame()
    {
      if oldfd < 0 || oldfd >= U32 {
        return -EBADF;
      }
      if min < 0 {
        return -EINVAL;
      }
      if oldfd !in table || !table[oldfd].DupAble() {
        return -EBADF;
      }
      var newfd := InsertAtLeast(min, table[oldfd]);
      SetCloexec(newfd, wantCloexec);
      return newfd;
    }

    /** `fcntl(F_SETFD)` does not look at the table, so it can mark a number that is not open. */
    method SetFd(fd: int, on: bool) returns (r: int)
      modifies this`cloexec
      ensures fd < 0 || fd >= U32 ==> r == -EBADF && cloexec == old(cloexec)
      ensures 0 <= fd < U32 ==> r == 0 && cloexec == if on then old(cloexec) + {fd} else old(cloexec) - {fd}
      ensures old(CloexecOk()) ==> (CloexecOk() <==> r != 0 || !on || fd in table)
    {
      if fd < 0 || fd >= U32 {
        return -EBADF;
      }
      SetCloexec(fd, on);
      return 0;
    }

    // ----- pipes -----

    predicate InMemory(ptr: int, len: int)
      reads this`memory
    {
      0 <= ptr && 0 <= len && ptr + len <= |memory|
    }

    /** `pipe2`: a fresh pipe, its two ends in two fresh slots, their numbers written to guest memory. */
    method Pipe2(ptr: int, nonblock: bool) returns (r: int)
      requires Valid() && nextFd + 1 < FD_LIMIT
      modifies this`table, this`nextFd, this`pipes, this`memory
      ensures Valid() && (old(CloexecOk()) ==> CloexecOk())
      ensures !old(InMemory(ptr, 8)) ==>
                && r == -EFAULT && table == old(table) && nextFd == old(nextFd)
                && pipes == old(pipes) && memory == old(memory)
      ensures old(InMemory(ptr, 8)) ==>
                var rd, wr, p := old(nextFd), old(nextFd) + 1, |old(pipes)|;
                && r == 0 && rd !in old(table) && wr !in old(table)
                && table == old(table)[rd := PipeRead(p)][wr := PipeWrite(p)] && nextFd == wr + 1
                && pipes == old(pipes) + [PipeState([], false, nonblock)]
                && memory == Splice(old(memory), ptr, LE(rd, 4) + LE(wr, 4))
    {
      if !InMemory(ptr, 8) {
        return -EFAULT;
      }
      var p := |pipes|;
      NewPipeConserves(log, pipes, PipeState([], false, nonblock));
      pipes := pipes + [PipeState([], false, nonblock)];
      var rd := Insert(PipeRead(p));
      var wr := Insert(PipeWrite(p));
      SpliceTwice(memory, ptr, LE(rd, 4), LE(wr, 4));
      memory := Splice(memory, ptr, LE(rd, 4));
      memory := Splice(memory, ptr + 4, LE(wr, 4));
      return 0;
    }

    /** Extend a pipe's queue at the back. */
    method Append(fd: nat, p: nat, bytes: seq<byte>)
      requires Valid() && p < |pipes|
      modifies this`pipes, this`log
      ensures Valid()
      ensures pipes == old(pipes)[p := old(pipes)[p].(buf := old(pipes)[p].buf + bytes)]
      ensures log == old(log) + [Wrote(fd, p, bytes)]
    {
      WriteConserves(log, pipes, fd, p, bytes);
      pipes := pipes[p := pipes[p].(buf := pipes[p].buf + bytes)];
      log := log + [Wrote(fd, p, bytes)];
    }

    /** `read`, pipe arm: pop up to `len` bytes off the front of the queue. */
    method Read(fd: int, ptr: int, len: int) returns (r: int)
      requires Valid() && (fd in table ==> table[fd].IsPipe() || table[fd].Epoll?)
      modifies this`pipes, this`memory, this`log
      ensures Valid()
      ensures fd < 0 || fd >= U32 ==> r == -EBADF
      ensures 0 <= fd < U32 && !old(InMemory(ptr, len)) ==> r == -EFAULT
      ensures 0 <= fd < U32 && old(InMemory(ptr, len)) && len == 0 ==> r == 0
      ensures 0 <= fd < U32 && old(InMemory(ptr, len)) && len > 0 && !CanRead(fd) ==> r == -EBADF
      ensures !(CanRead(fd) && old(InMemory(ptr, len)) && len > 0) ==>
                pipes == old(pipes) && memory == old(memory) && log == old(log)
      ensures CanRead(fd) && old(InMemory(ptr, len)) && len > 0 ==>
                var p := table[fd].pipe;
                var s := old(pipes)[p];
                var got := s.buf[..Min(len, |s.buf|)];
                && r == ReadCode(s, len) && ReadReported(old(log), log, p, s.closed, r)
                && pipes == old(pipes)[p := s.(buf := s.buf[|got|..])]
                && memory == Splice(old(memory), ptr, got)
                && log == old(log) + [Took(fd, p, got)]
    {
      if fd < 0 || fd >= U32 {
        return -EBADF;
      }
      if !InMemory(ptr, len) {
        return -EFAULT;
      }
      if len == 0 {
        return 0;
      }
      if fd !in table || !table[fd].Reads() {
        return -EBADF;
      }
      var p := table[fd].pipe;
      var s := pipes[p];
      var q, tmp := s.buf, [];
      while |tmp| < len && q != []
        invariant |tmp| <= len && tmp + q == s.buf
        decreases |q|
      {
        tmp, q := tmp + [q[0]], q[1..];
      }
      assert s.buf[..|tmp|] == tmp && s.buf[|tmp|..] == q;
      TakeConserves(log, pipes, fd, p, |tmp|);
      ReadReports(log, pipes, fd, p, tmp, len);
      pipes := pipes[p := s.(buf := q)];
      log := log + [Took(fd, p, tmp)];
      if tmp == [] {
        SpliceSame(memory, ptr, tmp);
        return if s.closed then 0 else -EAGAIN;
      }
      memory := Splice(memory, ptr, tmp);
      return |tmp|;
    }

    /** `write`, pipe arm: append the whole buffer to the queue. */
    method Write(fd: int, ptr: int, len: int) returns (r: int)
      requires Valid() && (fd in table ==> table[fd].IsPipe() || table[fd].Epoll?)
      modifies this`pipes, this`log
      ensures Valid()
      ensures fd < 0 || fd >= U32 ==> r == -EBADF
      ensures 0 <= fd < U32 && !InMemory(ptr, len) ==> r == -EFAULT
      ensures 0 <= fd < U32 && InMemory(ptr, len) && len == 0 ==> r == 0
      ensures 0 <= fd < U32 && InMemory(ptr, len) && len > 0 && !CanWrite(fd) ==> r == -EBADF
      ensures !(CanWrite(fd) && InMemory(ptr, len) && len > 0) ==> pipes == old(pipes) && log == old(log)
      ensures CanWrite(fd) && InMemory(ptr, len) && len > 0 ==>
                var p := table[fd].pipe;
                var bytes := memory[ptr..ptr + len];
                && r == len
                && pipes == old(pipes)[p := old(pipes)[p].(buf := old(pipes)[p].buf + bytes)]
                && log == old(log) + [Wrote(fd, p, bytes)]
    {
      if fd < 0 || fd >= U32 {
        return -EBADF;
      }
      if !InMemory(ptr, len) {
        return -EFAULT;
      }
      if len == 0 {
        return 0;
      }
      if fd !in table || !table[fd].Writes() {
        return -EBADF;
      }
      var p := table[fd].pipe;
      var bytes := memory[ptr..ptr + len];
      Append(fd, p, bytes);
      return len;
    }

    // ----- vectored I/O -----

    /** Decode the guest's iovec array. */
    method ReadIovs(ptr: int, count: int) returns (es: Result<seq<Iov>>)
      ensures count < 0 ==> es == Err(-EINVAL)
      ensures count >= 0 && !InMemory(ptr, count * 8) ==> es == Err(-EFAULT)
      ensures count >= 0 && InMemory(ptr, count * 8) ==>
                && es.Ok? && |es.value| == count
                && forall i :: 0 <= i < count ==> es.value[i] == IovAt(memory, ptr + 8 * i)
    {
      if count < 0 {
        return Err(-EINVAL);
      }
      if !InMemory(ptr, count * 8) {
        return Err(-EFAULT);
      }
      var r: seq<Iov> := [];
      for i := 0 to count
        invariant |r| == i && forall k :: 0 <= k < i ==> r[k] == IovAt(memory, ptr + 8 * k)
      {
        r := r + [IovAt(memory, ptr + 8 * i)];
      }
      return Ok(r);
    }

    /** A descriptor the pipe arm of `read` (or of `write`) can serve. */
    predicate CanRead(fd: int)
      reads this`table
    {
      0 <= fd < U32 && fd in table && table[fd].Reads()
    }

    predicate CanWrite(fd: int)
      reads this`table
    {
      0 <= fd < U32 && fd in table && table[fd].Writes()
    }

    /**
     `readv`: on a readable descriptor it is one read of the summed length of the buffers before the
     first bad one, scattered over them in order; the log gains exactly the bytes taken.
     */
    method Readv(fd: int, es: seq<Iov>) returns (r: int)
      requires Valid() && (fd in table ==> table[fd].IsPipe() || table[fd].Epoll?)
      modifies this`pipes, this`memory, this`log
      ensures Valid()
      ensures CanRead(fd) ==>
                var p := table[fd].pipe;
                && p < |old(pipes)| && ReadOnce(old(memory), old(pipes), p, es, r, memory, pipes)
                && (Sum(es, Usable(es, |memory|)) > 0 ==> ReadReported(old(log), log, p, old(pipes)[p].closed, r))
                && var buf := old(pipes)[p].buf;
                   TookFrom(old(log), log, p, buf[..Min(Sum(es, Usable(es, |memory|)), |buf|)])
      ensures CanRead(fd) && Sum(es, Usable(es, |memory|)) == 0 ==>
                r == if Usable(es, |memory|) < |es| then -EFAULT else 0
      ensures !CanRead(fd) ==>
                r == Refusal(es, fd, |memory|) && pipes == old(pipes) && memory == old(memory) && log == old(log)
    {
      r := ReadEach(fd, es);
      if CanRead(fd) {
        ghost var p := table[fd].pipe;
        TookFront(old(log), log, old(pipes), pipes, fd, p, Min(Sum(es, Usable(es, |memory|)), |old(pipes)[p].buf|));
        DrainedIff(old(log), old(pipes), p);
      }
    }

    /** One read into a buffer that is not empty. */
    method ReadInto(fd: int, e: Iov) returns (r: int)
      requires Valid() && (fd in table ==> table[fd].IsPipe() || table[fd].Epoll?) && e.len > 0
      modifies this`pipes, this`memory, this`log
      ensures Valid() && |memory| == |old(memory)|
      ensures CanRead(fd) ==>
                && table[fd].pipe < |old(pipes)|
                && ReadEffect(old(memory), old(pipes), table[fd].pipe, e, r, memory, pipes)
                && LogGrew(old(log), log, fd, table[fd].pipe, true)
      ensures !CanRead(fd) ==>
                r == Refusal([e], fd, |memory|) && pipes == old(pipes) && memory == old(memory) && log == old(log)
    {
      r := Read(fd, e.base, e.len);
    }

    /** One write from a buffer that is not empty. */
    method WriteFrom(fd: int, e: Iov) returns (r: int)
      requires Valid() && (fd in table ==> table[fd].IsPipe() || table[fd].Epoll?) && e.len > 0
      modifies this`pipes, this`log
      ensures Valid()
      ensures CanWrite(fd) ==> table[fd].pipe < |old(pipes)| && LogGrew(old(log), log, fd, table[fd].pipe, false)
      ensures CanWrite(fd) && !Good(e, |memory|) ==> r == -EFAULT && pipes == old(pipes)
      ensures CanWrite(fd) && Good(e, |memory|) ==>
                var p := table[fd].pipe;
                r == e.len && Appended(old(pipes), p, memory[e.base..e.base + e.len], pipes)
      ensures !CanWrite(fd) ==> r == Refusal([e], fd, |memory|) && pipes == old(pipes) && log == old(log)
    {
      r := Write(fd, e.base, e.len);
    }

    /** The loop of `readv`: sequential reads until one is short. */
    method ReadEach(fd: int, es: seq<Iov>) returns (r: int)
      requires Valid() && (fd in table ==> table[fd].IsPipe() || table[fd].Epoll?)
      modifies this`pipes, this`memory, this`log
      ensures Valid() && |memory| == |old(memory)|
      ensures CanRead(fd) ==>
                && table[fd].pipe < |old(pipes)|
                && ReadOnce(old(memory), old(pipes), table[fd].pipe, es, r, memory, pipes)
                && LogGrew(old(log), log, fd, table[fd].pipe, true)
      ensures !CanRead(fd) ==>
                r == Refusal(es, fd, |memory|) && pipes == old(pipes) && memory == old(memory) && log == old(log)
    {
      hide ReadOnce, LogGrew, Fed;
      ghost var p := if CanRead(fd) then table[fd].pipe else 0;
      ghost var mem0, pipes0 := memory, pipes;
      if CanRead(fd) {
        LogGrewNone(log, fd, p, true);
        FedStart(memory, pipes, p, es);
      }
      var total := 0;
      for i := 0 to |es|
        invariant Valid() && |memory| == |mem0|
        invariant CanRead(fd) ==> p < |pipes0| && Fed(mem0, pipes0, p, es, i, total, memory, pipes)
        invariant CanRead(fd) ==> LogGrew(old(log), log, fd, p, true)
        invariant !CanRead(fd) ==> total == 0 && pipes == pipes0 && memory == mem0 && log == old(log) && AllEmpty(es, i)
      {
        if !CanRead(fd) { RefusalHere(es, fd, |mem0|, i); }
        if es[i].len == 0 {
          if CanRead(fd) { FedEmpty(mem0, pipes0, p, es, i, total, memory, pipes); }
          continue;
        }
        ghost var before, was, grown := memory, pipes, log;
        var n := ReadInto(fd, es[i]);
        if CanRead(fd) {
          LogGrewTwice(old(log), grown, log, fd, p, true);
          FedStep(mem0, pipes0, p, es, i, total, before, was, n, memory, pipes);
        }
        if n < 0 {
          return if total == 0 then n else total;
        }
        total := total + n;
        if n < es[i].len {
          return total;
        }
      }
      if CanRead(fd) {
        FedStop(mem0, pipes0, p, es, |es|, total, memory, pipes);
      } else {
        RefusalAt(es, fd, |mem0|, |es|);
      }
      return total;
    }

    /** `writev`: one write of the concatenated buffers before the first bad one; the log gains exactly those bytes. */
    method Writev(fd: int, es: seq<Iov>) returns (r: int)
      requires Valid() && (fd in table ==> table[fd].IsPipe() || table[fd].Epoll?)
      modifies this`pipes, this`log
      ensures Valid()
      ensures CanWrite(fd) ==>
                var p, g := table[fd].pipe, Usable(es, |memory|);
                && r == (if Sum(es, g) == 0 && g < |es| then -EFAULT else Sum(es, g))
                && p < |old(pipes)|
                && pipes == old(pipes)[p := old(pipes)[p].(buf := old(pipes)[p].buf + Gather(memory, es, g))]
                && WroteTo(old(log), log, p, Gather(memory, es, g))
      ensures !CanWrite(fd) ==> r == Refusal(es, fd, |memory|) && pipes == old(pipes) && log == old(log)
    {
      r := WriteEach(fd, es);
      if CanWrite(fd) {
        WroteBack(old(log), log, old(pipes), pipes, fd, table[fd].pipe, Gather(memory, es, Usable(es, |memory|)));
      }
    }

    /** The loop of `writev`. */
    method WriteEach(fd: int, es: seq<Iov>) returns (r: int)
      requires Valid() && (fd in table ==> table[fd].IsPipe() || table[fd].Epoll?)
      modifies this`pipes, this`log
      ensures Valid()
      ensures CanWrite(fd) ==>
                && table[fd].pipe < |old(pipes)| && WriteOnce(memory, old(pipes), table[fd].pipe, es, r, pipes)
                && LogGrew(old(log), log, fd, table[fd].pipe, false)
      ensures !CanWrite(fd) ==> r == Refusal(es, fd, |memory|) && pipes == old(pipes) && log == old(log)
    {
      hide LogGrew, WriteOnce, Sent;
      ghost var p := if CanWrite(fd) then table[fd].pipe else 0;
      ghost var pipes0 := pipes;
      if CanWrite(fd) {
        LogGrewNone(log, fd, p, false);
        SentStart(memory, pipes, p, es);
      }
      r := 0;
      for i := 0 to |es|
        invariant Valid()
        invariant CanWrite(fd) ==> p < |pipes0| && Sent(memory, pipes0, p, es, i, r, pipes)
        invariant CanWrite(fd) ==> LogGrew(old(log), log, fd, p, false)
        invariant !CanWrite(fd) ==> r == 0 && pipes == pipes0 && log == old(log) && AllEmpty(es, i)
      {
        if !CanWrite(fd) { RefusalHere(es, fd, |memory|, i); }
        if es[i].len == 0 {
          if CanWrite(fd) { SentEmpty(memory, pipes0, p, es, i, r, pipes); }
          continue;
        }
        ghost var grown, was := log, pipes;
        var w := WriteFrom(fd, es[i]);
        if CanWrite(fd) {
          LogGrewTwice(old(log), grown, log, fd, p, false);
          if Good(es[i], |memory|) {
            SentStep(memory, pipes0, p, es, i, r, was, pipes);
          } else {
            SentStop(memory, pipes0, p, es, i, r, pipes);
          }
        }
        if w < 0 {
          return if r == 0 then w else r;
        }
        r := r + w;
        if w < es[i].len {
          break;
        }
      }
      if CanWrite(fd) {
        SentStop(memory, pipes0, p, es, |es|, r, pipes);
      } else {
        RefusalAt(es, fd, |memory|, |es|);
      }
    }
  }

  datatype Iov = Iov(base: nat, len: nat)

  /** What each kind of resource can do. */
  lemma Kinds(id: nat)
    ensures Stdin(id).Reads() && PipeRead(id).Reads()
    ensures Stdout(id).Writes() && Stderr(id).Writes() && PipeWrite(id).Writes()
    ensures !Stdin(id).Writes() && !PipeRead(id).Writes()
    ensures !Stdout(id).Reads() && !Stderr(id).Reads() && !PipeWrite(id).Reads()
    ensures forall r: Resource | r.File? || r.Socket? || r.Epoll? || r.EventFd? :: !r.Reads() && !r.Writes()
    ensures forall r: Resource :: r.DupAble() <==> r.Reads() || r.Writes() || r.File? || r.Socket?
  {
  }

  /** One `struct iovec`: two little-endian words. */
  function IovAt(memory: seq<byte>, at: nat): Iov
    requires at + 8 <= |memory|
  {
    Iov(FromLE(memory[at..at + 4]), FromLE(memory[at + 4..at + 8]))
  }

  /** The base comes first, then the length. */
  lemma IovLayout(memory: seq<byte>, at: nat, base: nat, len: nat)
    requires base < U32 && len < U32 && Holds(memory, at, LE(base, 4) + LE(len, 4))
    ensures IovAt(memory, at) == Iov(base, len)
  {
    Pow256Values();
    FromLEOfLE(base, 4);
    FromLEOfLE(len, 4);
    var bs := LE(base, 4) + LE(len, 4);
    assert bs[0..4] == LE(base, 4) && bs[4..8] == LE(len, 4);
    SubSlice(memory, at, at + 8, 0, 4);
    SubSlice(memory, at, at + 8, 4, 8);
  }

  /** Empty, or inside a memory of `size` bytes. Empty buffers are skipped before they are looked at. */
  predicate Good(e: Iov, size: nat) {
    e.len == 0 || e.base + e.len <= size
  }

  ghost predicate BuffersOk(es: seq<Iov>, n: nat, size: nat) {
    n <= |es| && forall i :: 0 <= i < n ==> Good(es[i], size)
  }

  /** How many leading buffers can be used. */
  function Usable(es: seq<Iov>, size: nat): (g: nat)
    ensures BuffersOk(es, g, size) && (g < |es| ==> !Good(es[g], size))
  {
    if es == [] || !Good(es[0], size) then 0 else 1 + Usable(es[1..], size)
  }

  ghost predicate AllEmpty(es: seq<Iov>, n: nat) {
    n <= |es| && forall i :: 0 <= i < n ==> es[i].len == 0
  }

  /** What a vectored call on an unsuitable descriptor returns: the refusal of its first non-empty buffer. */
  function Refusal(es: seq<Iov>, fd: int, size: nat): int {
    if es == [] then 0
    else if es[0].len == 0 then Refusal(es[1..], fd, size)
    else if fd < 0 || fd >= U32 then -EBADF
    else if !Good(es[0], size) then -EFAULT else -EBADF
  }

  lemma {:induction false} RefusalAt(es: seq<Iov>, fd: int, size: nat, i: nat)
    requires AllEmpty(es, i)
    ensures Refusal(es, fd, size) == Refusal(es[i..], fd, size)
  {
    if i > 0 {
      assert es[1..][i - 1..] == es[i..];
      RefusalAt(es[1..], fd, size, i - 1);
    }
  }

  /** The first buffer that is not empty decides; without one the call returns 0. */
  lemma RefusalMeans(es: seq<Iov>, fd: int, size: nat, i: nat)
    requires AllEmpty(es, i) && (i < |es| ==> es[i].len > 0)
    ensures i == |es| ==> Refusal(es, fd, size) == 0
    ensures i < |es| && 0 <= fd < U32 && es[i].base + es[i].len > size ==> Refusal(es, fd, size) == -EFAULT
    ensures i < |es| && !(0 <= fd < U32 && es[i].base + es[i].len > size) ==> Refusal(es, fd, size) == -EBADF
  {
    RefusalAt(es, fd, size, i);
  }

  lemma RefusalHere(es: seq<Iov>, fd: int, size: nat, i: nat)
    requires i < |es| && AllEmpty(es, i)
    ensures es[i].len > 0 ==> Refusal(es, fd, size) == Refusal([es[i]], fd, size)
  {
    RefusalAt(es, fd, size, i);
  }

  /** The length of the first `i` buffers together. */
  function Sum(es: seq<Iov>, i: nat): nat
    requires i <= |es|
  {
    if i == 0 then 0 else Sum(es, i - 1) + es[i - 1].len
  }

  lemma {:induction false} SumMonotone(es: seq<Iov>, i: nat, j: nat)
    requires i <= j <= |es|
    ensures Sum(es, i) <= Sum(es, j)
  {
    if i < j { SumMonotone(es, i, j - 1); }
  }

  /** Byte `a` of memory once the stream `bs` is spread, as far as it goes, over the first `i` buffers in order. */
  ghost function After(memory: seq<byte>, es: seq<Iov>, i: nat, bs: seq<byte>, a: nat): byte
    requires i <= |es| && a < |memory|
  {
    if i == 0 then memory[a]
    else
      var e := es[i - 1];
      var at := Sum(es, i - 1) + a - e.base;
      if e.base <= a < e.base + e.len && at < |bs| then bs[at] else After(memory, es, i - 1, bs, a)
  }

  ghost function Scatter(memory: seq<byte>, es: seq<Iov>, i: nat, bs: seq<byte>): (r: seq<byte>)
    requires i <= |es|
    ensures |r| == |memory|
    ensures forall a :: 0 <= a < |memory| ==> r[a] == After(memory, es, i, bs, a)
  {
    seq(|memory|, a requires 0 <= a < |memory| => After(memory, es, i, bs, a))
  }

  /** Filling one more buffer is one write into memory. */
  lemma ScatterOne(memory: seq<byte>, es: seq<Iov>, i: nat, bs: seq<byte>, chunk: seq<byte>)
    requires i < |es| && Good(es[i], |memory|) && Sum(es, i) <= |bs| && es[i].base + |chunk| <= |memory|
    requires chunk == bs[Sum(es, i)..Min(Sum(es, i + 1), |bs|)]
    ensures Scatter(memory, es, i + 1, bs) == Splice(Scatter(memory, es, i, bs), es[i].base, chunk)
  {
    var before, after := Scatter(memory, es, i, bs), Scatter(memory, es, i + 1, bs);
    var put := Splice(before, es[i].base, chunk);
    forall a | 0 <= a < |memory| ensures after[a] == put[a] { SpliceAt(before, es[i].base, chunk, a); }
  }

  /** Buffers after the last byte stay as they are. */
  lemma {:induction false} AfterDone(memory: seq<byte>, es: seq<Iov>, i: nat, j: nat, bs: seq<byte>, a: nat)
    requires i <= j <= |es| && |bs| <= Sum(es, i) && a < |memory|
    ensures After(memory, es, j, bs, a) == After(memory, es, i, bs, a)
  {
    if i < j {
      SumMonotone(es, i, j - 1);
      AfterDone(memory, es, i, j - 1, bs, a);
    }
  }

  lemma ScatterDone(memory: seq<byte>, es: seq<Iov>, i: nat, j: nat, bs: seq<byte>)
    requires i <= j <= |es| && |bs| <= Sum(es, i)
    ensures Scatter(memory, es, j, bs) == Scatter(memory, es, i, bs)
  {
    forall a | 0 <= a < |memory| ensures After(memory, es, j, bs, a) == After(memory, es, i, bs, a) {
      AfterDone(memory, es, i, j, bs, a);
    }
  }

  predicate Inside(e: Iov, a: nat) {
    e.base <= a < e.base + e.len
  }

  ghost predicate NonOverlapping(es: seq<Iov>) {
    forall i, j, a: nat :: 0 <= i < j < |es| && Inside(es[i], a) ==> !Inside(es[j], a)
  }

  /** Bytes of memory outside the buffers from `i` to `n` are not changed by filling those. */
  lemma {:induction false} AfterElsewhere(memory: seq<byte>, es: seq<Iov>, i: nat, n: nat, bs: seq<byte>, a: nat)
    requires i <= n <= |es| && a < |memory|
    requires forall x :: i <= x < n ==> !Inside(es[x], a)
    ensures After(memory, es, n, bs, a) == After(memory, es, i, bs, a)
  {
    if i < n {
      assert !Inside(es[n - 1], a);
      AfterElsewhere(memory, es, i, n - 1, bs, a);
    }
  }

  /** Buffers that do not overlap: each holds its own stretch of the stream, as far as the stream goes. */
  lemma ScatterAt(memory: seq<byte>, es: seq<Iov>, n: nat, bs: seq<byte>, i: nat, a: nat)
    requires n <= |es| && NonOverlapping(es) && i < n && a < |memory| && Inside(es[i], a)
    ensures var at := Sum(es, i) + a - es[i].base;
            Scatter(memory, es, n, bs)[a] == if at < |bs| then bs[at] else memory[a]
  {
    AfterElsewhere(memory, es, i + 1, n, bs, a);
    AfterElsewhere(memory, es, 0, i, bs, a);
  }

  /** Memory outside every buffer keeps its bytes. */
  lemma ScatterElsewhere(memory: seq<byte>, es: seq<Iov>, n: nat, bs: seq<byte>, a: nat)
    requires n <= |es| && a < |memory| && forall i :: 0 <= i < n ==> !Inside(es[i], a)
    ensures Scatter(memory, es, n, bs)[a] == memory[a]
  {
    AfterElsewhere(memory, es, 0, n, bs, a);
  }

  /** The bytes of the first `i` buffers, one after the other. */
  ghost function Gather(memory: seq<byte>, es: seq<Iov>, i: nat): (bs: seq<byte>)
    requires BuffersOk(es, i, |memory|)
    ensures |bs| == Sum(es, i)
  {
    if i == 0 then []
    else
      var e := es[i - 1];
      Gather(memory, es, i - 1) + (if e.len == 0 then [] else memory[e.base..e.base + e.len])
  }

  lemma HoldsChunk(memory: seq<byte>, es: seq<Iov>, n: nat, bs: seq<byte>, i: nat)
    requires BuffersOk(es, n, |memory|) && NonOverlapping(es) && i < n && es[i].len > 0
    requires Sum(es, i) + es[i].len <= |bs|
    ensures es[i].base + es[i].len <= |memory|
    ensures Scatter(memory, es, n, bs)[es[i].base..es[i].base + es[i].len] == bs[Sum(es, i)..Sum(es, i) + es[i].len]
  {
    var e, from := es[i], Sum(es, i);
    assert Good(e, |memory|);
    var here, there := Scatter(memory, es, n, bs)[e.base..e.base + e.len], bs[from..from + e.len];
    forall j | 0 <= j < e.len ensures here[j] == there[j] { ScatterAt(memory, es, n, bs, i, e.base + j); }
  }

  /** Gathering from non-overlapping buffers just filled gives the stream back. */
  lemma {:induction false} GatherScatter(memory: seq<byte>, es: seq<Iov>, n: nat, bs: seq<byte>, i: nat)
    requires BuffersOk(es, n, |memory|) && NonOverlapping(es) && i <= n && Sum(es, n) <= |bs|
    ensures Sum(es, i) <= |bs| && Gather(Scatter(memory, es, n, bs), es, i) == bs[..Sum(es, i)]
  {
    hide Scatter, NonOverlapping;
    SumMonotone(es, i, n);
    if i > 0 {
      var full, e, from := Scatter(memory, es, n, bs), es[i - 1], Sum(es, i - 1);
      GatherScatter(memory, es, n, bs, i - 1);
      if e.len > 0 {
        HoldsChunk(memory, es, n, bs, i - 1);
        assert Gather(full, es, i) == Gather(full, es, i - 1) + full[e.base..e.base + e.len];
        JoinPrefix(bs, from, from + e.len);
      } else {
        assert Gather(full, es, i) == Gather(full, es, i - 1) + [];
      }
    }
  }

  lemma JoinPrefix(bs: seq<byte>, i: nat, j: nat)
    requires i <= j <= |bs|
    ensures bs[..i] + bs[i..j] == bs[..j]
  {
  }

  /** `bytes` joined the queue of pipe `p`; no other pipe changed. */
  ghost predicate Appended(pipes: seq<PipeState>, p: nat, bytes: seq<byte>, pipes': seq<PipeState>)
    requires p < |pipes|
  {
    pipes' == pipes[p := pipes[p].(buf := pipes[p].buf + bytes)]
  }

  /** A run of writes so far: the first `i` buffers are in the queue. */
  ghost predicate Sent(memory: seq<byte>, pipes0: seq<PipeState>, p: nat, es: seq<Iov>, i: nat, total: int,
                       pipes: seq<PipeState>)
    requires p < |pipes0|
  {
    BuffersOk(es, i, |memory|) && total == Sum(es, i) && Appended(pipes0, p, Gather(memory, es, i), pipes)
  }

  /** One write of the concatenation of the usable buffers. */
  ghost predicate WriteOnce(memory: seq<byte>, pipes0: seq<PipeState>, p: nat, es: seq<Iov>, r: int,
                            pipes: seq<PipeState>)
    requires p < |pipes0|
  {
    var g := Usable(es, |memory|);
    && r == (if Sum(es, g) == 0 && g < |es| then -EFAULT else Sum(es, g))
    && Appended(pipes0, p, Gather(memory, es, g), pipes)
  }

  lemma SentStart(memory: seq<byte>, pipes: seq<PipeState>, p: nat, es: seq<Iov>)
    requires p < |pipes|
    ensures Sent(memory, pipes, p, es, 0, 0, pipes)
  {
    assert pipes[p].buf + [] == pipes[p].buf;
  }

  lemma SentEmpty(memory: seq<byte>, pipes0: seq<PipeState>, p: nat, es: seq<Iov>, i: nat, total: int,
                  pipes: seq<PipeState>)
    requires p < |pipes0| && Sent(memory, pipes0, p, es, i, total, pipes) && i < |es| && es[i].len == 0
    ensures Sent(memory, pipes0, p, es, i + 1, total, pipes)
  {
    assert Gather(memory, es, i) + [] == Gather(memory, es, i);
  }

  lemma SentStep(memory: seq<byte>, pipes0: seq<PipeState>, p: nat, es: seq<Iov>, i: nat, total: int,
                 pipes: seq<PipeState>, pipes': seq<PipeState>)
    requires p < |pipes0| && Sent(memory, pipes0, p, es, i, total, pipes) && i < |es|
    requires es[i].len > 0 && Good(es[i], |memory|) && p < |pipes|
    requires Appended(pipes, p, memory[es[i].base..es[i].base + es[i].len], pipes')
    ensures Sent(memory, pipes0, p, es, i + 1, total + es[i].len, pipes')
  {
    var more := memory[es[i].base..es[i].base + es[i].len];
    assert pipes0[p].buf + Gather(memory, es, i) + more == pipes0[p].buf + Gather(memory, es, i + 1);
  }

  lemma SentStop(memory: seq<byte>, pipes0: seq<PipeState>, p: nat, es: seq<Iov>, i: nat, total: int,
                 pipes: seq<PipeState>)
    requires p < |pipes0| && Sent(memory, pipes0, p, es, i, total, pipes) && (i < |es| ==> !Good(es[i], |memory|))
    ensures WriteOnce(memory, pipes0, p, es, if total == 0 && i < |es| then -EFAULT else total, pipes)
  {
  }

  /** Pipe `p` went from `pipes` to `pipes'`, losing `n` bytes at the front; no other pipe changed. */
  ghost predicate Drained(pipes: seq<PipeState>, p: nat, n: nat, pipes': seq<PipeState>)
    requires p < |pipes|
  {
    n <= |pipes[p].buf| && pipes' == pipes[p := pipes[p].(buf := pipes[p].buf[n..])]
  }

  /** One read of a non-empty buffer. */
  ghost predicate ReadEffect(memory: seq<byte>, pipes: seq<PipeState>, p: nat, e: Iov, r: int, memory': seq<byte>,
                             pipes': seq<PipeState>)
    requires p < |pipes| && e.len > 0
  {
    if !Good(e, |memory|) then r == -EFAULT && memory' == memory && pipes' == pipes
    else
      var got := pipes[p].buf[..Min(e.len, |pipes[p].buf|)];
      r == ReadCode(pipes[p], e.len) && Drained(pipes, p, |got|, pipes') && memory' == Splice(memory, e.base, got)
  }

  /** A run of reads so far: the first `i` buffers are full. */
  ghost predicate Fed(mem0: seq<byte>, pipes0: seq<PipeState>, p: nat, es: seq<Iov>, i: nat, total: nat,
                      memory: seq<byte>, pipes: seq<PipeState>)
    requires p < |pipes0|
  {
    && BuffersOk(es, i, |mem0|) && total == Sum(es, i) && Drained(pipes0, p, total, pipes)
    && memory == Scatter(mem0, es, i, pipes0[p].buf)
  }

  /** One read of the summed length of the usable buffers, then a scatter. */
  ghost predicate ReadOnce(mem0: seq<byte>, pipes0: seq<PipeState>, p: nat, es: seq<Iov>, r: int,
                           memory: seq<byte>, pipes: seq<PipeState>)
    requires p < |pipes0|
  {
    var g, s := Usable(es, |mem0|), pipes0[p];
    var want := Sum(es, g);
    && r == (if want > 0 then ReadCode(s, want) else if g < |es| then -EFAULT else 0)
    && memory == Scatter(mem0, es, g, s.buf)
    && Drained(pipes0, p, Min(want, |s.buf|), pipes)
  }

  lemma DrainedTwice(pipes: seq<PipeState>, p: nat, n: nat, mid: seq<PipeState>, m: nat, pipes': seq<PipeState>)
    requires p < |pipes| && Drained(pipes, p, n, mid) && Drained(mid, p, m, pipes')
    ensures Drained(pipes, p, n + m, pipes')
    ensures mid[p].buf[..m] == pipes[p].buf[n..n + m]
  {
    assert pipes[p].buf[n..][m..] == pipes[p].buf[n + m..];
  }

  lemma FedStart(memory: seq<byte>, pipes: seq<PipeState>, p: nat, es: seq<Iov>)
    requires p < |pipes|
    ensures Fed(memory, pipes, p, es, 0, 0, memory, pipes)
  {
    assert pipes[p].buf[0..] == pipes[p].buf;
    assert Scatter(memory, es, 0, pipes[p].buf) == memory;
  }

  /** An empty buffer is skipped. */
  lemma FedEmpty(mem0: seq<byte>, pipes0: seq<PipeState>, p: nat, es: seq<Iov>, i: nat, total: nat,
                 memory: seq<byte>, pipes: seq<PipeState>)
    requires p < |pipes0| && Fed(mem0, pipes0, p, es, i, total, memory, pipes) && i < |es| && es[i].len == 0
    ensures Fed(mem0, pipes0, p, es, i + 1, total, memory, pipes)
  {
    var buf := pipes0[p].buf;
    forall a | 0 <= a < |mem0| ensures After(mem0, es, i + 1, buf, a) == After(mem0, es, i, buf, a) {}
    assert Scatter(mem0, es, i + 1, buf) == memory;
  }

  lemma FedMore(mem0: seq<byte>, pipes0: seq<PipeState>, p: nat, es: seq<Iov>, i: nat, total: nat,
                memory: seq<byte>, pipes: seq<PipeState>, m: nat, memory': seq<byte>, pipes': seq<PipeState>)
    requires p < |pipes0| && Fed(mem0, pipes0, p, es, i, total, memory, pipes) && i < |es| && es[i].len > 0
    requires Good(es[i], |mem0|) && m == Min(es[i].len, |pipes[p].buf|)
    requires Drained(pipes, p, m, pipes') && memory' == Splice(memory, es[i].base, pipes[p].buf[..m])
    ensures Drained(pipes0, p, total + m, pipes') && memory' == Scatter(mem0, es, i + 1, pipes0[p].buf)
  {
    DrainedTwice(pipes0, p, total, pipes, m, pipes');
    ScatterOne(mem0, es, i, pipes0[p].buf, pipes[p].buf[..m]);
  }

  /** A full buffer goes on; a short or a bad one ends the call. */
  lemma FedStep(mem0: seq<byte>, pipes0: seq<PipeState>, p: nat, es: seq<Iov>, i: nat, total: nat,
                memory: seq<byte>, pipes: seq<PipeState>, n: int, memory': seq<byte>, pipes': seq<PipeState>)
    requires p < |pipes0| && Fed(mem0, pipes0, p, es, i, total, memory, pipes) && i < |es| && es[i].len > 0
    requires ReadEffect(memory, pipes, p, es[i], n, memory', pipes')
    ensures n == es[i].len ==> Fed(mem0, pipes0, p, es, i + 1, total + n, memory', pipes')
    ensures 0 <= n < es[i].len ==> ReadOnce(mem0, pipes0, p, es, total + n, memory', pipes')
    ensures n < 0 ==> ReadOnce(mem0, pipes0, p, es, if total == 0 then n else total, memory', pipes')
  {
    if !Good(es[i], |mem0|) {
      FedStop(mem0, pipes0, p, es, i, total, memory, pipes);
    } else {
      var m := Min(es[i].len, |pipes[p].buf|);
      FedMore(mem0, pipes0, p, es, i, total, memory, pipes, m, memory', pipes');
      if m < es[i].len {
        ReadShort(mem0, pipes0, p, es, i, total + m, memory', pipes');
      }
    }
  }

  /** The stream ran out in buffer `i`. */
  lemma ReadShort(mem0: seq<byte>, pipes0: seq<PipeState>, p: nat, es: seq<Iov>, i: nat, total: nat,
                  memory: seq<byte>, pipes: seq<PipeState>)
    requires p < |pipes0| && i < |es| && BuffersOk(es, i + 1, |mem0|)
    requires total == |pipes0[p].buf| < Sum(es, i + 1) && Drained(pipes0, p, total, pipes)
    requires memory == Scatter(mem0, es, i + 1, pipes0[p].buf)
    ensures ReadOnce(mem0, pipes0, p, es, ReadCode(pipes0[p], Sum(es, i + 1)), memory, pipes)
  {
    var g := Usable(es, |mem0|);
    ScatterDone(mem0, es, i + 1, g, pipes0[p].buf);
    SumMonotone(es, i + 1, g);
  }

  /** A bad buffer, or the end of the list, ends the call too. */
  lemma FedStop(mem0: seq<byte>, pipes0: seq<PipeState>, p: nat, es: seq<Iov>, i: nat, total: nat,
                memory: seq<byte>, pipes: seq<PipeState>)
    requires p < |pipes0| && Fed(mem0, pipes0, p, es, i, total, memory, pipes) && (i < |es| ==> !Good(es[i], |mem0|))
    ensures ReadOnce(mem0, pipes0, p, es, if total == 0 && i < |es| then -EFAULT else total, memory, pipes)
  {
  }

  /** What one read of `len > 0` bytes returns: a count, end of file, or "try again". */
  function ReadCode(s: PipeState, len: int): int {
    if s.buf != [] then Min(len, |s.buf|) else if s.closed then 0 else -EAGAIN
  }

  /** The lowest number at or above `min` that is not open. */
  ghost predicate LowestFree(table: map<nat, Resource>, min: nat, fd: int) {
    min <= fd && fd !in table && forall x :: min <= x < fd ==> x in table
  }

  /** What is written to standard output comes back on standard input. */
  method StdoutEchoes(memory: seq<byte>, ptr: nat, len: nat) returns (p: Process, w: int, r: int)
    requires 0 < len && ptr + len <= |memory|
    ensures w == len && r == len && p.memory == memory
    ensures TakenFrom(p.log, 0) == memory[ptr..ptr + len]
  {
    hide Conserved, PipesKnown, ReadReported, Splice;
    p := new Process.WithStdio(memory);
    w := p.Write(1, ptr, len);
    var bytes := memory[ptr..ptr + len];
    assert [] + bytes == bytes && p.pipes[0].buf == bytes;
    r := p.Read(0, ptr, len);
    assert bytes[..len] == bytes;
    SpliceSame(memory, ptr, bytes);
    assert p.log == [Wrote(1, 0, bytes), Took(0, 0, bytes)];
    LogOne([], Wrote(1, 0, bytes), 0);
    LogOne([Wrote(1, 0, bytes)], Took(0, 0, bytes), 0);
    assert [] + [Wrote(1, 0, bytes)] == [Wrote(1, 0, bytes)];
    assert [Wrote(1, 0, bytes)] + [Took(0, 0, bytes)] == p.log;
  }

  /** `F_SETFD` on a number that is not open leaves a mark on it. */
  method MarkOfNothing(memory: seq<byte>) returns (p: Process, r: int)
    ensures r == 0 && !p.CloexecOk()
  {
    p := new Process.WithStdio(memory);
    r := p.SetFd(7, true);
    assert 7 in p.cloexec && 7 !in p.table;
  }

  /** A read of a new pipe says "try again" and leaves it as it was. */
  method EmptyPipe(memory: seq<byte>) returns (p: Process, r: int)
    requires |memory| >= 8
    ensures r == -EAGAIN && fresh(p) && p.Valid() && p.nextFd == 5
    ensures p.table == map[0 := Stdin(0), 1 := Stdout(0), 2 := Stderr(1), 3 := PipeRead(2), 4 := PipeWrite(2)]
    ensures |p.pipes| == 3 && p.pipes[2] == PipeState([], false, false)
    ensures |p.memory| == |memory| && p.memory[..8] == LE(3, 4) + LE(4, 4) && p.memory[8..] == memory[8..]
  {
    hide Conserved, PipesKnown, LE, Splice, ReadReported;
    p := new Process.WithStdio(memory);
    var made := p.Pipe2(0, false);
    var m := p.memory;
    SpliceElsewhere(memory, 0, LE(3, 4) + LE(4, 4), 8, |memory|);
    r := p.Read(3, 0, 4);
    SpliceSame(m, 0, []);
  }

  /** What is written to one end of a new pipe comes out of a duplicate of the other. */
  method PipeRun(memory: seq<byte>) returns (p: Process, w: int, d: int, r: int)
    requires |memory| >= 16
    ensures w == 4 && d == 5 && r == 4
    ensures |p.memory| == |memory| && p.memory[12..16] == memory[8..12]
  {
    hide Conserved, PipesKnown, LE, Splice, ReadReported;
    var empty;
    p, empty := EmptyPipe(memory);
    var m := p.memory;
    w := p.Write(4, 8, 4);
    var bytes := m[8..12];
    assert p.pipes[2].buf == [] + bytes == bytes;
    assert 4 in p.table && 5 !in p.table;
    d := p.Dup(3);
    r := p.Read(d, 12, 4);
    assert bytes[..4] == bytes;
  }
}
