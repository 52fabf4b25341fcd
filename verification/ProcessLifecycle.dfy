/**
 Process numbers and the table of children: fork, clone, exit, wait4 and exit signals
 (src/sys/process.rs).

 Every method appends one event to a log, and the state is what the log replays to; the theorems
 are about all logs.
 */
module ProcessLifecycle {
  import opened Base
  import opened Bytes

  const I32: int := 0x8000_0000

  datatype Child = Child(exited: bool, code: int)

  datatype State = State(nextPid: nat, children: map<nat, Child>, registry: set<nat>)

  datatype Event =
    | Forked(pid: nat)
    | Cloned(pid: nat)
    | AllExited
    | Signalled(pid: nat, code: int)
    | Reaped(pid: nat, code: int)
  {
    predicate Issues() { Forked? || Cloned? }
  }

  const Init: State := State(2, map[], {1})

  function MarkAll(children: map<nat, Child>): map<nat, Child> {
    map p | p in children :: children[p].(exited := true)
  }

  /** Signals concern process numbers handed out before. */
  predicate Can(s: State, e: Event) {
    match e
    case Forked(p) => p == s.nextPid
    case Cloned(p) => p == s.nextPid
    case AllExited => true
    case Signalled(p, code) => 2 <= p < s.nextPid
    case Reaped(p, code) => p in s.children && s.children[p] == Child(true, code)
  }

  function Next(s: State, e: Event): State {
    match e
    case Forked(p) => State(p + 1, s.children[p := Child(false, 0)], s.registry + {p})
    case Cloned(p) => State(p + 1, s.children, s.registry + {p})
    case AllExited => s.(children := MarkAll(s.children))
    case Signalled(p, code) => s.(children := s.children[p := Child(true, code)])
    case Reaped(p, code) => s.(children := s.children - {p})
  }

  /** The state a log leads to, if each of its events was possible when it happened. */
  ghost function Replay(log: seq<Event>): Option<State> {
    if log == [] then Some(Init)
    else
      match Replay(log[..|log| - 1])
      case None => None
      case Some(s) => if Can(s, log[|log| - 1]) then Some(Next(s, log[|log| - 1])) else None
  }

  ghost predicate Leads(log: seq<Event>, s: State) {
    Replay(log) == Some(s)
  }

  lemma ReplayOne(log: seq<Event>, s: State, e: Event)
    requires Leads(log, s) && Can(s, e)
    ensures Leads(log + [e], Next(s, e))
  {
    assert (log + [e])[..|log|] == log;
  }

  /** The log so far was possible too. */
  lemma {:induction false} ReplayPrefix(log: seq<Event>, k: nat)
    requires k <= |log| && Replay(log).Some?
    ensures Replay(log[..k]).Some?
  {
    if k < |log| {
      ReplayPrefix(log[..|log| - 1], k);
      assert log[..|log| - 1][..k] == log[..k];
    } else {
      assert log[..k] == log;
    }
  }

  // ----- process numbers -----

  ghost predicate Increasing(log: seq<Event>, nextPid: nat) {
    && (forall i :: 0 <= i < |log| && log[i].Issues() ==> 2 <= log[i].pid < nextPid)
    && (forall i, j :: 0 <= i < j < |log| && log[i].Issues() && log[j].Issues() ==> log[i].pid < log[j].pid)
  }

  /** Numbers from fork and clone increase, so no two are equal. */
  lemma {:induction false} PidsIncrease(log: seq<Event>, s: State)
    requires Leads(log, s)
    ensures 2 <= s.nextPid && Increasing(log, s.nextPid)
  {
    if log != [] {
      var n := |log| - 1;
      var before, last := log[..n], Replay(log[..n]).value.nextPid;
      PidsIncrease(before, Replay(before).value);
      forall i | 0 <= i < |log| && log[i].Issues()
        ensures 2 <= log[i].pid < s.nextPid && (i < n ==> log[i].pid < last)
      {
        if i < n { assert before[i] == log[i]; }
      }
      forall i, j | 0 <= i < j < |log| && log[i].Issues() && log[j].Issues() ensures log[i].pid < log[j].pid {
        if j < n { assert before[i] == log[i] && before[j] == log[j]; }
      }
    }
  }

  ghost function Issued(log: seq<Event>): set<nat> {
    if log == [] then {}
    else Issued(log[..|log| - 1]) + if log[|log| - 1].Issues() then {log[|log| - 1].pid} else {}
  }

  /** The registry holds every number issued, and 1; children have issued numbers. */
  lemma {:induction false} Registered(log: seq<Event>, s: State)
    requires Leads(log, s)
    ensures s.registry == {1} + Issued(log)
    ensures 2 <= s.nextPid && forall p :: p in s.children ==> 2 <= p < s.nextPid
  {
    if log != [] {
      var before := log[..|log| - 1];
      Registered(before, Replay(before).value);
    }
  }

  // ----- accounting -----

  ghost function Forks(log: seq<Event>, p: nat): nat {
    if log == [] then 0 else Forks(log[..|log| - 1], p) + if log[|log| - 1] == Forked(p) then 1 else 0
  }

  ghost function Reaps(log: seq<Event>, p: nat): nat {
    if log == [] then 0
    else Reaps(log[..|log| - 1], p) + if log[|log| - 1].Reaped? && log[|log| - 1].pid == p then 1 else 0
  }

  /** Signals for `p` that found no entry and so made one. */
  ghost function Strays(log: seq<Event>, p: nat): nat {
    if log == [] then 0
    else
      var before, e := log[..|log| - 1], log[|log| - 1];
      var stray := e.Signalled? && e.pid == p && Replay(before).Some? && p !in Replay(before).value.children;
      Strays(before, p) + if stray then 1 else 0
  }

  function Present(s: State, p: nat): nat {
    if p in s.children then 1 else 0
  }

  /** Each entry made is reaped or still there: nothing is lost and nothing is reaped out of thin air. */
  lemma {:induction false} Accounts(log: seq<Event>, s: State, p: nat)
    requires Leads(log, s)
    ensures Forks(log, p) + Strays(log, p) == Reaps(log, p) + Present(s, p)
  {
    if log != [] {
      var before := log[..|log| - 1];
      Accounts(before, Replay(before).value, p);
      Registered(before, Replay(before).value);
    }
  }

  lemma {:induction false} ForkedAtMostOnce(log: seq<Event>, s: State, p: nat)
    requires Leads(log, s)
    ensures Forks(log, p) <= 1 && (p >= s.nextPid ==> Forks(log, p) == 0)
  {
    if log != [] {
      var before := log[..|log| - 1];
      ForkedAtMostOnce(before, Replay(before).value, p);
    }
  }

  /**
   A forked process is exactly one of pending, exited or reaped once, if and only if no signal for
   it arrived while it had no entry.
   */
  lemma ExactlyOneIff(log: seq<Event>, s: State, p: nat)
    requires Leads(log, s) && Forks(log, p) > 0
    ensures Strays(log, p) == 0 <==> Reaps(log, p) + Present(s, p) == 1
    ensures Strays(log, p) == 0 ==> Reaps(log, p) <= 1 && (p in s.children <==> Reaps(log, p) == 0)
  {
    Accounts(log, s, p);
    ForkedAtMostOnce(log, s, p);
  }

  /**
   A process that exits marks its children; a child reaped then, and signalled when its own run ends,
   gets its entry back and can be reaped again. One signal is enough.
   */
  lemma ReapedTwice()
    ensures var log := [Forked(2), AllExited, Reaped(2, 0), Signalled(2, 139), Reaped(2, 139)];
            Replay(log).Some? && Reaps(log, 2) == 2
  {
    ReplayOne([], Init, Forked(2));
    var l1, s1 := [Forked(2)], Next(Init, Forked(2));
    assert [] + [Forked(2)] == l1;
    ReplayOne(l1, s1, AllExited);
    var l2, s2 := l1 + [AllExited], Next(s1, AllExited);
    ReplayOne(l2, s2, Reaped(2, 0));
    var l3, s3 := l2 + [Reaped(2, 0)], Next(s2, Reaped(2, 0));
    ReplayOne(l3, s3, Signalled(2, 139));
    var l4, s4 := l3 + [Signalled(2, 139)], Next(s3, Signalled(2, 139));
    ReplayOne(l4, s4, Reaped(2, 139));
    var l5, s5 := l4 + [Reaped(2, 139)], Next(s4, Reaped(2, 139));
    assert l5 == [Forked(2), AllExited, Reaped(2, 0), Signalled(2, 139), Reaped(2, 139)];
    ReapsOne([], Forked(2), 2);
    ReapsOne(l1, AllExited, 2);
    ReapsOne(l2, Reaped(2, 0), 2);
    ReapsOne(l3, Signalled(2, 139), 2);
    ReapsOne(l4, Reaped(2, 139), 2);
  }

  lemma ReapsOne(log: seq<Event>, e: Event, p: nat)
    ensures Reaps(log + [e], p) == Reaps(log, p) + if e.Reaped? && e.pid == p then 1 else 0
  {
    assert (log + [e])[..|log|] == log;
  }

  // ----- what is reported -----

  /** The code last recorded for `p`. */
  ghost function LastCode(log: seq<Event>, p: nat): int {
    if log == [] then 0
    else
      match log[|log| - 1]
      case Forked(q) => if q == p then 0 else LastCode(log[..|log| - 1], p)
      case Signalled(q, code) => if q == p then code else LastCode(log[..|log| - 1], p)
      case _ => LastCode(log[..|log| - 1], p)
  }

  /** Since it was forked, `p` was signalled or everything was marked exited. */
  ghost predicate Marked(log: seq<Event>, p: nat) {
    log != [] &&
    match log[|log| - 1]
    case Forked(q) => q != p && Marked(log[..|log| - 1], p)
    case Signalled(q, code) => q == p || Marked(log[..|log| - 1], p)
    case AllExited => true
    case _ => Marked(log[..|log| - 1], p)
  }

  lemma {:induction false} EntryMeans(log: seq<Event>, s: State, p: nat)
    requires Leads(log, s) && p in s.children
    ensures s.children[p] == Child(Marked(log, p), LastCode(log, p))
  {
    var before := log[..|log| - 1];
    if p in Replay(before).value.children { EntryMeans(before, Replay(before).value, p); }
  }

  /** Whatever is reaped was marked exited before, and carries the code last recorded for it. */
  lemma ReapReports(log: seq<Event>, i: nat)
    requires Replay(log).Some? && i < |log| && log[i].Reaped?
    ensures Marked(log[..i], log[i].pid) && log[i].code == LastCode(log[..i], log[i].pid)
  {
    ReplayPrefix(log, i + 1);
    assert log[..i + 1][..i] == log[..i];
    EntryMeans(log[..i], Replay(log[..i]).value, log[i].pid);
  }

  /** The status word of a normal exit. */
  function Wstatus(code: int): (w: int)
    ensures 0 <= w < 0x1_0000 && w % 256 == 0 && w / 256 == code % 256
  {
    (code % 256) * 256
  }

  /** A 64-bit argument cut to a signed 32-bit one. */
  function Cut32(x: int): (y: int)
    ensures -I32 <= y < I32 && (y - x) % U32 == 0
  {
    var low := (x + I32) % U32;
    assert x + I32 == U32 * ((x + I32) / U32) + low;
    assert low - I32 - x == U32 * (-((x + I32) / U32));
    low - I32
  }

  /** The entry a `wait4` on `pid` may take. */
  predicate Ready(children: map<nat, Child>, pid: int, p: nat) {
    p in children && children[p].exited && (pid > 0 ==> p == Cut32(pid))
  }

  /** A number names that child and no other; 0 and -1 name any; only exited ones are taken. */
  lemma ReadyMeans(children: map<nat, Child>, pid: int, p: nat)
    requires -1 <= pid < I32
    ensures Ready(children, pid, p) <==> p in children && children[p].exited && (pid == p || pid <= 0)
    ensures pid > 0 ==> (AnyReady(children, pid) <==> pid in children && children[pid].exited)
    ensures pid <= 0 ==> (AnyReady(children, pid) <==> exists q :: q in children && children[q].exited)
  {
    CutOfSmall(pid);
    if pid <= 0 && exists q :: q in children && children[q].exited {
      var q :| q in children && children[q].exited;
      assert Ready(children, pid, q);
    }
    if pid in children { assert Ready(children, pid, pid) <==> children[pid].exited; }
  }

  lemma CutOfSmall(x: int)
    requires -I32 <= x < I32
    ensures Cut32(x) == x
  {
  }

  ghost predicate AnyReady(children: map<nat, Child>, pid: int) {
    exists p :: Ready(children, pid, p)
  }

  datatype WaitResult = Returned(r: int) | Parked

  // ----- the process table -----

  class ProcessTable {
    var nextPid: nat
    var children: map<nat, Child>
    var registry: set<nat>
    var memory: seq<byte>
    ghost var log: seq<Event>

    ghost function View(): State
      reads this
    {
      State(nextPid, children, registry)
    }

    ghost predicate Valid()
      reads this
    {
      Leads(log, View())
    }

    constructor (memory: seq<byte>)
      ensures Valid() && log == [] && this.memory == memory
      ensures nextPid == 2 && children == map[] && registry == {1}
    {
      nextPid, children, registry, this.memory, log := 2, map[], {1}, memory, [];
    }

    /** `fork`: a fresh number and a pending entry. The counter is a 32-bit signed integer. */
    method Fork() returns (r: int)
      requires Valid() && nextPid < I32
      modifies this`nextPid, this`children, this`registry, this`log
      ensures Valid() && r == old(nextPid) && log == old(log) + [Forked(r)] && r !in old(children)
      ensures nextPid == r + 1 && children == old(children)[r := Child(false, 0)] && registry == old(registry) + {r}
    {
      Registered(log, View());
      ReplayOne(log, View(), Forked(nextPid));
      r := nextPid;
      nextPid := nextPid + 1;
      children := children[r := Child(false, 0)];
      registry := registry + {r};
      log := log + [Forked(r)];
    }

    predicate Fits(ptr: int)
      reads this`memory
    {
      0 <= ptr && ptr + 4 <= |memory|
    }

    /** `clone`: a fresh number, written where the flags ask. A bad pointer is found after the number is used up. */
    method Clone(unsupported: bool, parentSet: bool, childSet: bool, ptid: int, ctid: int) returns (r: int)
      requires Valid() && nextPid < I32
      modifies this`nextPid, this`registry, this`memory, this`log
      ensures Valid()
      ensures unsupported || (!parentSet && !childSet) ==>
                && r == -EINVAL && log == old(log) && memory == old(memory)
                && nextPid == old(nextPid) && registry == old(registry)
      ensures !unsupported && (parentSet || childSet) ==>
                && log == old(log) + [Cloned(old(nextPid))]
                && nextPid == old(nextPid) + 1 && registry == old(registry) + {old(nextPid)}
                && (if (parentSet && !old(Fits(ptid))) || (childSet && !old(Fits(ctid))) then r == -EFAULT
                      else r == old(nextPid))
                && memory == Noted(Noted(old(memory), parentSet, ptid, old(nextPid)),
                                   childSet && (parentSet ==> old(Fits(ptid))), ctid, old(nextPid))
    {
      hide LE, Splice, Replay;
      if unsupported || (!parentSet && !childSet) {
        return -EINVAL;
      }
      ReplayOne(log, View(), Cloned(nextPid));
      Registered(log, View());
      var tid := nextPid;
      nextPid := nextPid + 1;
      registry := registry + {tid};
      log := log + [Cloned(tid)];
      if parentSet {
        if !Fits(ptid) {
          return -EFAULT;
        }
        memory := Splice(memory, ptid, LE(tid, 4));
      }
      if childSet {
        if !Fits(ctid) {
          return -EFAULT;
        }
        memory := Splice(memory, ctid, LE(tid, 4));
      }
      return tid;
    }

    /** `exit` and `exit_group`: mark every child, in whatever order the table yields them. */
    method ReapAllChildren()
      requires Valid()
      modifies this`children, this`log
      ensures Valid() && log == old(log) + [AllExited]
      ensures children.Keys == old(children).Keys
      ensures forall p :: p in children ==> children[p] == Child(true, old(children)[p].code)
    {
      ReplayOne(log, View(), AllExited);
      ghost var was := children;
      var todo := set p | p in children;
      while todo != {}
        invariant todo <= children.Keys && children.Keys == was.Keys && log == old(log)
        invariant forall p :: p in children ==> children[p] == if p in todo then was[p] else was[p].(exited := true)
        decreases todo
      {
        var p :| p in todo;
        children := children[p := children[p].(exited := true)];
        todo := todo - {p};
      }
      assert forall p :: p in children ==> children[p] == MarkAll(was)[p];
      assert children == MarkAll(was);
      log := log + [AllExited];
    }

    /** The end of a child: set its code, or make an entry for it. */
    method RegisterAndSignal(pid: nat, code: int)
      requires Valid() && 2 <= pid < nextPid
      modifies this`children, this`log
      ensures Valid() && log == old(log) + [Signalled(pid, code)]
      ensures children == old(children)[pid := Child(true, code)]
    {
      ReplayOne(log, View(), Signalled(pid, code));
      if pid in children {
        children := children[pid := children[pid].(exited := true, code := code)];
      } else {
        children := children[pid := Child(true, code)];
      }
      log := log + [Signalled(pid, code)];
    }

    /** Take one matching exited child out of the table, any one if `pid` names none. */
    method TryReap(pid: int) returns (picked: Option<nat>, code: int)
      requires Valid()
      modifies this`children, this`log
      ensures Valid()
      ensures picked.None? ==> !AnyReady(old(children), pid) && log == old(log) && children == old(children)
      ensures picked.Some? ==>
                && Ready(old(children), pid, picked.value) && code == old(children)[picked.value].code
                && children == old(children) - {picked.value} && log == old(log) + [Reaped(picked.value, code)]
    {
      picked, code := None, 0;
      if pid > 0 {
        if Cut32(pid) >= 0 && Ready(children, pid, Cut32(pid)) {
          picked := Some(Cut32(pid));
        }
      } else {
        var todo := set p | p in children;
        while todo != {} && picked.None?
          invariant todo <= children.Keys && Valid() && children == old(children) && log == old(log)
          invariant forall p :: p in children && p !in todo && picked.None? ==> !children[p].exited
          invariant picked.Some? ==> Ready(children, pid, picked.value)
          decreases todo
        {
          var p :| p in todo;
          todo := todo - {p};
          if children[p].exited {
            picked := Some(p);
          }
        }
      }
      if picked.Some? {
        var p := picked.value;
        code := children[p].code;
        ReplayOne(log, View(), Reaped(p, code));
        children := children - {p};
        log := log + [Reaped(p, code)];
      }
    }

    /**
     Report a reaped child. It is gone from the table even when the status pointer is bad; the status
     word, if asked for, holds the last recorded code modulo 256.
     */
    method WriteWstatus(picked: nat, code: int, ptr: int) returns (r: int)
      modifies this`memory
      ensures ptr != 0 && !old(Fits(ptr)) ==> r == -EFAULT && memory == old(memory)
      ensures ptr == 0 ==> r == picked && memory == old(memory)
      ensures ptr != 0 && old(Fits(ptr)) ==> r == picked && memory == Splice(old(memory), ptr, LE(Wstatus(code), 4))
    {
      if ptr != 0 {
        if !Fits(ptr) {
          return -EFAULT;
        }
        memory := Splice(memory, ptr, LE(Wstatus(code), 4));
      }
      return picked;
    }

    /** One attempt of `wait4` to reap and report, or `None` if nothing is ready. */
    method Attempt(pid: int, ptr: int) returns (done: Option<int>)
      requires Valid()
      modifies this`children, this`memory, this`log
      ensures Valid()
      ensures done.None? ==>
                !AnyReady(old(children), pid) && log == old(log) && memory == old(memory) && children == old(children)
      ensures done.Some? ==> Reported(pid, ptr, done.value)
    {
      var picked, code := TryReap(pid);
      if picked.None? {
        return None;
      }
      ghost var before := old(log);
      assert log[|before|] == Reaped(picked.value, code) && log[..|before|] == before;
      ReapReports(log, |before|);
      var r := WriteWstatus(picked.value, code, ptr);
      return Some(r);
    }

    /**
     One child was reaped: it matched, it was marked exited before, the log says so with its last
     recorded code, and that code modulo 256 is what guest memory was told.
     */
    twostate predicate Reported(pid: int, ptr: int, r: int)
      reads this
    {
      exists p: nat ::
        && Ready(old(children), pid, p) && children == old(children) - {p}
        && var code := old(children)[p].code;
        && code == LastCode(old(log), p) && Marked(old(log), p) && log == old(log) + [Reaped(p, code)]
        && r == (if ptr == 0 || old(Fits(ptr)) then p else -EFAULT)
        && memory == (if ptr != 0 && old(Fits(ptr)) then Splice(old(memory), ptr, LE(Wstatus(code), 4))
              else old(memory))
    }

    /** `wait4` up to its first suspension. */
    method Wait4(pid: int, ptr: int, wnohang: bool, otherOptions: bool) returns (w: WaitResult)
      requires Valid()
      modifies this`children, this`memory, this`log
      ensures Valid()
      ensures otherOptions || pid < -1 ==> w == Returned(-EINVAL)
      ensures !otherOptions && pid >= -1 && old(children) == map[] ==> w == Returned(-ECHILD)
      ensures !otherOptions && pid >= -1 && AnyReady(old(children), pid) ==>
                w.Returned? && Reported(pid, ptr, w.r)
      ensures otherOptions || pid < -1 || !AnyReady(old(children), pid) ==>
                log == old(log) && memory == old(memory) && children == old(children)
      ensures !otherOptions && pid >= -1 && old(children) != map[] && !AnyReady(old(children), pid) ==>
                w == if wnohang then Returned(0)
                     else if pid > 0 && Cut32(pid) !in old(children) then Returned(-ECHILD)
                     else Parked
    {
      if otherOptions || pid < -1 {
        return Returned(-EINVAL);
      }
      if children == map[] {
        return Returned(-ECHILD);
      }
      var done := Attempt(pid, ptr);
      if done.Some? {
        return Returned(done.value);
      }
      if wnohang {
        return Returned(0);
      }
      if pid > 0 && Cut32(pid) !in children {
        return Returned(-ECHILD);
      }
      return Parked;
    }

    /** One wake-up of a parked `wait4`: anything may have happened since it parked. */
    method Woken(pid: int, ptr: int) returns (w: WaitResult)
      requires Valid() && pid >= -1
      modifies this`children, this`memory, this`log
      ensures Valid()
      ensures AnyReady(old(children), pid) ==> w.Returned? && Reported(pid, ptr, w.r)
      ensures !AnyReady(old(children), pid) ==>
                w == Parked && log == old(log) && memory == old(memory) && children == old(children)
    {
      var done := Attempt(pid, ptr);
      return if done.Some? then Returned(done.value) else Parked;
    }
  }

  function Noted(memory: seq<byte>, asked: bool, ptr: int, tid: int): seq<byte> {
    if asked && 0 <= tid && 0 <= ptr && ptr + 4 <= |memory| then Splice(memory, ptr, LE(tid, 4)) else memory
  }

  /** Where a number was asked for and fits, the guest reads it there. */
  lemma NotedReads(memory: seq<byte>, ptr: nat, tid: nat)
    requires ptr + 4 <= |memory| && tid < U32
    ensures |Noted(memory, true, ptr, tid)| == |memory|
    ensures FromLE(Noted(memory, true, ptr, tid)[ptr..ptr + 4]) == tid
  {
    Pow256Values();
    FromLEOfLE(tid, 4);
  }

  /** Two children; the second ends with code 300. A `wait4` for it reports it, its status word, and no other. */
  method WaitRun(memory: seq<byte>) returns (t: ProcessTable, first: WaitResult, w: WaitResult, again: WaitResult)
    requires |memory| >= 8
    ensures first == Returned(0) && w == Returned(3) && again == Returned(-ECHILD)
    ensures t.children == map[2 := Child(false, 0)]
    ensures |t.memory| == |memory| && FromLE(t.memory[4..8]) == 44 * 256
  {
    hide Leads, LastCode, Marked, LE, FromLE, Splice, Cut32;
    t := new ProcessTable(memory);
    var a := t.Fork();
    var b := t.Fork();
    CutOfSmall(3);
    ReadyMeans(t.children, 3, 3);
    first := t.Wait4(3, 4, true, false);
    t.RegisterAndSignal(3, 300);
    ReadyMeans(t.children, 3, 3);
    w := t.Wait4(3, 4, true, false);
    Pow256Values();
    FromLEOfLE(Wstatus(300), 4);
    ReadyMeans(t.children, 3, 3);
    again := t.Wait4(3, 4, false, false);
  }
}
