/**
 Flattening kernel state into a canonical snapshot and rebuilding it (src/snapshot.rs).

 Descriptors are compared by contents: a restore gives every descriptor its own buffers, so which
 descriptors shared one is not part of the picture.
 */
module KernelSnapshot {
  import opened Base
  import opened Sorting
  import Arenas

  const SNAPSHOT_FORMAT_VERSION: nat := 1

  datatype Pipe = Pipe(buf: seq<byte>, closed: bool, nonblock: bool)
  datatype FileState = FileState(path: Option<string>, pos: nat, isDir: bool, dirCache: Option<seq<byte>>)
  datatype EpollReg = EpollReg(fd: nat, events: nat, data: nat)
  datatype EventFdState = EventFdState(counter: nat, nonblock: bool)
  /** A host socket: only whether it was inherited matters here; the rest is one opaque value. */
  datatype SocketState = SocketState(inherited: bool, rest: int)

  datatype Resource =
    | Stdin(p: Pipe) | Stdout(p: Pipe) | Stderr(p: Pipe) | PipeRead(p: Pipe) | PipeWrite(p: Pipe)
    | File(f: FileState)
    | Socket(s: SocketState)
    | Epoll(regs: map<nat, EpollReg>, selfEventFd: Option<nat>)
    | EventFd(e: EventFdState)

  datatype KernelValue = KernelValue(
    fds: map<nat, Resource>, nextFd: nat, cloexec: set<nat>,
    arenas: seq<Arenas.ArenaData>, highWater: nat,
    root: string, cwd: string, bootNs: nat, brk: nat, args: seq<string>, env: seq<(string, string)>,
    rngSeed: seq<byte>, actions: map<int, int>, mask: nat, altStack: Option<seq<byte>>,
    exitCode: Option<int>, comm: seq<byte>, futex: map<nat, nat>, cpuNs: nat)

  // ----- the snapshot -----

  datatype Kind = KStdin | KStdout | KStderr | KPipeRead | KPipeWrite | KFile | KSocket | KEpoll | KEventFd

  datatype EpollSnap = EpollSnap(entries: seq<EpollReg>, selfEventFd: Option<nat>)

  /** A kind tag and a flattened union of payloads; the tag says which one should be there. */
  datatype ResourceSnap = ResourceSnap(
    kind: Kind, pipe: Option<Pipe>, file: Option<FileState>, socket: Option<SocketState>,
    epoll: Option<EpollSnap>, eventfd: Option<EventFdState>)

  datatype FdEntry = FdEntry(fd: nat, res: ResourceSnap)
  datatype FutexSnap = FutexSnap(addr: nat, waiters: nat)

  datatype Snapshot = Snapshot(
    version: nat, entries: seq<FdEntry>, nextFd: nat, cloexec: seq<nat>,
    arenas: seq<Arenas.ArenaData>, highWater: nat,
    root: string, cwd: string, bootNs: nat, brk: nat, args: seq<string>, env: seq<(string, string)>,
    rngSeed: seq<byte>, actions: map<int, int>, mask: nat, altStack: Option<seq<byte>>,
    exitCode: Option<int>, comm: seq<byte>, futex: seq<FutexSnap>, cpuNs: nat)

  function PipeSnap(k: Kind, p: Pipe): ResourceSnap { ResourceSnap(k, Some(p), None, None, None, None) }

  // ----- sorted keys -----

  ghost predicate Ascending(ks: seq<nat>) {
    forall i, j :: 0 <= i < j < |ks| ==> ks[i] < ks[j]
  }

  ghost predicate Lists(ks: seq<nat>, s: set<nat>) {
    Ascending(ks) && forall k :: k in ks <==> k in s
  }

  const Id: nat -> int := (k: nat) => k

  lemma AscendingUnique(p: seq<nat>, q: seq<nat>, s: set<nat>)
    requires Lists(p, s) && Lists(q, s)
    ensures p == q
  {
    OneOrder(p, q, (a: nat, b: nat) => a < b);
  }

  /** The members of a set in ascending order. */
  ghost function Keys(s: set<nat>): (ks: seq<nat>)
    ensures Lists(ks, s)
  {
    KeysExist(s);
    var ks :| Lists(ks, s);
    ks
  }

  lemma {:induction false} KeysExist(s: set<nat>)
    ensures exists ks :: Lists(ks, s)
  {
    if s == {} {
      assert Lists([], s);
    } else {
      var m := MaxOf(s);
      KeysExist(s - {m});
      var ks :| Lists(ks, s - {m});
      forall i | 0 <= i < |ks| ensures ks[i] < m { assert ks[i] in ks; }
      assert Lists(ks + [m], s);
    }
  }

  lemma {:induction false} MaxOf(s: set<nat>) returns (m: nat)
    requires s != {}
    ensures m in s && forall k :: k in s ==> k <= m
  {
    var x :| x in s;
    m := x;
    if s != {x} {
      var y := MaxOf(s - {x});
      m := if x < y then y else x;
      assert forall k :: k in s ==> k == x || k in s - {x};
    }
  }

  /** Walk a hash map's keys in whatever order it gives them, then sort: the order does not show. */
  method SortedKeys(s: set<nat>) returns (ks: seq<nat>)
    ensures ks == Keys(s)
  {
    var order: seq<nat>, rest := [], s;
    while rest != {}
      invariant rest <= s && (forall k :: k in order <==> k in s && k !in rest)
      invariant DistinctKeys(order, Id)
      decreases rest
    {
      var k :| k in rest;
      order, rest := order + [k], rest - {k};
    }
    ks := SortBy(order, Id);
    SortedListing(order, s);
  }

  lemma SortedListing(order: seq<nat>, s: set<nat>)
    requires DistinctKeys(order, Id) && forall k :: k in order <==> k in s
    ensures SortBy(order, Id) == Keys(s)
  {
    var ks := SortBy(order, Id);
    SortBySorted(order, Id);
    DistinctPermuted(order, ks, Id);
    SameMembers(order, ks);
    forall i, j | 0 <= i < j < |ks| ensures ks[i] < ks[j] {
      assert Id(ks[i]) <= Id(ks[j]) && Id(ks[i]) != Id(ks[j]);
    }
    AscendingUnique(ks, Keys(s), s);
  }

  // ----- taking a snapshot -----

  ghost function EpollEntries(regs: map<nat, EpollReg>): seq<EpollReg> {
    var ks := Keys(regs.Keys);
    seq(|ks|, i requires 0 <= i < |ks| => assert ks[i] in ks; regs[ks[i]])
  }

  ghost function SnapResource(r: Resource): ResourceSnap {
    match r
    case Stdin(p) => PipeSnap(KStdin, p)
    case Stdout(p) => PipeSnap(KStdout, p)
    case Stderr(p) => PipeSnap(KStderr, p)
    case PipeRead(p) => PipeSnap(KPipeRead, p)
    case PipeWrite(p) => PipeSnap(KPipeWrite, p)
    case File(f) => ResourceSnap(KFile, None, Some(f), None, None, None)
    case Socket(s) => ResourceSnap(KSocket, None, None, Some(s), None, None)
    case Epoll(regs, self) => ResourceSnap(KEpoll, None, None, None, Some(EpollSnap(EpollEntries(regs), self)), None)
    case EventFd(e) => ResourceSnap(KEventFd, None, None, None, None, Some(e))
  }

  ghost function FdEntries(fds: map<nat, Resource>): seq<FdEntry> {
    var ks := Keys(fds.Keys);
    seq(|ks|, i requires 0 <= i < |ks| => assert ks[i] in ks; FdEntry(ks[i], SnapResource(fds[ks[i]])))
  }

  /** Waiter counts are cut to 32 bits. */
  ghost function FutexEntries(futex: map<nat, nat>): seq<FutexSnap> {
    var ks := Keys(futex.Keys);
    seq(|ks|, i requires 0 <= i < |ks| => assert ks[i] in ks; FutexSnap(ks[i], futex[ks[i]] % U32))
  }

  ghost function SnapOf(k: KernelValue): Snapshot {
    Snapshot(SNAPSHOT_FORMAT_VERSION, FdEntries(k.fds), k.nextFd, Keys(k.cloexec), k.arenas, k.highWater,
             k.root, k.cwd, k.bootNs, k.brk, k.args, k.env, k.rngSeed, k.actions, k.mask, k.altStack,
             k.exitCode, k.comm, FutexEntries(k.futex), k.cpuNs)
  }

  /** A snapshot holds each part of the kernel under its own name, and one entry for each descriptor and futex. */
  lemma SnapshotSays(k: KernelValue, fd: nat, a: nat)
    ensures var s := SnapOf(k);
            && s.version == 1 && s.nextFd == k.nextFd && s.arenas == k.arenas && s.highWater == k.highWater
            && s.root == k.root && s.cwd == k.cwd && s.bootNs == k.bootNs && s.brk == k.brk && s.args == k.args
            && s.env == k.env && s.rngSeed == k.rngSeed && s.actions == k.actions && s.mask == k.mask
            && s.altStack == k.altStack && s.exitCode == k.exitCode && s.comm == k.comm && s.cpuNs == k.cpuNs
    ensures fd in SnapOf(k).cloexec <==> fd in k.cloexec
    ensures fd in k.fds ==> FdEntry(fd, SnapResource(k.fds[fd])) in SnapOf(k).entries
    ensures a in k.futex ==> FutexSnap(a, k.futex[a] % U32) in SnapOf(k).futex
    ensures |SnapOf(k).entries| == |k.fds| && |SnapOf(k).futex| == |k.futex| && |SnapOf(k).cloexec| == |k.cloexec|
  {
    KeysCount(k.fds.Keys);
    KeysCount(k.futex.Keys);
    KeysCount(k.cloexec);
    if fd in k.fds {
      var ks := Keys(k.fds.Keys);
      assert fd in ks;
      var i :| 0 <= i < |ks| && ks[i] == fd;
      assert FdEntries(k.fds)[i] == FdEntry(fd, SnapResource(k.fds[fd]));
    }
    if a in k.futex {
      var ks := Keys(k.futex.Keys);
      assert a in ks;
      var i :| 0 <= i < |ks| && ks[i] == a;
      assert FutexEntries(k.futex)[i] == FutexSnap(a, k.futex[a] % U32);
    }
  }

  lemma KeysCount(s: set<nat>)
    ensures |Keys(s)| == |s|
  {
    ListsCount(Keys(s), s);
  }

  lemma {:induction false} ListsCount(ks: seq<nat>, s: set<nat>)
    requires Lists(ks, s)
    ensures |ks| == |s|
  {
    if ks == [] {
      assert s == {};
    } else {
      var n := |ks| - 1;
      var last := ks[n];
      assert last in ks && ks == ks[..n] + [last];
      forall k ensures k in ks[..n] <==> k in s - {last} { assert k in ks <==> k in s; }
      ListsCount(ks[..n], s - {last});
    }
  }

  /** Tag and payload of one resource. */
  method SnapshotResource(r: Resource) returns (snap: ResourceSnap)
    ensures snap == SnapResource(r)
    ensures r.Stdin? ==> snap.kind == KStdin
    ensures r.Stdout? ==> snap.kind == KStdout
    ensures r.Stderr? ==> snap.kind == KStderr
    ensures r.PipeRead? ==> snap.kind == KPipeRead
    ensures r.PipeWrite? ==> snap.kind == KPipeWrite
    ensures r.Stdin? || r.Stdout? || r.Stderr? || r.PipeRead? || r.PipeWrite? <==> snap.pipe.Some?
    ensures snap.pipe.Some? ==> snap.pipe.value == r.p
    ensures r.File? ==> snap.kind == KFile && snap.file == Some(r.f)
    ensures r.Socket? ==> snap.kind == KSocket && snap.socket == Some(r.s)
    ensures r.EventFd? ==> snap.kind == KEventFd && snap.eventfd == Some(r.e)
    ensures r.Epoll? ==> snap.kind == KEpoll && snap.epoll.Some? && snap.epoll.value.selfEventFd == r.selfEventFd
  {
    match r
    case Stdin(p) => return PipeSnap(KStdin, p);
    case Stdout(p) => return PipeSnap(KStdout, p);
    case Stderr(p) => return PipeSnap(KStderr, p);
    case PipeRead(p) => return PipeSnap(KPipeRead, p);
    case PipeWrite(p) => return PipeSnap(KPipeWrite, p);
    case File(f) => return ResourceSnap(KFile, None, Some(f), None, None, None);
    case Socket(s) => return ResourceSnap(KSocket, None, None, Some(s), None, None);
    case Epoll(regs, self) =>
      var ks := SortedKeys(regs.Keys);
      var entries := [];
      for i := 0 to |ks|
        invariant entries == EpollEntries(regs)[..i]
      {
        assert ks[i] in ks;
        entries := entries + [regs[ks[i]]];
      }
      assert entries == EpollEntries(regs);
      return ResourceSnap(KEpoll, None, None, None, Some(EpollSnap(entries, self)), None);
    case EventFd(e) => return ResourceSnap(KEventFd, None, None, None, None, Some(e));
  }

  /** The snapshot depends on the kernel's contents alone, not on the order hash maps are walked in. */
  method BuildSnapshot(k: KernelValue) returns (snap: Snapshot)
    ensures snap == SnapOf(k)
  {
    var ks := SortedKeys(k.fds.Keys);
    var entries := [];
    for i := 0 to |ks|
      invariant entries == FdEntries(k.fds)[..i]
    {
      assert ks[i] in ks;
      var res := SnapshotResource(k.fds[ks[i]]);
      entries := entries + [FdEntry(ks[i], res)];
    }
    assert entries == FdEntries(k.fds);
    var cloexec := SortedKeys(k.cloexec);
    var fs := SortedKeys(k.futex.Keys);
    var futex := [];
    for i := 0 to |fs|
      invariant futex == FutexEntries(k.futex)[..i]
    {
      assert fs[i] in fs;
      futex := futex + [FutexSnap(fs[i], k.futex[fs[i]] % U32)];
    }
    assert futex == FutexEntries(k.futex);
    snap := Snapshot(SNAPSHOT_FORMAT_VERSION, entries, k.nextFd, cloexec, k.arenas, k.highWater,
                     k.root, k.cwd, k.bootNs, k.brk, k.args, k.env, k.rngSeed, k.actions, k.mask, k.altStack,
                     k.exitCode, k.comm, futex, k.cpuNs);
  }

  // ----- restoring -----

  datatype SnapError = VersionMismatch | UnknownResource | Directory | MissingPath | IoError | FdConflict
  datatype Restored<T> = Rebuilt(value: T) | Failed(why: SnapError)

  /** What the host lets a restore do: open a path for reading and writing, bring a socket back. */
  datatype Host = Host(canOpen: string -> bool, reopen: SocketState -> Option<SocketState>)

  function RegMap(entries: seq<EpollReg>): map<nat, EpollReg> {
    if entries == [] then map[]
    else RegMap(entries[..|entries| - 1])[entries[|entries| - 1].fd := entries[|entries| - 1]]
  }

  function RebuildFile(f: FileState, host: Host): Restored<Resource> {
    if f.isDir then Failed(Directory)
    else if f.path.None? then Failed(MissingPath)
    else if !host.canOpen(f.path.value) then Failed(IoError)
    else Rebuilt(File(FileState(f.path, f.pos, false, f.dirCache)))
  }

  /** Rebuild one resource from its tag and payload. */
  function Rebuild(r: ResourceSnap, host: Host): Restored<Resource> {
    if r.kind in {KStdin, KStdout, KStderr, KPipeRead, KPipeWrite} then
      if r.pipe.None? then Failed(UnknownResource)
      else
        var p := Pipe(r.pipe.value.buf, r.pipe.value.closed, r.pipe.value.nonblock);
        Rebuilt(match r.kind
                case KStdin => Stdin(p)
                case KStdout => Stdout(p)
                case KStderr => Stderr(p)
                case KPipeRead => PipeRead(p)
                case _ => PipeWrite(p))
    else if r.kind == KFile then
      if r.file.None? then Failed(UnknownResource) else RebuildFile(r.file.value, host)
    else if r.kind == KSocket then
      if r.socket.None? then Failed(UnknownResource)
      else
        var s := host.reopen(r.socket.value);
        if s.None? then Failed(IoError) else Rebuilt(Socket(s.value))
    else if r.kind == KEpoll then
      if r.epoll.None? then Failed(UnknownResource)
      else Rebuilt(Epoll(RegMap(r.epoll.value.entries), r.epoll.value.selfEventFd))
    else
      if r.eventfd.None? then Failed(UnknownResource) else Rebuilt(EventFd(r.eventfd.value))
  }

  predicate IsInherited(r: ResourceSnap) {
    r.kind == KSocket && r.socket.Some? && r.socket.value.inherited
  }

  const FdKey: FdEntry -> int := (e: FdEntry) => e.fd

  /** Rebuild a table from entries in order; inherited sockets are left for a later step. */
  ghost function RestoreFds(entries: seq<FdEntry>, host: Host): Restored<map<nat, Resource>> {
    if entries == [] then Rebuilt(map[])
    else RestoreOne(RestoreFds(entries[..|entries| - 1], host), entries[|entries| - 1], host)
  }

  ghost function RestoreOne(done: Restored<map<nat, Resource>>, e: FdEntry, host: Host): Restored<map<nat, Resource>> {
    if done.Failed? || IsInherited(e.res) then done
    else
      var r := Rebuild(e.res, host);
      if r.Failed? then Failed(r.why)
      else if e.fd in done.value then Failed(FdConflict)
      else Rebuilt(done.value[e.fd := r.value])
  }

  lemma {:induction false} FailurePersists(entries: seq<FdEntry>, host: Host, i: nat)
    requires i <= |entries| && RestoreFds(entries[..i], host).Failed?
    ensures RestoreFds(entries, host) == RestoreFds(entries[..i], host)
    decreases |entries| - i
  {
    if i < |entries| {
      assert entries[..i + 1][..i] == entries[..i];
      FailurePersists(entries, host, i + 1);
    } else {
      assert entries[..i] == entries;
    }
  }

  /** The entries before `i` were rebuilt into `fds`; entry `i` could not be. */
  ghost predicate StoppedAt(entries: seq<FdEntry>, host: Host, i: int, fds: map<nat, Resource>) {
    0 <= i < |entries| && RestoreFds(entries[..i], host) == Rebuilt(fds) && RestoreFds(entries[..i + 1], host).Failed?
  }

  function FutexMap(entries: seq<FutexSnap>): map<nat, nat> {
    if entries == [] then map[]
    else FutexMap(entries[..|entries| - 1])[entries[|entries| - 1].addr := entries[|entries| - 1].waiters]
  }

  ghost function SetOf(ks: seq<nat>): set<nat> {
    set k | k in ks
  }

  ghost function FromSnapshot(snap: Snapshot, fds: map<nat, Resource>): KernelValue {
    KernelValue(fds, snap.nextFd, SetOf(snap.cloexec), snap.arenas, snap.highWater,
                snap.root, snap.cwd, snap.bootNs, snap.brk, snap.args, snap.env, snap.rngSeed, snap.actions, snap.mask,
                snap.altStack, snap.exitCode, snap.comm, FutexMap(snap.futex), snap.cpuNs)
  }

  /** The next number is `first`, or the least above all that were put in, whichever is larger. */
  ghost predicate NextAfter(added: set<nat>, first: nat, next: nat) {
    first <= next && (forall fd :: fd in added ==> fd < next) && (next == first || next - 1 in added)
  }

  class Kernel {
    var v: KernelValue

    constructor (v: KernelValue)
      ensures this.v == v
    {
      this.v := v;
    }

    /** `FutexTable::rebuild_from_snapshot`: drop every entry, insert the saved ones. */
    method RebuildFutex(entries: seq<FutexSnap>)
      modifies this
      ensures v == old(v).(futex := FutexMap(entries))
    {
      v := v.(futex := map[]);
      for i := 0 to |entries|
        invariant v == old(v).(futex := FutexMap(entries[..i]))
      {
        assert entries[..i + 1][..i] == entries[..i];
        v := v.(futex := v.futex[entries[i].addr := entries[i].waiters]);
      }
      assert entries[..|entries|] == entries;
    }

    /** Start from an empty table and insert each rebuilt resource at its own number. */
    method RebuildFds(entries: seq<FdEntry>, host: Host) returns (r: Restored<()>)
      modifies this
      ensures v == old(v).(fds := v.fds, nextFd := v.nextFd, cloexec := {}) && NextAfter(v.fds.Keys, 3, v.nextFd)
      ensures RestoreFds(entries, host).Failed? ==>
                r == Failed(RestoreFds(entries, host).why) && exists i :: StoppedAt(entries, host, i, v.fds)
      ensures RestoreFds(entries, host).Rebuilt? ==> r == Rebuilt(()) && v.fds == RestoreFds(entries, host).value
    {
      v := v.(fds := map[], nextFd := 3, cloexec := {});
      for i := 0 to |entries|
        invariant RestoreFds(entries[..i], host) == Rebuilt(v.fds)
        invariant v == old(v).(fds := v.fds, nextFd := v.nextFd, cloexec := {}) && NextAfter(v.fds.Keys, 3, v.nextFd)
      {
        assert entries[..i + 1][..i] == entries[..i];
        var e := entries[i];
        if IsInherited(e.res) {
          continue;
        }
        var res := Rebuild(e.res, host);
        if res.Failed? || e.fd in v.fds { assert StoppedAt(entries, host, i, v.fds); }
        if res.Failed? {
          FailurePersists(entries, host, i + 1);
          return Failed(res.why);
        }
        if e.fd in v.fds {
          FailurePersists(entries, host, i + 1);
          return Failed(FdConflict);
        }
        v := v.(fds := v.fds[e.fd := res.value], nextFd := if e.fd >= v.nextFd then e.fd + 1 else v.nextFd);
      }
      assert entries[..|entries|] == entries;
      return Rebuilt(());
    }

    /** Replace the kernel's state by a snapshot's. */
    method ApplyKernelState(snap: Snapshot, host: Host) returns (r: Restored<()>)
      modifies this
      ensures snap.version != SNAPSHOT_FORMAT_VERSION ==> r == Failed(VersionMismatch) && v == old(v)
      ensures snap.version == SNAPSHOT_FORMAT_VERSION ==>
                match RestoreFds(SortBy(snap.entries, FdKey), host)
                case Failed(why) =>
                  && r == Failed(why) && v == FromSnapshot(snap, v.fds).(nextFd := v.nextFd, cloexec := {})
                  && exists i :: StoppedAt(SortBy(snap.entries, FdKey), host, i, v.fds)
                case Rebuilt(fds) => r == Rebuilt(()) && v == FromSnapshot(snap, fds)
      ensures r.Rebuilt? ==>
                && v.nextFd == snap.nextFd && v.arenas == snap.arenas && v.highWater == snap.highWater
                && v.root == snap.root && v.cwd == snap.cwd && v.bootNs == snap.bootNs && v.brk == snap.brk
                && v.args == snap.args && v.env == snap.env && v.rngSeed == snap.rngSeed && v.actions == snap.actions
                && v.mask == snap.mask && v.altStack == snap.altStack && v.exitCode == snap.exitCode
                && v.comm == snap.comm && v.cpuNs == snap.cpuNs
                && forall fd :: fd in v.cloexec <==> fd in snap.cloexec
    {
      if snap.version != SNAPSHOT_FORMAT_VERSION {
        return Failed(VersionMismatch);
      }
      v := v.(args := snap.args, env := snap.env, comm := snap.comm, exitCode := snap.exitCode, brk := snap.brk);
      v := v.(rngSeed := snap.rngSeed, root := snap.root, cwd := snap.cwd, bootNs := snap.bootNs);
      v := v.(actions := snap.actions, mask := snap.mask, altStack := snap.altStack);
      v := v.(arenas := snap.arenas, highWater := snap.highWater);
      RebuildFutex(snap.futex);
      v := v.(cpuNs := snap.cpuNs);
      r := RebuildFds(SortBy(snap.entries, FdKey), host);
      if r.Failed? {
        return;
      }
      ghost var fds := v.fds;
      for i := 0 to |snap.cloexec|
        invariant v == FromSnapshot(snap, fds).(nextFd := v.nextFd, cloexec := SetOf(snap.cloexec[..i]))
      {
        assert snap.cloexec[..i + 1] == snap.cloexec[..i] + [snap.cloexec[i]];
        v := v.(cloexec := v.cloexec + {snap.cloexec[i]});
      }
      assert snap.cloexec[..|snap.cloexec|] == snap.cloexec;
      v := v.(nextFd := snap.nextFd);
    }

    /** Put inherited listeners at their recorded numbers; strangers and taken slots are skipped. */
    method AttachInherited(snap: Snapshot, listeners: seq<Listener>)
      modifies this
      ensures v == old(v).(fds := Attached(old(v).fds, InheritedFds(snap.entries), listeners), nextFd := v.nextFd)
      ensures (forall l :: l in listeners && l.fd in InheritedFds(snap.entries) ==> l.fd < old(v).nextFd) ==>
                v.nextFd == old(v).nextFd
      ensures NextAfter(v.fds.Keys - old(v).fds.Keys, old(v).nextFd, v.nextFd)
    {
      for i := 0 to |listeners|
        invariant v == old(v).(fds := Attached(old(v).fds, InheritedFds(snap.entries), listeners[..i]),
                    nextFd := v.nextFd)
        invariant (forall l :: l in listeners && l.fd in InheritedFds(snap.entries) ==> l.fd < old(v).nextFd) ==>
                    v.nextFd == old(v).nextFd
        invariant old(v).fds.Keys <= v.fds.Keys && NextAfter(v.fds.Keys - old(v).fds.Keys, old(v).nextFd, v.nextFd)
      {
        assert listeners[..i + 1][..i] == listeners[..i];
        var l := listeners[i];
        assert l in listeners;
        if l.fd in InheritedFds(snap.entries) && l.fd !in v.fds {
          ghost var added := v.fds.Keys - old(v).fds.Keys;
          v := v.(fds := v.fds[l.fd := Socket(l.sock)], nextFd := if l.fd >= v.nextFd then l.fd + 1 else v.nextFd);
          assert v.fds.Keys - old(v).fds.Keys == added + {l.fd};
        }
      }
      assert listeners[..|listeners|] == listeners;
    }
  }

  datatype Listener = Listener(fd: nat, sock: SocketState)

  function InheritedFds(entries: seq<FdEntry>): set<nat> {
    set e | e in entries && IsInherited(e.res) :: e.fd
  }

  function Attached(fds: map<nat, Resource>, inherited: set<nat>, listeners: seq<Listener>): map<nat, Resource> {
    if listeners == [] then fds
    else
      var done, l := Attached(fds, inherited, listeners[..|listeners| - 1]), listeners[|listeners| - 1];
      if l.fd in inherited && l.fd !in done then done[l.fd := Socket(l.sock)] else done
  }

  /** Descriptors already there stay; beside them only inherited numbers appear, each with its first listener. */
  lemma {:induction false} AttachedMeans(fds: map<nat, Resource>, inherited: set<nat>, listeners: seq<Listener>,
                                         fd: nat)
    ensures var a := Attached(fds, inherited, listeners);
            && (fd in fds ==> fd in a && a[fd] == fds[fd])
            && (fd in a && fd !in fds <==> fd !in fds && fd in inherited && exists l :: l in listeners && l.fd == fd)
            && (fd in a && fd !in fds ==> exists i :: FirstFor(listeners, i, fd) && a[fd] == Socket(listeners[i].sock))
  {
    if listeners != [] {
      var n := |listeners| - 1;
      var before, l := listeners[..n], listeners[n];
      assert listeners == before + [l];
      AttachedMeans(fds, inherited, before, fd);
      var done, a := Attached(fds, inherited, before), Attached(fds, inherited, listeners);
      if fd in a && fd !in fds {
        if fd in done {
          var i :| FirstFor(before, i, fd) && done[fd] == Socket(before[i].sock);
          assert FirstFor(listeners, i, fd) && a[fd] == Socket(listeners[i].sock);
        } else {
          assert forall j :: 0 <= j < n ==> before[j] in before;
          assert FirstFor(listeners, n, fd) && a[fd] == Socket(listeners[n].sock);
        }
      }
    }
  }

  ghost predicate FirstFor(listeners: seq<Listener>, i: int, fd: nat) {
    0 <= i < |listeners| && listeners[i].fd == fd && forall j :: 0 <= j < i ==> listeners[j].fd != fd
  }

  // ----- restore then snapshot again -----

  /** An epoll registration is filed under the descriptor it watches. */
  ghost predicate WellKeyed(r: Resource) {
    r.Epoll? ==> forall k :: k in r.regs ==> r.regs[k].fd == k
  }

  /** Which resources a restore can bring back (inherited sockets are left to the next step). */
  ghost predicate Restorable(r: Resource, host: Host) {
    match r
    case File(f) => !f.isDir && f.path.Some? && host.canOpen(f.path.value)
    case Socket(s) => s.inherited || host.reopen(s).Some?
    case _ => true
  }

  lemma {:induction false} RegMapPrefix(regs: map<nat, EpollReg>, i: nat)
    requires i <= |Keys(regs.Keys)| && forall k :: k in regs ==> regs[k].fd == k
    ensures RegMap(EpollEntries(regs)[..i]) == Restrict(regs, Keys(regs.Keys)[..i])
  {
    hide Lists, Restrict;
    var ks, es := Keys(regs.Keys), EpollEntries(regs);
    if i == 0 {
      RestrictNone(regs);
      assert es[..0] == [] && ks[..0] == [];
    } else {
      RegMapPrefix(regs, i - 1);
      assert es[..i][..i - 1] == es[..i - 1];
      KeyIn(regs.Keys, i - 1);
      RestrictMore(regs, ks, i - 1);
      assert es[i - 1] == regs[ks[i - 1]];
    }
  }

  /** The part of a map at the given keys. */
  ghost function Restrict<V>(m: map<nat, V>, ks: seq<nat>): map<nat, V> {
    map k | k in m && k in ks :: m[k]
  }

  lemma RestrictNone<V>(m: map<nat, V>)
    ensures Restrict(m, []) == map[]
  {
  }

  lemma RestrictMore<V>(m: map<nat, V>, ks: seq<nat>, i: nat)
    requires i < |ks| && ks[i] in m
    ensures Restrict(m, ks[..i + 1]) == Restrict(m, ks[..i])[ks[i] := m[ks[i]]]
  {
    assert ks[..i + 1] == ks[..i] + [ks[i]];
  }

  lemma RestrictAll<V>(m: map<nat, V>)
    ensures Restrict(m, Keys(m.Keys)) == m
  {
  }

  lemma KeyIn(s: set<nat>, i: nat)
    requires i < |Keys(s)|
    ensures Keys(s)[i] in s
  {
    assert Keys(s)[i] in Keys(s);
  }

  lemma RegsComeBack(regs: map<nat, EpollReg>)
    requires forall k :: k in regs ==> regs[k].fd == k
    ensures RegMap(EpollEntries(regs)) == regs
  {
    var ks, es := Keys(regs.Keys), EpollEntries(regs);
    RegMapPrefix(regs, |ks|);
    RestrictAll(regs);
    assert es[..|ks|] == es && ks[..|ks|] == ks;
  }

  /** Each resource survives the round trip through its tag and payload. */
  lemma RebuildRoundTrip(r: Resource, host: Host)
    requires WellKeyed(r)
    ensures !r.Socket? ==> (Rebuild(SnapResource(r), host).Rebuilt? <==> Restorable(r, host))
    ensures !r.Socket? && Restorable(r, host) ==> Rebuild(SnapResource(r), host) == Rebuilt(r)
    ensures r.Socket? ==>
              (IsInherited(SnapResource(r)) || Rebuild(SnapResource(r), host).Rebuilt? <==> Restorable(r, host))
    ensures IsInherited(SnapResource(r)) <==> r.Socket? && r.s.inherited
  {
    if r.Epoll? { RegsComeBack(r.regs); }
  }

  /** Why a resource is refused: no directory comes back, and a file or socket needs the host. */
  lemma RebuildRefuses(f: FileState, s: SocketState, k: Kind, host: Host)
    ensures Rebuild(SnapResource(File(f)), host) ==
            if f.isDir then Failed(Directory) else if f.path.None? then Failed(MissingPath)
            else if host.canOpen(f.path.value) then Rebuilt(File(f)) else Failed(IoError)
    ensures Rebuild(SnapResource(Socket(s)), host) ==
            if host.reopen(s).Some? then Rebuilt(Socket(host.reopen(s).value)) else Failed(IoError)
    ensures Rebuild(ResourceSnap(k, None, None, None, None, None), host) == Failed(UnknownResource)
  {
  }

  ghost predicate WellFormed(k: KernelValue) {
    forall fd :: fd in k.fds ==> WellKeyed(k.fds[fd])
  }

  /** The table without the sockets that a parent process will hand over. */
  ghost function Own(fds: map<nat, Resource>): map<nat, Resource> {
    map fd | fd in fds && !(fds[fd].Socket? && fds[fd].s.inherited) :: fds[fd]
  }

  ghost predicate OwnSockets(fds: map<nat, Resource>) {
    exists fd :: fd in fds && fds[fd].Socket? && !fds[fd].s.inherited
  }

  ghost predicate AllRestorable(fds: map<nat, Resource>, ks: seq<nat>, host: Host) {
    forall fd :: fd in ks && fd in fds ==> Restorable(fds[fd], host)
  }

  ghost function Part(fds: map<nat, Resource>, ks: seq<nat>): map<nat, Resource> {
    map fd | fd in Own(fds) && fd in ks :: fds[fd]
  }

  /** The state of a restore after the descriptors `ks`. */
  ghost predicate RestoredPart(fds: map<nat, Resource>, ks: seq<nat>, host: Host, done: Restored<map<nat, Resource>>) {
    && (done.Rebuilt? <==> AllRestorable(fds, ks, host))
    && (done.Rebuilt? ==> forall fd :: fd in done.value ==> fd in ks)
    && (done.Rebuilt? && !OwnSockets(fds) ==> done.value == Part(fds, ks))
  }

  lemma RestoreNext(fds: map<nat, Resource>, ks: seq<nat>, host: Host, done: Restored<map<nat, Resource>>, fd: nat)
    requires RestoredPart(fds, ks, host, done) && fd in fds && fd !in ks && WellKeyed(fds[fd])
    ensures RestoredPart(fds, ks + [fd], host, RestoreOne(done, FdEntry(fd, SnapResource(fds[fd])), host))
  {
    RebuildRoundTrip(fds[fd], host);
    var next := RestoreOne(done, FdEntry(fd, SnapResource(fds[fd])), host);
    assert AllRestorable(fds, ks + [fd], host) <==> AllRestorable(fds, ks, host) && Restorable(fds[fd], host);
    if next.Rebuilt? && !OwnSockets(fds) {
      if fd in Own(fds) {
        assert Part(fds, ks + [fd]) == Part(fds, ks)[fd := fds[fd]];
      } else {
        assert Part(fds, ks + [fd]) == Part(fds, ks);
      }
    }
  }

  lemma {:induction false} RestorePrefix(k: KernelValue, host: Host, i: nat)
    requires WellFormed(k) && i <= |Keys(k.fds.Keys)|
    ensures RestoredPart(k.fds, Keys(k.fds.Keys)[..i], host, RestoreFds(FdEntries(k.fds)[..i], host))
  {
    hide RestoredPart, RestoreOne, Lists, SnapResource;
    if i == 0 {
      RestoredNone(k.fds, host);
      assert Keys(k.fds.Keys)[..0] == [] && FdEntries(k.fds)[..0] == [];
    } else {
      var ks, es := Keys(k.fds.Keys), FdEntries(k.fds);
      RestorePrefix(k, host, i - 1);
      RestoreSnoc(es, host, i - 1);
      KeyAt(k.fds, i - 1);
      RestoreNext(k.fds, ks[..i - 1], host, RestoreFds(es[..i - 1], host), ks[i - 1]);
    }
  }

  lemma RestoredNone(fds: map<nat, Resource>, host: Host)
    ensures RestoredPart(fds, [], host, Rebuilt(map[]))
  {
  }

  lemma RestoreSnoc(es: seq<FdEntry>, host: Host, i: nat)
    requires i < |es|
    ensures RestoreFds(es[..i + 1], host) == RestoreOne(RestoreFds(es[..i], host), es[i], host)
  {
    assert es[..i + 1][..i] == es[..i];
  }

  lemma KeyAt(fds: map<nat, Resource>, i: nat)
    requires i < |Keys(fds.Keys)|
    ensures var ks := Keys(fds.Keys);
            && ks[i] in fds && ks[i] !in ks[..i] && ks[..i + 1] == ks[..i] + [ks[i]]
            && FdEntries(fds)[i] == FdEntry(ks[i], SnapResource(fds[ks[i]]))
  {
    var ks := Keys(fds.Keys);
    assert ks[i] in ks;
  }

  lemma EntriesSorted(fds: map<nat, Resource>)
    ensures SortBy(FdEntries(fds), FdKey) == FdEntries(fds)
  {
    var ks, es := Keys(fds.Keys), FdEntries(fds);
    assert forall i, j :: 0 <= i < j < |es| ==> ks[i] < ks[j] && FdKey(es[i]) < FdKey(es[j]);
    SortBySorted(es, FdKey);
    SortedUnique(es, SortBy(es, FdKey), FdKey);
  }

  /** A restore of a kernel's own snapshot succeeds exactly when each of its resources can come back. */
  lemma RestoreSucceedsIff(k: KernelValue, host: Host)
    requires WellFormed(k)
    ensures RestoreFds(SortBy(SnapOf(k).entries, FdKey), host).Rebuilt? <==>
            forall fd :: fd in k.fds ==> Restorable(k.fds[fd], host)
  {
    var ks, es := Keys(k.fds.Keys), FdEntries(k.fds);
    EntriesSorted(k.fds);
    RestorePrefix(k, host, |ks|);
    assert ks[..|ks|] == ks && es[..|ks|] == es;
  }

  lemma {:induction false} FutexPrefix(futex: map<nat, nat>, i: nat)
    requires i <= |Keys(futex.Keys)|
    ensures FutexMap(FutexEntries(futex)[..i]) == Restrict(Cut(futex), Keys(futex.Keys)[..i])
  {
    hide Lists, Restrict;
    var ks, es := Keys(futex.Keys), FutexEntries(futex);
    if i == 0 {
      RestrictNone(Cut(futex));
      assert es[..0] == [] && ks[..0] == [];
    } else {
      FutexPrefix(futex, i - 1);
      assert es[..i][..i - 1] == es[..i - 1];
      KeyIn(futex.Keys, i - 1);
      RestrictMore(Cut(futex), ks, i - 1);
      assert es[i - 1] == FutexSnap(ks[i - 1], Cut(futex)[ks[i - 1]]);
    }
  }

  /** Counters as a snapshot keeps them. */
  ghost function Cut(futex: map<nat, nat>): map<nat, nat> {
    map a | a in futex :: futex[a] % U32
  }

  lemma CountersComeBack(futex: map<nat, nat>)
    ensures FutexMap(FutexEntries(futex)) == Cut(futex)
  {
    var ks, es := Keys(futex.Keys), FutexEntries(futex);
    FutexPrefix(futex, |ks|);
    assert Cut(futex).Keys == futex.Keys;
    RestrictAll(Cut(futex));
    assert es[..|ks|] == es && ks[..|ks|] == ks;
  }

  lemma CutOnce(futex: map<nat, nat>)
    ensures FutexEntries(Cut(futex)) == FutexEntries(futex)
  {
    var ks := Keys(futex.Keys);
    assert Cut(futex).Keys == futex.Keys;
    forall i | 0 <= i < |ks| ensures FutexEntries(Cut(futex))[i] == FutexEntries(futex)[i] { assert ks[i] in ks; }
  }

  lemma StateComesBack(k: KernelValue)
    ensures FromSnapshot(SnapOf(k), k.fds) == k.(futex := Cut(k.futex))
    ensures SnapOf(k.(futex := Cut(k.futex))) == SnapOf(k)
  {
    CountersComeBack(k.futex);
    CutOnce(k.futex);
    assert SetOf(Keys(k.cloexec)) == k.cloexec;
  }

  /**
   The fixpoint: when nothing needs the network, the restored kernel has the same contents as the
   frozen one (waiter counts modulo 2^32), and its snapshot is the same snapshot.
   */
  lemma RestoreThenSnapshot(k: KernelValue, host: Host)
    requires WellFormed(k) && (forall fd :: fd in k.fds ==> Restorable(k.fds[fd], host) && !k.fds[fd].Socket?)
    ensures RestoreFds(SortBy(SnapOf(k).entries, FdKey), host) == Rebuilt(k.fds)
    ensures FromSnapshot(SnapOf(k), k.fds) == k.(futex := Cut(k.futex))
    ensures SnapOf(FromSnapshot(SnapOf(k), k.fds)) == SnapOf(k)
  {
    RestoreOwn(k, host);
    assert Own(k.fds) == k.fds;
    StateComesBack(k);
  }

  lemma RestoreOwn(k: KernelValue, host: Host)
    requires WellFormed(k) && !OwnSockets(k.fds) && forall fd :: fd in k.fds ==> Restorable(k.fds[fd], host)
    ensures RestoreFds(SortBy(SnapOf(k).entries, FdKey), host) == Rebuilt(Own(k.fds))
  {
    var ks, es := Keys(k.fds.Keys), FdEntries(k.fds);
    EntriesSorted(k.fds);
    RestorePrefix(k, host, |ks|);
    assert ks[..|ks|] == ks && es[..|ks|] == es;
    WholePart(k.fds, host, RestoreFds(es, host));
  }

  lemma WholePart(fds: map<nat, Resource>, host: Host, done: Restored<map<nat, Resource>>)
    requires RestoredPart(fds, Keys(fds.Keys), host, done)
    requires !OwnSockets(fds) && forall fd :: fd in fds ==> Restorable(fds[fd], host)
    ensures done == Rebuilt(Own(fds))
  {
    assert Part(fds, Keys(fds.Keys)) == Own(fds);
  }

  lemma InheritedAre(k: KernelValue)
    ensures InheritedFds(FdEntries(k.fds)) == set fd | fd in k.fds && k.fds[fd].Socket? && k.fds[fd].s.inherited
  {
    var ks, es := Keys(k.fds.Keys), FdEntries(k.fds);
    forall fd | fd in k.fds && k.fds[fd].Socket? && k.fds[fd].s.inherited ensures fd in InheritedFds(es) {
      assert fd in ks;
      var i :| 0 <= i < |ks| && ks[i] == fd;
      assert es[i] in es && IsInherited(es[i].res);
    }
    forall e | e in es && IsInherited(e.res) ensures e.fd in k.fds && k.fds[e.fd].Socket? && k.fds[e.fd].s.inherited {
      var i :| 0 <= i < |es| && es[i] == e;
      assert ks[i] in ks;
    }
  }

  lemma {:induction false} AttachedIs(fds: map<nat, Resource>, listeners: seq<Listener>, inherited: set<nat>)
    requires inherited == set fd | fd in fds && fds[fd].Socket? && fds[fd].s.inherited
    requires forall l :: l in listeners && l.fd in inherited ==> fds[l.fd] == Socket(l.sock)
    ensures Attached(Own(fds), inherited, listeners) ==
            map fd | fd in fds && (fd in Own(fds) || exists l :: l in listeners && l.fd == fd) :: fds[fd]
  {
    if listeners != [] {
      var n := |listeners| - 1;
      assert listeners == listeners[..n] + [listeners[n]];
      AttachedIs(fds, listeners[..n], inherited);
    }
  }

  /**
   The three-step restore: if each inherited socket is handed over by the parent, at its number and
   in its state, the table comes back whole.
   */
  lemma InheritedComeBack(k: KernelValue, host: Host, listeners: seq<Listener>)
    requires WellFormed(k) && !OwnSockets(k.fds) && forall fd :: fd in k.fds ==> Restorable(k.fds[fd], host)
    requires forall l :: l in listeners && l.fd in k.fds && k.fds[l.fd].Socket? ==> k.fds[l.fd] == Socket(l.sock)
    requires forall fd :: fd in k.fds && k.fds[fd].Socket? ==> exists l :: l in listeners && l.fd == fd
    ensures RestoreFds(SortBy(SnapOf(k).entries, FdKey), host) == Rebuilt(Own(k.fds))
    ensures Attached(Own(k.fds), InheritedFds(SnapOf(k).entries), listeners) == k.fds
  {
    RestoreOwn(k, host);
    AllHandedOver(k, listeners);
  }

  lemma AllHandedOver(k: KernelValue, listeners: seq<Listener>)
    requires forall l :: l in listeners && l.fd in k.fds && k.fds[l.fd].Socket? ==> k.fds[l.fd] == Socket(l.sock)
    requires forall fd :: fd in k.fds && k.fds[fd].Socket? ==> exists l :: l in listeners && l.fd == fd
    ensures Attached(Own(k.fds), InheritedFds(FdEntries(k.fds)), listeners) == k.fds
  {
    hide FdEntries, InheritedFds;
    InheritedAre(k);
    AttachedIs(k.fds, listeners, InheritedFds(FdEntries(k.fds)));
  }

  /**
   Freeze, restore into another kernel, hand over the inherited listeners, freeze again: the two
   snapshots are equal, and so are the kernels up to waiter counts modulo 2^32.
   */
  method FreezeRestoreFreeze(k: KernelValue, target: Kernel, host: Host, listeners: seq<Listener>)
    returns (first: Snapshot, second: Snapshot)
    requires WellFormed(k) && !OwnSockets(k.fds) && forall fd :: fd in k.fds ==>
               fd < k.nextFd && Restorable(k.fds[fd], host)
    requires forall l :: l in listeners && l.fd in k.fds && k.fds[l.fd].Socket? ==> k.fds[l.fd] == Socket(l.sock)
    requires forall fd :: fd in k.fds && k.fds[fd].Socket? ==> exists l :: l in listeners && l.fd == fd
    modifies target
    ensures first == second == SnapOf(k) && target.v == k.(futex := Cut(k.futex))
  {
    first := BuildSnapshot(k);
    InheritedComeBack(k, host, listeners);
    StateComesBack(k);
    InheritedAre(k);
    var r := target.ApplyKernelState(first, host);
    target.AttachInherited(first, listeners);
    assert target.v == FromSnapshot(first, k.fds);
    second := BuildSnapshot(target.v);
  }
}
