/**
 FUTEX_WAIT and FUTEX_WAKE as a step system (src/sys/futex.rs).

 A thread inside `futex_wait` is `Parked` on a notifier until a wake or its timeout takes it off
 that notifier's queue; a woken thread is `Woken` until it runs `release_waiter` and returns.
 Registering and parking are one step: nothing is awaited between them.
 */
module Futex {
  import opened Base
  import opened Sorting

  const INVALID_FUTEX_ADDR: int := 0xFFFF_FFFF

  type Tid = nat

  datatype Entry = Entry(notify: nat, waiters: nat)

  datatype Status = Parked(addr: nat, notify: nat) | Woken(addr: nat)

  /**
   `table` is the kernel's map; `queues` and `permits` are the state of the notifiers (first come,
   first woken; a notification with nobody queued is kept as a permit); `status` says where each
   thread inside a futex call is. The three counters record what callers were told.
   */
  datatype State = State(
    table: map<nat, Entry>, queues: map<nat, seq<Tid>>, permits: set<nat>, nextNotify: nat,
    status: map<Tid, Status>, waits: nat, wakes: nat, timeouts: nat)

  const Init := State(map[], map[], {}, 0, map[], 0, 0, 0)

  datatype Step = Wait(t: Tid, a: nat) | Wake(w: nat, val: int) | Release(t: Tid) | Timeout(t: Tid)

  // ----- one step -----

  function EntryAt(s: State, a: nat): Entry {
    if a in s.table then s.table[a] else Entry(s.nextNotify, 0)
  }

  function QueueOf(s: State, n: nat): seq<Tid> {
    if n in s.queues then s.queues[n] else []
  }

  /** Count the waiter in, then queue on the entry's notifier (or use up a stored permit). */
  function WaitStep(s: State, t: Tid, a: nat): State {
    var e := EntryAt(s, a);
    var s1 := s.(table := s.table[a := Entry(e.notify, e.waiters + 1)],
                 nextNotify := if a in s.table then s.nextNotify else s.nextNotify + 1,
                 waits := s.waits + 1);
    if e.notify in s.permits then
      s1.(permits := s.permits - {e.notify}, status := s.status[t := Woken(a)])
    else
      s1.(queues := s.queues[e.notify := QueueOf(s, e.notify) + [t]], status := s.status[t := Parked(a, e.notify)])
  }

  /** Set an entry's counter; an entry that reaches zero is removed. */
  function SetWaiters(table: map<nat, Entry>, a: nat, n: nat): map<nat, Entry>
    requires a in table
  {
    if n == 0 then table - {a} else table[a := table[a].(waiters := n)]
  }

  /** How many waiters a wake reports: at most `val`, at most the counter. */
  function ToWake(s: State, a: nat, val: int): nat {
    if a in s.table then Min(Max(val, 0), s.table[a].waiters) else 0
  }

  function NotifyOne(s: State, n: nat): State {
    var q := QueueOf(s, n);
    if q == [] then s.(permits := s.permits + {n})
    else
      var a := if q[0] in s.status then s.status[q[0]].addr else 0;
      s.(queues := s.queues[n := q[1..]], status := s.status[q[0] := Woken(a)])
  }

  function NotifyMany(s: State, n: nat, k: nat): State
    decreases k
  {
    if k == 0 then s else NotifyMany(NotifyOne(s, n), n, k - 1)
  }

  function WakeStep(s: State, a: nat, val: int): State {
    if a !in s.table then s
    else
      var e, k := s.table[a], ToWake(s, a, val);
      NotifyMany(s.(table := SetWaiters(s.table, a, e.waiters - k), wakes := s.wakes + k), e.notify, k)
  }

  /** `release_waiter`: decrement whatever entry the address has now. */
  function ReleaseWaiter(table: map<nat, Entry>, a: nat): map<nat, Entry> {
    if a in table then SetWaiters(table, a, Max(table[a].waiters - 1, 0)) else table
  }

  function ReleaseStep(s: State, t: Tid): State
    requires t in s.status
  {
    s.(table := ReleaseWaiter(s.table, s.status[t].addr), status := s.status - {t})
  }

  function Without(q: seq<Tid>, t: Tid): seq<Tid> {
    if q == [] then [] else if q[0] == t then q[1..] else [q[0]] + Without(q[1..], t)
  }

  function TimeoutStep(s: State, t: Tid): State
    requires t in s.status && s.status[t].Parked?
  {
    var n := s.status[t].notify;
    s.(table := ReleaseWaiter(s.table, s.status[t].addr), status := s.status - {t},
       queues := s.queues[n := Without(QueueOf(s, n), t)], timeouts := s.timeouts + 1)
  }

  predicate Enabled(s: State, step: Step) {
    match step
    case Wait(t, _) => t !in s.status
    case Wake(_, _) => true
    case Release(t) => t in s.status && s.status[t].Woken?
    case Timeout(t) => t in s.status && s.status[t].Parked?
  }

  function Next(s: State, step: Step): State
    requires Enabled(s, step)
  {
    match step
    case Wait(t, a) => WaitStep(s, t, a)
    case Wake(a, val) => WakeStep(s, a, val)
    case Release(t) => ReleaseStep(s, t)
    case Timeout(t) => TimeoutStep(s, t)
  }

  // ----- the invariant -----

  /** A queue holds exactly the threads parked on its notifier, once each. */
  ghost predicate QueuesOk(s: State) {
    && (forall n :: n in s.queues ==> n < s.nextNotify && Distinct(s.queues[n]))
    && (forall n, t :: n in s.queues && t in s.queues[n] ==>
          t in s.status && s.status[t].Parked? && s.status[t].notify == n)
    && (forall t :: t in s.status && s.status[t].Parked? ==>
          s.status[t].notify in s.queues && t in s.queues[s.status[t].notify])
  }

  /** An entry counts at least one waiter and no more than are parked on its notifier, all at its address. */
  ghost predicate EntryOk(s: State, a: nat)
    requires a in s.table
  {
    var e := s.table[a];
    && e.notify in s.queues && 1 <= e.waiters <= |s.queues[e.notify]|
    && forall t :: t in s.queues[e.notify] && t in s.status && s.status[t].Parked? ==> s.status[t].addr == a
  }

  ghost function ParkedIn(status: map<Tid, Status>): set<Tid> {
    set t | t in status && status[t].Parked?
  }

  ghost function ParkedSet(s: State): set<Tid> {
    ParkedIn(s.status)
  }

  ghost predicate Inv(s: State) {
    && s.permits == {}
    && QueuesOk(s)
    && EntriesOk(s)
    && s.waits == s.wakes + s.timeouts + |ParkedSet(s)|
  }

  ghost predicate EntriesOk(s: State) {
    forall a :: a in s.table ==> EntryOk(s, a)
  }

  /** Two addresses never share a notifier. */
  lemma DistinctNotifiers(s: State, b: nat)
    requires QueuesOk(s) && EntriesOk(s) && b in s.table
    ensures s.table[b].notify < s.nextNotify
    ensures forall a :: a in s.table && a != b ==> s.table[a].notify != s.table[b].notify
  {
    assert EntryOk(s, b);
    forall a | a in s.table && s.table[a].notify == s.table[b].notify ensures a == b {
      assert EntryOk(s, a);
      var t := s.queues[s.table[b].notify][0];
      assert t in s.queues[s.table[b].notify];
    }
  }

  // ----- wait -----

  lemma WaitQueues(s: State, t: Tid, a: nat)
    requires Inv(s) && t !in s.status
    ensures QueuesOk(WaitStep(s, t, a))
  {
    var s', e := WaitStep(s, t, a), EntryAt(s, a);
    if a in s.table { assert EntryOk(s, a); }
    var q := QueueOf(s, e.notify);
    assert forall u :: u in q + [t] <==> u in q || u == t;
    assert t !in q;
    assert Distinct(q + [t]);
  }

  lemma WaitEntries(s: State, t: Tid, a: nat)
    requires Inv(s) && t !in s.status
    ensures EntriesOk(WaitStep(s, t, a))
  {
    var s' := WaitStep(s, t, a);
    forall b | b in s'.table ensures EntryOk(s', b) {
      if b != a {
        assert EntryOk(s, b);
        DistinctNotifiers(s, b);
        assert s'.queues[s'.table[b].notify] == s.queues[s.table[b].notify];
      } else if a in s.table {
        assert EntryOk(s, a);
      }
    }
  }

  lemma WaitKeeps(s: State, t: Tid, a: nat)
    requires Inv(s) && t !in s.status
    ensures Inv(WaitStep(s, t, a))
  {
    hide QueuesOk, EntriesOk;
    WaitQueues(s, t, a);
    WaitEntries(s, t, a);
    assert ParkedSet(WaitStep(s, t, a)) == ParkedSet(s) + {t};
  }

  // ----- wake -----

  ghost function WakeThreads(status: map<Tid, Status>, ts: seq<Tid>): map<Tid, Status> {
    map t | t in status :: if t in ts then Woken(status[t].addr) else status[t]
  }

  /** Notifications that find enough waiters take them off the front of the queue; no permit is left. */
  lemma {:induction false} NotifyManySpec(s: State, n: nat, k: nat)
    requires n in s.queues && k <= |s.queues[n]| && Distinct(s.queues[n])
    requires forall t :: t in s.queues[n] ==> t in s.status
    ensures var q := s.queues[n];
            NotifyMany(s, n, k) == s.(queues := s.queues[n := q[k..]], status := WakeThreads(s.status, q[..k]))
    decreases k
  {
    var q := s.queues[n];
    if k == 0 {
      assert s.queues[n := q[0..]] == s.queues;
      assert WakeThreads(s.status, q[..0]) == s.status;
    } else {
      var s1 := NotifyOne(s, n);
      assert s1.queues[n] == q[1..];
      NotifyManySpec(s1, n, k - 1);
      assert q[1..][k - 1..] == q[k..];
      assert s1.queues[n := q[k..]] == s.queues[n := q[k..]];
      assert q[..k] == [q[0]] + q[1..][..k - 1];
      assert WakeThreads(s1.status, q[1..][..k - 1]) == WakeThreads(s.status, q[..k]);
    }
  }

  /** What a wake does when the address has an entry. */
  lemma WakeShape(s: State, a: nat, val: int)
    requires Inv(s) && a in s.table
    ensures var e, k := s.table[a], ToWake(s, a, val);
            var q := s.queues[e.notify];
            && k <= |q|
            && WakeStep(s, a, val) ==
               s.(table := SetWaiters(s.table, a, e.waiters - k), wakes := s.wakes + k,
                  queues := s.queues[e.notify := q[k..]], status := WakeThreads(s.status, q[..k]))
  {
    assert EntryOk(s, a);
    var e, k := s.table[a], ToWake(s, a, val);
    var s0 := s.(table := SetWaiters(s.table, a, e.waiters - k), wakes := s.wakes + k);
    NotifyManySpec(s0, e.notify, k);
  }

  ghost function Elems(q: seq<Tid>): set<Tid> {
    set t | t in q
  }

  lemma {:induction false} SetOfDistinct(q: seq<Tid>)
    requires Distinct(q)
    ensures |Elems(q)| == |q|
  {
    if q != [] {
      SetOfDistinct(q[1..]);
      assert Elems(q) == {q[0]} + Elems(q[1..]);
    }
  }

  lemma FrontOfQueue(s: State, a: nat, k: nat)
    requires Inv(s) && a in s.table && k <= |s.queues[s.table[a].notify]|
    ensures var front := Elems(s.queues[s.table[a].notify][..k]);
            && front <= ParkedSet(s) && |front| == k
            && forall t :: t in front ==> s.status[t].addr == a
  {
    assert EntryOk(s, a);
    var q := s.queues[s.table[a].notify];
    SetOfDistinct(q[..k]);
    forall t | t in q[..k] ensures t in q { }
  }

  /** `r` distinct threads parked at `a` went from parked to woken; no other thread changed. */
  ghost predicate Moved(before: map<Tid, Status>, after: map<Tid, Status>, a: nat, r: nat) {
    var moved := ParkedIn(before) - ParkedIn(after);
    && |moved| == r && ParkedIn(after) <= ParkedIn(before) && after.Keys == before.Keys
    && (forall t :: t in moved ==> before[t].addr == a && after[t] == Woken(a))
    && (forall t :: t in before && t !in moved ==> after[t] == before[t])
  }

  lemma WakeThreadsMoves(status: map<Tid, Status>, ts: seq<Tid>, a: nat)
    requires Elems(ts) <= ParkedIn(status) && |Elems(ts)| == |ts|
    requires forall t :: t in Elems(ts) ==> status[t].addr == a
    ensures Moved(status, WakeThreads(status, ts), a, |ts|)
  {
    assert ParkedIn(status) - ParkedIn(WakeThreads(status, ts)) == Elems(ts);
  }

  /**
   WAKE(val) reporting `r` takes exactly `r` distinct threads, all parked at that address, from
   parked to woken, and touches no other thread; `r` is at most `max(val, 0)`.
   */
  lemma WakeMovesExactly(s: State, a: nat, val: int)
    requires Inv(s)
    ensures var s', r := WakeStep(s, a, val), ToWake(s, a, val);
            r <= Max(val, 0) && s'.wakes == s.wakes + r && Moved(s.status, s'.status, a, r)
  {
    var s' := WakeStep(s, a, val);
    if a in s.table {
      WakeShape(s, a, val);
      var q, k := s.queues[s.table[a].notify], ToWake(s, a, val);
      FrontOfQueue(s, a, k);
      WakeThreadsMoves(s.status, q[..k], a);
    } else {
      assert ParkedSet(s) - ParkedSet(s') == {};
    }
  }

  /** A wake that reports fewer than it was asked for leaves no entry behind. */
  lemma WakeShort(s: State, a: nat, val: int)
    requires Inv(s) && ToWake(s, a, val) < Max(val, 0)
    ensures a !in WakeStep(s, a, val).table
  {
    if a in s.table { WakeShape(s, a, val); }
  }

  ghost function ParkedAt(s: State, a: nat): set<Tid> {
    set t | t in s.status && s.status[t].Parked? && s.status[t].addr == a
  }

  /** Where counters are exact, a wake reports as many as are parked at the address, up to `val`. */
  lemma WakeCounts(s: State, a: nat, val: int)
    requires Inv(s) && Exact(s)
    ensures ToWake(s, a, val) == Min(Max(val, 0), |ParkedAt(s, a)|)
    ensures ToWake(s, a, val) < Max(val, 0) ==> ParkedAt(WakeStep(s, a, val), a) == {}
  {
    if a in s.table {
      assert EntryOk(s, a);
      var q := s.queues[s.table[a].notify];
      assert ParkedAt(s, a) == Elems(q);
      SetOfDistinct(q);
      WakeMovesExactly(s, a, val);
      if ToWake(s, a, val) < Max(val, 0) { AllMoved(s, a, val); }
    } else {
      assert ParkedAt(s, a) == {};
    }
  }

  lemma AllMoved(s: State, a: nat, val: int)
    requires Inv(s) && Exact(s) && a in s.table && ToWake(s, a, val) < Max(val, 0)
    ensures ParkedAt(WakeStep(s, a, val), a) == {}
  {
    WakeShape(s, a, val);
    assert EntryOk(s, a);
    var q := s.queues[s.table[a].notify];
    assert q[..|q|] == q;
    forall t | t in ParkedAt(s, a) ensures t in q { }
  }

  lemma WakeQueues(s: State, a: nat, val: int)
    requires Inv(s) && a in s.table
    ensures QueuesOk(WakeStep(s, a, val))
  {
    WakeShape(s, a, val);
    assert EntryOk(s, a);
    var q, k := s.queues[s.table[a].notify], ToWake(s, a, val);
    assert q == q[..k] + q[k..];
    forall i, j | 0 <= i < k <= j < |q| ensures q[i] != q[j] { }
    assert forall t :: t in q <==> t in q[..k] || t in q[k..];
    assert forall t :: t in q[..k] ==> t !in q[k..];
  }

  lemma WakeEntries(s: State, a: nat, val: int)
    requires Inv(s) && a in s.table
    ensures EntriesOk(WakeStep(s, a, val))
  {
    WakeShape(s, a, val);
    assert EntryOk(s, a);
    var s' := WakeStep(s, a, val);
    forall b | b in s'.table ensures EntryOk(s', b) {
      assert EntryOk(s, b);
      if b != a {
        DistinctNotifiers(s, a);
        assert s'.queues[s'.table[b].notify] == s.queues[s.table[b].notify];
      }
    }
  }

  lemma WakeKeeps(s: State, a: nat, val: int)
    requires Inv(s)
    ensures Inv(WakeStep(s, a, val))
  {
    if a in s.table {
      WakeQueues(s, a, val);
      WakeEntries(s, a, val);
      WakeShape(s, a, val);
      WakeMovesExactly(s, a, val);
      var s' := WakeStep(s, a, val);
      assert |ParkedSet(s)| == |ParkedSet(s')| + |ParkedSet(s) - ParkedSet(s')| by {
        assert ParkedSet(s) == ParkedSet(s') + (ParkedSet(s) - ParkedSet(s'));
      }
    }
  }

  // ----- release and timeout -----

  lemma ReleaseKeeps(s: State, t: Tid)
    requires Inv(s) && t in s.status && s.status[t].Woken?
    ensures Inv(ReleaseStep(s, t))
  {
    var s' := ReleaseStep(s, t);
    assert ParkedSet(s') == ParkedSet(s);
    forall b | b in s'.table ensures EntryOk(s', b) { assert EntryOk(s, b); }
  }

  lemma {:induction false} WithoutSpec(q: seq<Tid>, t: Tid)
    requires Distinct(q) && t in q
    ensures |Without(q, t)| == |q| - 1 && Distinct(Without(q, t))
    ensures forall u :: u in Without(q, t) <==> u in q && u != t
  {
    assert q == [q[0]] + q[1..];
    if q[0] != t {
      WithoutSpec(q[1..], t);
      var w := Without(q[1..], t);
      assert Without(q, t) == [q[0]] + w;
      assert q[0] !in w;
    }
  }

  lemma TimeoutQueues(s: State, t: Tid)
    requires Inv(s) && t in s.status && s.status[t].Parked?
    ensures QueuesOk(TimeoutStep(s, t))
  {
    WithoutSpec(s.queues[s.status[t].notify], t);
  }

  lemma TimeoutEntries(s: State, t: Tid)
    requires Inv(s) && t in s.status && s.status[t].Parked?
    ensures EntriesOk(TimeoutStep(s, t))
  {
    var s', n := TimeoutStep(s, t), s.status[t].notify;
    WithoutSpec(s.queues[n], t);
    forall b | b in s'.table ensures EntryOk(s', b) {
      assert EntryOk(s, b);
      if s.table[b].notify == n { assert s.status[t].addr == b; }
    }
  }

  lemma TimeoutKeeps(s: State, t: Tid)
    requires Inv(s) && t in s.status && s.status[t].Parked?
    ensures Inv(TimeoutStep(s, t))
  {
    TimeoutQueues(s, t);
    TimeoutEntries(s, t);
    assert ParkedSet(TimeoutStep(s, t)) == ParkedSet(s) - {t};
  }

  // ----- runs -----

  ghost predicate Run(ss: seq<State>, steps: seq<Step>) {
    && |ss| == |steps| + 1
    && ss[0] == Init
    && forall i :: 0 <= i < |steps| ==> Enabled(ss[i], steps[i]) && ss[i + 1] == Next(ss[i], steps[i])
  }

  lemma NextKeeps(s: State, step: Step)
    requires Inv(s) && Enabled(s, step)
    ensures Inv(Next(s, step))
  {
    match step
    case Wait(t, a) => WaitKeeps(s, t, a);
    case Wake(a, val) => WakeKeeps(s, a, val);
    case Release(t) => ReleaseKeeps(s, t);
    case Timeout(t) => TimeoutKeeps(s, t);
  }

  /**
   In every run: each entry counts at least 1 and at most the threads parked on its notifier, so no
   entry outlives its parked threads; and wakes reported, timeouts and threads still parked add up
   to the waits registered.
   */
  lemma {:induction false} RunSafe(ss: seq<State>, steps: seq<Step>, i: nat)
    requires Run(ss, steps) && i < |ss|
    ensures Inv(ss[i])
    ensures ss[i].wakes <= ss[i].waits
    ensures forall a :: a in ss[i].table ==>
              exists t :: t in ss[i].status && ss[i].status[t] == Parked(a, ss[i].table[a].notify)
  {
    if i > 0 {
      RunSafe(ss, steps, i - 1);
      NextKeeps(ss[i - 1], steps[i - 1]);
    }
    var s := ss[i];
    forall a | a in s.table ensures exists t :: t in s.status && s.status[t] == Parked(a, s.table[a].notify) {
      assert EntryOk(s, a);
      var t := s.queues[s.table[a].notify][0];
      assert t in s.queues[s.table[a].notify];
    }
  }

  // ----- when the counter is exact -----

  /** Every counter equals the number parked, and every parked thread is reachable by a wake. */
  ghost predicate Exact(s: State) {
    && (forall a :: a in s.table ==>
          s.table[a].notify in s.queues && s.table[a].waiters == |s.queues[s.table[a].notify]|)
    && (forall t :: t in s.status && s.status[t].Parked? ==>
          s.status[t].addr in s.table && s.table[s.status[t].addr].notify == s.status[t].notify)
  }

  /**
   A woken waiter was already counted out by the wake. Its own release counts it out again, and
   that is the only step that ends exactness: it does so exactly when the address still has an entry.
   */
  lemma ExactIff(s: State, step: Step)
    requires Inv(s) && Exact(s) && Enabled(s, step)
    ensures Exact(Next(s, step)) <==> !(step.Release? && s.status[step.t].addr in s.table)
  {
    var s' := Next(s, step);
    match step
    case Wait(t, a) => ExactWait(s, t, a);
    case Wake(a, val) => ExactWake(s, a, val);
    case Release(t) =>
      var a := s.status[t].addr;
      if a in s.table {
        assert EntryOk(s, a);
        var u := s.queues[s.table[a].notify][0];
        assert u in s.queues[s.table[a].notify];
        assert s'.status[u] == Parked(a, s.table[a].notify);
      }
    case Timeout(t) => ExactTimeout(s, t);
  }

  lemma ExactWait(s: State, t: Tid, a: nat)
    requires Inv(s) && Exact(s) && t !in s.status
    ensures Exact(WaitStep(s, t, a))
  {
    var s' := WaitStep(s, t, a);
    forall b | b in s'.table
      ensures s'.table[b].notify in s'.queues && s'.table[b].waiters == |s'.queues[s'.table[b].notify]|
    {
      if b != a { DistinctNotifiers(s, b); }
      if a !in s.table { assert s.nextNotify !in s.queues; }
    }
  }

  lemma ExactWake(s: State, a: nat, val: int)
    requires Inv(s) && Exact(s)
    ensures Exact(WakeStep(s, a, val))
  {
    if a in s.table {
      WakeShape(s, a, val);
      DistinctNotifiers(s, a);
      var s', q, k := WakeStep(s, a, val), s.queues[s.table[a].notify], ToWake(s, a, val);
      assert q == q[..k] + q[k..];
      forall t | t in s'.status && s'.status[t].Parked?
        ensures s'.status[t].addr in s'.table && s'.table[s'.status[t].addr].notify == s'.status[t].notify
      {
        assert s'.status[t] == s.status[t] && t !in q[..k];
        if s.status[t].addr == a { assert t in q; assert t in q[k..]; }
      }
    }
  }

  lemma ExactTimeout(s: State, t: Tid)
    requires Inv(s) && Exact(s) && t in s.status && s.status[t].Parked?
    ensures Exact(TimeoutStep(s, t))
  {
    var s', n, a := TimeoutStep(s, t), s.status[t].notify, s.status[t].addr;
    WithoutSpec(s.queues[n], t);
    DistinctNotifiers(s, a);
    forall u | u in s'.status && s'.status[u].Parked?
      ensures s'.status[u].addr in s'.table && s'.table[s'.status[u].addr].notify == s'.status[u].notify
    {
      if s.status[u].addr == a { assert u in s.queues[n] && u in s'.queues[n]; }
    }
  }

  ghost function TwoParked(a: nat): State {
    State(map[a := Entry(0, 2)], map[0 := [1, 2]], {}, 1, map[1 := Parked(a, 0), 2 := Parked(a, 0)], 2, 0, 0)
  }

  ghost function OneWoken(a: nat): State {
    State(map[a := Entry(0, 1)], map[0 := [2]], {}, 1, map[1 := Woken(a), 2 := Parked(a, 0)], 2, 1, 0)
  }

  lemma TwoWaits(a: nat)
    ensures WaitStep(WaitStep(Init, 1, a), 2, a) == TwoParked(a)
  {
    var s1 := WaitStep(Init, 1, a);
    assert QueueOf(Init, 0) + [1] == [1];
    assert QueueOf(s1, 0) + [2] == [1, 2];
    assert WaitStep(s1, 2, a).status == TwoParked(a).status;
  }

  lemma OneWake(a: nat)
    ensures WakeStep(TwoParked(a), a, 1) == OneWoken(a)
  {
    var s := TwoParked(a);
    var s0 := s.(table := map[a := Entry(0, 1)], wakes := 1);
    assert SetWaiters(s.table, a, 1) == s0.table;
    assert NotifyMany(s0, 0, 1) == NotifyOne(s0, 0);
    assert NotifyOne(s0, 0).status == OneWoken(a).status;
  }

  /** Exactness fails for a real run: a waiter can stay parked where no wake can find it. */
  lemma WaiterCanBeLost(a: nat, val: int)
    ensures var steps := [Wait(1, a), Wait(2, a), Wake(a, 1), Release(1)];
            exists ss: seq<State> ::
              && Run(ss, steps) && ss[4].status == map[2 := Parked(a, 0)] && Unreachable(ss[4], 2)
              && a !in ss[4].table && ToWake(ss[4], a, val) == 0
  {
    var steps := [Wait(1, a), Wait(2, a), Wake(a, 1), Release(1)];
    TwoWaits(a);
    OneWake(a);
    var s4 := ReleaseStep(OneWoken(a), 1);
    assert s4.status == map[2 := Parked(a, 0)];
    assert Run([Init, WaitStep(Init, 1, a), TwoParked(a), OneWoken(a), s4], steps);
  }

  /** A parked thread whose notifier no entry names. */
  ghost predicate Unreachable(s: State, t: Tid) {
    t in s.status && s.status[t].Parked? && forall a :: a in s.table ==> s.table[a].notify != s.status[t].notify
  }

  lemma StaysUnreachable(s: State, step: Step, t: Tid)
    requires Inv(s) && Enabled(s, step) && Unreachable(s, t) && step != Timeout(t)
    ensures var s' := Next(s, step);
            Unreachable(s', t) && s'.status[t] == s.status[t]
  {
    var s', n := Next(s, step), s.status[t].notify;
    match step
    case Wait(u, a) =>
      assert n < s.nextNotify;
    case Wake(a, val) =>
      if a in s.table {
        WakeShape(s, a, val);
        var q := s.queues[s.table[a].notify];
        assert EntryOk(s, a) && t !in q;
        assert s'.status[t] == s.status[t];
      }
    case Release(u) =>
    case Timeout(u) =>
  }

  /** A thread once unreachable stays parked through every continuation that does not time it out. */
  lemma {:induction false} LostForever(ss: seq<State>, steps: seq<Step>, i: nat, j: nat, t: Tid)
    requires Run(ss, steps) && i <= j < |ss| && Unreachable(ss[i], t)
    requires forall k :: i <= k < j ==> steps[k] != Timeout(t)
    ensures Unreachable(ss[j], t) && ss[j].status[t] == ss[i].status[t]
  {
    if i < j {
      LostForever(ss, steps, i, j - 1, t);
      RunSafe(ss, steps, j - 1);
      StaysUnreachable(ss[j - 1], steps[j - 1], t);
    }
  }

  /** Does this step remove the entry at `a`? */
  ghost predicate Prunes(s: State, step: Step, a: nat) {
    && a in s.table
    && match step
       case Wait(_, _) => false
       case Wake(b, val) => b == a && val >= s.table[a].waiters
       case Release(u) => u in s.status && s.status[u].addr == a && s.table[a].waiters == 1
       case Timeout(u) => u in s.status && s.status[u].addr == a && s.table[a].waiters == 1
  }

  ghost predicate IsParked(s: State, t: Tid) {
    t in s.status && s.status[t].Parked?
  }

  /** The entry that names a parked thread's notifier is the one at the thread's address. */
  lemma ReachableAt(s: State, t: Tid)
    requires Inv(s) && IsParked(s, t)
    ensures var Parked(a, n) := s.status[t];
            !Unreachable(s, t) <==> a in s.table && s.table[a].notify == n
  {
    if b :| b in s.table && s.table[b].notify == s.status[t].notify {
      assert EntryOk(s, b);
    }
  }

  lemma PrunedIff(s: State, step: Step, a: nat)
    requires Inv(s) && Enabled(s, step) && a in s.table
    ensures Prunes(s, step, a) <==> a !in Next(s, step).table
    ensures !Prunes(s, step, a) ==> Next(s, step).table[a].notify == s.table[a].notify
  {
    assert EntryOk(s, a);
    match step
    case Wake(b, val) => if b in s.table { WakeShape(s, b, val); }
    case _ =>
  }

  /** A thread that a wake could find, and that is still parked after a step, is lost by it iff its entry is removed. */
  lemma LosesIff(s: State, step: Step, t: Tid)
    requires Inv(s) && Enabled(s, step) && IsParked(s, t) && !Unreachable(s, t)
    requires t in Next(s, step).status && Next(s, step).status[t] == s.status[t]
    ensures Unreachable(Next(s, step), t) <==> Prunes(s, step, s.status[t].addr)
  {
    NextKeeps(s, step);
    ReachableAt(s, t);
    ReachableAt(Next(s, step), t);
    PrunedIff(s, step, s.status[t].addr);
  }

  lemma NotTimedOut(s: State, step: Step, t: Tid)
    requires Enabled(s, step) && t in Next(s, step).status
    ensures step != Timeout(t)
  {
  }

  /** Thread `t` is parked, at one address and on one notifier, from state `i` to state `j`. */
  ghost predicate ParkedThrough(ss: seq<State>, i: nat, j: nat, t: Tid)
    requires i <= j < |ss|
  {
    IsParked(ss[i], t) && forall k :: i <= k <= j ==> t in ss[k].status && ss[k].status[t] == ss[i].status[t]
  }

  ghost predicate PrunedAt(ss: seq<State>, steps: seq<Step>, k: nat, a: nat)
    requires k < |ss| && k < |steps|
  {
    Prunes(ss[k], steps[k], a)
  }

  /**
   Over a whole run: a parked thread that could be found is lost iff some step since then removed the
   entry at its address.
   */
  lemma {:induction false} LostIff(ss: seq<State>, steps: seq<Step>, i: nat, j: nat, t: Tid)
    requires Run(ss, steps) && i <= j < |ss| && ParkedThrough(ss, i, j, t) && !Unreachable(ss[i], t)
    ensures Unreachable(ss[j], t) <==> exists k :: i <= k < j && PrunedAt(ss, steps, k, ss[i].status[t].addr)
  {
    hide Inv, Next, Unreachable, Prunes, Enabled;
    if i < j {
      var m, a := j - 1, ss[i].status[t].addr;
      LostIff(ss, steps, i, m, t);
      RunSafe(ss, steps, m);
      assert ss[j] == Next(ss[m], steps[m]) && ss[m].status[t] == ss[i].status[t] && ss[j].status[t] == ss[i].status[t];
      if Unreachable(ss[m], t) {
        NotTimedOut(ss[m], steps[m], t);
        StaysUnreachable(ss[m], steps[m], t);
      } else {
        LosesIff(ss[m], steps[m], t);
        assert PrunedAt(ss, steps, m, a) <==> Unreachable(ss[j], t);
      }
    }
  }

  /** A thread that has just parked can be found. */
  lemma FoundAtFirst(s: State, t: Tid, a: nat)
    requires Inv(s) && t !in s.status
    ensures IsParked(WaitStep(s, t, a), t) && !Unreachable(WaitStep(s, t, a), t)
  {
    var s' := WaitStep(s, t, a);
    assert a in s'.table && s'.table[a].notify == s'.status[t].notify;
  }

  // ----- the table -----

  datatype TimeoutArg = NoTimeout | BadPointer | Timespec(sec: int, nsec: int)

  /** A 32-bit address other than the reserved one. */
  predicate GoodAddr(uaddr: int) {
    0 <= uaddr < 0xFFFF_FFFF
  }

  /** No timeout, or a normalized time that is not negative. */
  predicate GoodTimeout(timeout: TimeoutArg) {
    match timeout
    case NoTimeout => true
    case BadPointer => false
    case Timespec(sec, nsec) => sec >= 0 && 0 <= nsec <= 999_999_999
  }

  /** The checks before a wait parks: address, word, value, timeout, in that order. */
  function WaitError(uaddr: int, word: Option<int>, val: int, timeout: TimeoutArg): Option<int> {
    if uaddr < 0 || uaddr >= U32 || uaddr == INVALID_FUTEX_ADDR then Some(-EINVAL)
    else if word.None? then Some(-EFAULT)
    else if word.value != val then Some(-EAGAIN)
    else if timeout.BadPointer? then Some(-EFAULT)
    else if timeout.Timespec? && !(0 <= timeout.nsec < 1_000_000_000 && 0 <= timeout.sec) then Some(-EINVAL)
    else None
  }

  /** A wait parks iff address, value and timeout are good; a stale value is told apart from everything else. */
  lemma WaitErrorIff(uaddr: int, word: Option<int>, val: int, timeout: TimeoutArg)
    ensures var r := WaitError(uaddr, word, val, timeout);
            && (r.None? <==> GoodAddr(uaddr) && word == Some(val) && GoodTimeout(timeout))
            && (r == Some(-EAGAIN) <==> GoodAddr(uaddr) && word.Some? && word.value != val)
            && (r == Some(-EFAULT) <==> GoodAddr(uaddr) && (word.None? || (word == Some(val) && timeout.BadPointer?)))
            && (!GoodAddr(uaddr) ==> r == Some(-EINVAL))
            && (r.Some? ==> r.value in {-EINVAL, -EFAULT, -EAGAIN})
  {
  }

  /** The futex table together with the notifiers and threads its methods act on. */
  class FutexTable {
    var byAddr: map<nat, Entry>
    var queues: map<nat, seq<Tid>>
    var permits: set<nat>
    var nextNotify: nat
    var status: map<Tid, Status>
    ghost var waits: nat
    ghost var wakes: nat
    ghost var timeouts: nat

    ghost function View(): State
      reads this
    {
      State(byAddr, queues, permits, nextNotify, status, waits, wakes, timeouts)
    }

    constructor ()
      ensures View() == Init
    {
      byAddr, queues, permits, nextNotify, status := map[], map[], {}, 0, map[];
      waits, wakes, timeouts := 0, 0, 0;
    }

    /** `futex_wait` up to the await: an error, or `None` and the thread is parked. */
    method FutexWait(t: Tid, uaddr: int, word: Option<int>, val: int, timeout: TimeoutArg) returns (r: Option<int>)
      requires t !in status
      modifies this
      ensures r.Some? ==> r.value in {-EINVAL, -EFAULT, -EAGAIN}
      ensures r.None? <==> GoodAddr(uaddr) && word == Some(val) && GoodTimeout(timeout)
      ensures r == Some(-EAGAIN) <==> GoodAddr(uaddr) && word.Some? && word.value != val
      ensures !GoodAddr(uaddr) ==> r == Some(-EINVAL)
      ensures r == Some(-EFAULT) <==> GoodAddr(uaddr) && (word.None? || (word == Some(val) && timeout.BadPointer?))
      ensures r.Some? ==> View() == old(View())
      ensures r.None? ==> View() == Next(old(View()), Wait(t, uaddr))
    {
      hide WaitError, GoodTimeout;
      WaitErrorIff(uaddr, word, val, timeout);
      r := WaitError(uaddr, word, val, timeout);
      if r.Some? {
        return;
      }
      if uaddr !in byAddr {
        byAddr := byAddr[uaddr := Entry(nextNotify, 0)];
        nextNotify := nextNotify + 1;
      }
      byAddr := byAddr[uaddr := byAddr[uaddr].(waiters := byAddr[uaddr].waiters + 1)];
      var n := byAddr[uaddr].notify;
      if n in permits {
        permits, status := permits - {n}, status[t := Woken(uaddr)];
      } else {
        queues := queues[n := (if n in queues then queues[n] else []) + [t]];
        status := status[t := Parked(uaddr, n)];
      }
      waits := waits + 1;
    }

    /** One `notify_one`. */
    method Notify(n: nat)
      modifies this`queues, this`permits, this`status
      ensures View() == NotifyOne(old(View()), n)
    {
      if n !in queues || queues[n] == [] {
        permits := permits + {n};
      } else {
        var t := queues[n][0];
        status := status[t := Woken(if t in status then status[t].addr else 0)];
        queues := queues[n := queues[n][1..]];
      }
    }

    /** `futex_wake`: lower the counter under the lock, then notify that many times. */
    method FutexWake(uaddr: nat, val: int) returns (r: int)
      modifies this
      ensures View() == Next(old(View()), Wake(uaddr, val))
      ensures r == ToWake(old(View()), uaddr, val)
    {
      if uaddr !in byAddr {
        return 0;
      }
      var e := byAddr[uaddr];
      var toWake: nat := Min(Max(val, 0), e.waiters);
      byAddr := SetWaiters(byAddr, uaddr, e.waiters - toWake);
      wakes := wakes + toWake;
      ghost var s0 := View();
      for i := 0 to toWake
        invariant NotifyMany(View(), e.notify, toWake - i) == NotifyMany(s0, e.notify, toWake)
        invariant wakes == s0.wakes
      {
        Notify(e.notify);
      }
      return toWake;
    }

    /** `release_waiter`. */
    method ReleaseEntry(uaddr: nat)
      modifies this`byAddr
      ensures byAddr == ReleaseWaiter(old(byAddr), uaddr)
    {
      if uaddr in byAddr {
        var w := if byAddr[uaddr].waiters == 0 then 0 else byAddr[uaddr].waiters - 1;
        byAddr := byAddr[uaddr := byAddr[uaddr].(waiters := w)];
        if w == 0 {
          byAddr := byAddr - {uaddr};
        }
      }
    }

    /** `futex_wait` after its notification arrived. */
    method Resume(t: Tid) returns (r: int)
      requires t in status && status[t].Woken?
      modifies this
      ensures View() == Next(old(View()), Release(t)) && r == 0
    {
      ReleaseEntry(status[t].addr);
      status := status - {t};
      return 0;
    }

    /** `futex_wait` when its deadline passes first. */
    method Expire(t: Tid) returns (r: int)
      requires t in status && status[t].Parked?
      modifies this
      ensures View() == Next(old(View()), Timeout(t)) && r == -ETIMEDOUT
    {
      var Parked(a, n) := status[t];
      queues := queues[n := Without(if n in queues then queues[n] else [], t)];
      ReleaseEntry(a);
      status := status - {t};
      timeouts := timeouts + 1;
      return -ETIMEDOUT;
    }
  }
}
