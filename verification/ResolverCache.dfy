/** Filtering, delivery to the guest, and the bounded TTL cache (src/sys/resolver.rs). */
module ResolverCache {
  import opened Base
  import opened Bytes
  import opened Resolver

  const MAX_CACHE_ENTRIES: nat := 1024
  const EAI_AGAIN := -3
  const EAI_FAIL := -4

  predicate Passes(ip: IpAddr, family: int, denylist: seq<IpAddr>) {
    && (family == 2 ==> ip.V4?) && (family == 10 ==> ip.V6?)
    && ip !in denylist
  }

  /** The addresses the guest may see, in the resolver's order. */
  function FilterAddrs(addrs: seq<IpAddr>, family: int, denylist: seq<IpAddr>): (r: seq<IpAddr>)
    ensures forall ip :: ip in r <==> ip in addrs && Passes(ip, family, denylist)
    ensures |r| <= |addrs|
  {
    if addrs == [] then []
    else
      assert addrs == [addrs[0]] + addrs[1..];
      var rest := FilterAddrs(addrs[1..], family, denylist);
      if Passes(addrs[0], family, denylist) then [addrs[0]] + rest else rest
  }

  /** Filtering a concatenation: order and multiplicity are kept. */
  lemma {:induction false} FilterConcat(a: seq<IpAddr>, b: seq<IpAddr>, family: int, denylist: seq<IpAddr>)
    ensures FilterAddrs(a + b, family, denylist) == FilterAddrs(a, family, denylist) + FilterAddrs(b, family, denylist)
  {
    if a == [] {
      assert a + b == b;
    } else {
      assert (a + b)[0] == a[0] && (a + b)[1..] == a[1..] + b;
      FilterConcat(a[1..], b, family, denylist);
    }
  }

  /** One address passes exactly when it has the family asked for, if one is asked for, and is not denied. */
  lemma FilterOne(ip: IpAddr, family: int, denylist: seq<IpAddr>)
    ensures FilterAddrs([ip], family, denylist) ==
            if (family in {2, 10} ==> Family(ip) == family) && ip !in denylist then [ip] else []
  {
    assert [ip][1..] == [];
  }

  // ----- delivery -----

  /** What a call leaves the guest with: its return value and its memory. */
  datatype Response = Response(code: int, memory: seq<byte>)

  /** The bytes the guest reads its list from. */
  function Payload(memory: seq<byte>, size: nat): seq<byte>
    requires RESOLVER_SCRATCH_BASE + size <= |memory|
  {
    memory[RESOLVER_SCRATCH_BASE..RESOLVER_SCRATCH_BASE + size]
  }

  /** The response for an answer of the backend: the list goes to the scratch area, then its head to the result slot. */
  ghost function Respond(memory: seq<byte>, addrs: seq<IpAddr>, h: Hints, family: int, denylist: seq<IpAddr>,
                         resPtr: nat): Response {
    var filtered := FilterAddrs(addrs, family, denylist);
    var size := NodeOff(filtered, |filtered|);
    if filtered == [] then Response(EAI_NONAME, memory)
    else if size > MAX_RESOLVER_SCRATCH_BYTES then Response(EAI_MEMORY, memory)
    else if RESOLVER_SCRATCH_BASE + size > |memory| then Response(EAI_SYSTEM, memory)
    else
      var written := Splice(memory, RESOLVER_SCRATCH_BASE, Image(filtered, h));
      if resPtr + 4 > |memory| then Response(EAI_SYSTEM, written)
      else Response(|filtered|, Splice(written, resPtr, LE(0, 4)))
  }

  /** Every byte of the list that the result slot covers is zero already. */
  ghost predicate SlotHarmless(bytes: seq<byte>, resPtr: nat) {
    forall k :: 0 <= k < |bytes| && resPtr <= RESOLVER_SCRATCH_BASE + k < resPtr + 4 ==> bytes[k] == 0
  }

  /**
   Filter, marshal, copy to the scratch area, write the head offset. The list in guest memory is the
   marshalled one exactly when the result slot covers only zero bytes of it; the guest, walking from
   the head it was given, then reads exactly the filtered addresses.
   */
  method MarshalAndReturn(memory: seq<byte>, addrs: seq<IpAddr>, h: Hints, family: int, denylist: seq<IpAddr>,
                          resPtr: nat)
    returns (r: int, memory': seq<byte>)
    ensures Response(r, memory') == Respond(memory, addrs, h, family, denylist, resPtr)
    ensures |memory'| == |memory|
    ensures r > 0 ==>
              var filtered := FilterAddrs(addrs, family, denylist);
              var size, list := NodeOff(filtered, |filtered|), Image(filtered, h);
              && r == |filtered| && RESOLVER_SCRATCH_BASE + size <= |memory| && resPtr + 4 <= |memory|
              && FromLE(memory'[resPtr..resPtr + 4]) == 0
              && (Payload(memory', size) == list <==> SlotHarmless(list, resPtr))
              && (SlotHarmless(list, resPtr) ==> Walk(Payload(memory', size), 0) == Some(NodesFrom(filtered, h, 0)))
              && OnlyWritten(memory, memory', size, resPtr)
  {
    memory' := memory;
    var filtered := FilterAddrs(addrs, family, denylist);
    if filtered == [] {
      return EAI_NONAME, memory';
    }
    var bytes, head := MarshalAddrinfo(filtered, h);
    if |bytes| > MAX_RESOLVER_SCRATCH_BYTES {
      return EAI_MEMORY, memory';
    }
    if RESOLVER_SCRATCH_BASE + |bytes| > |memory| {
      return EAI_SYSTEM, memory';
    }
    memory' := Splice(memory', RESOLVER_SCRATCH_BASE, bytes);
    if resPtr + 4 > |memory| {
      return EAI_SYSTEM, memory';
    }
    memory' := Splice(memory', resPtr, LE(head, 4));
    Delivered(memory, memory', bytes, filtered, h, resPtr);
    return |filtered|, memory';
  }

  /** Nothing but the list and the result slot changed. */
  ghost predicate OnlyWritten(memory: seq<byte>, memory': seq<byte>, size: nat, resPtr: nat) {
    |memory'| == |memory| &&
    forall a | 0 <= a < |memory| ::
      (RESOLVER_SCRATCH_BASE <= a < RESOLVER_SCRATCH_BASE + size) || (resPtr <= a < resPtr + 4) ||
          memory'[a] == memory[a]
  }

  /** A list, then four zero bytes over it. */
  lemma SlotOver(memory: seq<byte>, bytes: seq<byte>, resPtr: nat)
    requires RESOLVER_SCRATCH_BASE + |bytes| <= |memory| && resPtr + 4 <= |memory|
    ensures var memory' := Splice(Splice(memory, RESOLVER_SCRATCH_BASE, bytes), resPtr, LE(0, 4));
            && (Payload(memory', |bytes|) == bytes <==> SlotHarmless(bytes, resPtr))
            && OnlyWritten(memory, memory', |bytes|, resPtr)
  {
    var written := Splice(memory, RESOLVER_SCRATCH_BASE, bytes);
    var memory' := Splice(written, resPtr, LE(0, 4));
    var list := Payload(memory', |bytes|);
    forall a | 0 <= a < |memory|
      ensures memory'[a] == if resPtr <= a < resPtr + 4 then 0
                            else if RESOLVER_SCRATCH_BASE <= a < RESOLVER_SCRATCH_BASE + |bytes| then
                              bytes[a - RESOLVER_SCRATCH_BASE]
                            else memory[a]
    {
      FourZeros();
      SpliceAt(memory, RESOLVER_SCRATCH_BASE, bytes, a);
      SpliceAt(written, resPtr, LE(0, 4), a);
    }
    forall k | 0 <= k < |bytes|
      ensures list[k] == if resPtr <= RESOLVER_SCRATCH_BASE + k < resPtr + 4 then 0 else bytes[k]
    {
      var a := RESOLVER_SCRATCH_BASE + k;
      assert list[k] == memory'[a];
    }
  }

  lemma FourZeros()
    ensures LE(0, 4) == [0, 0, 0, 0]
  {
    assert LE(0, 1) == [0] && LE(0, 2) == [0, 0] && LE(0, 3) == [0, 0, 0];
  }

  lemma Delivered(memory: seq<byte>, memory': seq<byte>, bytes: seq<byte>, filtered: seq<IpAddr>, h: Hints, resPtr: nat)
    requires RESOLVER_SCRATCH_BASE + |bytes| <= |memory| && resPtr + 4 <= |memory|
    requires memory' == Splice(Splice(memory, RESOLVER_SCRATCH_BASE, bytes), resPtr, LE(0, 4))
    requires Marshalled(bytes, filtered, h) && filtered != [] && |bytes| <= U32
    ensures FromLE(memory'[resPtr..resPtr + 4]) == 0
    ensures Payload(memory', |bytes|) == bytes <==> SlotHarmless(bytes, resPtr)
    ensures SlotHarmless(bytes, resPtr) ==> Walk(Payload(memory', |bytes|), 0) == Some(NodesFrom(filtered, h, 0))
    ensures OnlyWritten(memory, memory', |bytes|, resPtr)
  {
    WordBack(0);
    SlotOver(memory, bytes, resPtr);
    RoundTrip(bytes, filtered, h);
  }

  function CountV4(addrs: seq<IpAddr>): nat {
    if addrs == [] then 0 else CountV4(addrs[1..]) + if addrs[0].V4? then 1 else 0
  }

  lemma {:induction false} CountSnoc(addrs: seq<IpAddr>, ip: IpAddr)
    ensures CountV4(addrs + [ip]) == CountV4(addrs) + if ip.V4? then 1 else 0
  {
    if addrs == [] {
      assert [] + [ip] == [ip] && [ip][1..] == [];
    } else {
      assert (addrs + [ip])[1..] == addrs[1..] + [ip];
      CountSnoc(addrs[1..], ip);
    }
  }

  /** A list takes 48 bytes per IPv4 and 60 per IPv6 address. */
  lemma {:induction false} ListSize(addrs: seq<IpAddr>, i: nat)
    requires i <= |addrs|
    ensures CountV4(addrs[..i]) <= i && NodeOff(addrs, i) == 60 * i - 12 * CountV4(addrs[..i])
  {
    if i == 0 {
      assert addrs[..0] == [];
    } else {
      ListSize(addrs, i - 1);
      assert addrs[..i] == addrs[..i - 1] + [addrs[i - 1]];
      CountSnoc(addrs[..i - 1], addrs[i - 1]);
    }
  }

  /**
   The codes: -2 for no address, -10 for a list over 4096 bytes, -11 for a list or a slot outside memory,
   else the number of addresses; and memory changes only if the list fits in it.
   */
  lemma RespondCode(memory: seq<byte>, addrs: seq<IpAddr>, h: Hints, family: int, denylist: seq<IpAddr>, resPtr: nat)
    ensures var f, r := FilterAddrs(addrs, family, denylist), Respond(memory, addrs, h, family, denylist, resPtr);
            var size := 60 * |f| - 12 * CountV4(f);
            && (r.code == -2 <==> f == [])
            && (r.code == -10 <==> size > 4096)
            && (r.code == -11 <==> 0 < size <= 4096 && (8192 + size > |memory| || resPtr + 4 > |memory|))
            && (r.code >= 0 ==> r.code == |f|)
            && (r.code in {-2, -10} || 8192 + size > |memory| ==> r.memory == memory)
  {
    var f := FilterAddrs(addrs, family, denylist);
    ListSize(f, |f|);
    assert f[..|f|] == f;
  }

  lemma {:induction false} FilterNothing(addrs: seq<IpAddr>)
    ensures FilterAddrs(addrs, 0, []) == addrs
  {
    if addrs != [] {
      FilterNothing(addrs[1..]);
      assert [addrs[0]] + addrs[1..] == addrs;
    }
  }

  /**
   A slot on the first node's `ai_next` cuts the list: whatever the addresses, the guest is told that
   there are all of them and finds one.
   */
  lemma SlotCutsList(memory: seq<byte>, addrs: seq<IpAddr>, h: Hints)
    requires |addrs| >= 2 && NodeOff(addrs, |addrs|) <= MAX_RESOLVER_SCRATCH_BYTES
    requires RESOLVER_SCRATCH_BASE + NodeOff(addrs, |addrs|) <= |memory|
    ensures var res := Respond(memory, addrs, h, 0, [], RESOLVER_SCRATCH_BASE + 28);
            && res.code == |addrs| && |res.memory| == |memory|
            && Walk(Payload(res.memory, NodeOff(addrs, |addrs|)), 0) == Some([NodeOf(addrs, h, 0)])
  {
    var list, at := Image(addrs, h), RESOLVER_SCRATCH_BASE + 28;
    FilterNothing(addrs);
    NodeOffMonotone(addrs, 0, |addrs|);
    ImageIsMarshalled(addrs, h);
    CutAfterFirst(list, addrs, h);
    SlotInside(memory, list);
    assert Respond(memory, addrs, h, 0, [], at) == Response(|addrs|,
        Splice(Splice(memory, RESOLVER_SCRATCH_BASE, list), at, LE(0, 4)));
  }

  lemma SlotInside(memory: seq<byte>, list: seq<byte>)
    requires 32 <= |list| && RESOLVER_SCRATCH_BASE + |list| <= |memory|
    ensures var memory' := Splice(Splice(memory, RESOLVER_SCRATCH_BASE, list), RESOLVER_SCRATCH_BASE + 28, LE(0, 4));
            Payload(memory', |list|) == Splice(list, 28, LE(0, 4))
  {
    SpliceInside(memory, RESOLVER_SCRATCH_BASE, list, 28, LE(0, 4));
  }

  // ----- the cache -----

  datatype CacheEntry = CacheEntry(addrs: seq<IpAddr>, inserted: nat)

  /** A backend answer: what it said for `name` at time `time`. */
  datatype Answer = Answer(name: string, time: nat, addrs: seq<IpAddr>)

  ghost predicate Oldest(cache: map<string, CacheEntry>, k: string) {
    k in cache && forall k' :: k' in cache ==> cache[k].inserted <= cache[k'].inserted
  }

  lemma {:induction false} OldestExists(cache: map<string, CacheEntry>)
    requires cache != map[]
    ensures exists k :: Oldest(cache, k)
    decreases |cache|
  {
    var k :| k in cache;
    var rest := cache - {k};
    if rest != map[] {
      assert cache.Keys == rest.Keys + {k};
      OldestExists(rest);
      var o :| Oldest(rest, o);
      assert Oldest(cache, if cache[k].inserted <= cache[o].inserted then k else o);
    } else {
      assert forall k' :: k' in cache ==> k' == k || k' in rest;
      assert Oldest(cache, k);
    }
  }

  /** An entry young enough to be used; any age will do when the TTL is 0. */
  predicate Fresh(cache: map<string, CacheEntry>, ttlMs: nat, name: string, now: nat) {
    name in cache && (ttlMs == 0 || now - cache[name].inserted < ttlMs)
  }

  /** `after` is `before` with `e` recorded for `name`, at the cost of an oldest entry if it was full. */
  ghost predicate Inserted(before: map<string, CacheEntry>, after: map<string, CacheEntry>, name: string,
                           e: CacheEntry) {
    if |before| < MAX_CACHE_ENTRIES then after == before[name := e]
    else exists k :: Oldest(before, k) && after == (before - {k})[name := e]
  }

  /** Each cached entry is a recorded answer. */
  ghost predicate Backed(cache: map<string, CacheEntry>, answers: seq<Answer>) {
    forall n :: n in cache ==> Answer(n, cache[n].inserted, cache[n].addrs) in answers
  }

  lemma RecordKeeps(cache: map<string, CacheEntry>, answers: seq<Answer>, a: Answer)
    requires Backed(cache, answers)
    ensures Backed(cache[a.name := CacheEntry(a.addrs, a.time)], answers + [a])
  {
    assert a in answers + [a];
  }

  class ResolverState {
    var cache: map<string, CacheEntry>
    const ttlMs: nat
    /** What the backend would say about a name, asked at a time. */
    ghost const backend: (string, nat) -> Outcome
    ghost var answers: seq<Answer>
    ghost var clock: nat

    /** At most 1024 names; each entry is a recorded answer for that name; each recorded answer is the backend's. */
    ghost predicate Valid()
      reads this
    {
      && |cache| <= MAX_CACHE_ENTRIES
      && Backed(cache, answers)
      && (forall a :: a in answers ==> a.time <= clock && backend(a.name, a.time) == Found(a.addrs))
    }

    constructor (ttlMs: nat, ghost backend: (string, nat) -> Outcome)
      ensures Valid() && cache == map[] && this.ttlMs == ttlMs && this.backend == backend && answers == [] && clock == 0
    {
      this.ttlMs := ttlMs;
      this.backend := backend;
      cache, answers, clock := map[], [], 0;
    }

    /** A hit is an earlier answer for the same name, of any age when the TTL is 0. */
    method Lookup(name: string, now: nat) returns (hit: Option<seq<IpAddr>>)
      requires Valid() && clock <= now
      ensures hit.Some? <==> Fresh(cache, ttlMs, name, now)
      ensures hit.Some? ==> hit.value == cache[name].addrs
      ensures hit.Some? ==>
                exists t: nat :: t <= now && (ttlMs == 0 || now - t < ttlMs) && Answer(name, t, hit.value) in answers
    {
      if name in cache && (ttlMs == 0 || now - cache[name].inserted < ttlMs) {
        assert Answer(name, cache[name].inserted, cache[name].addrs) in answers;
        return Some(cache[name].addrs);
      }
      return None;
    }

    /** Drop an oldest entry. */
    method Evict()
      requires Valid() && cache != map[]
      modifies this`cache
      ensures Valid() && |cache| == |old(cache)| - 1
      ensures exists k :: Oldest(old(cache), k) && cache == old(cache) - {k}
    {
      OldestExists(cache);
      var oldest :| oldest in cache && forall k :: k in cache ==> cache[oldest].inserted <= cache[k].inserted;
      assert Oldest(cache, oldest);
      ShrinksByOne(cache, oldest);
      cache := cache - {oldest};
    }

    /** Record an answer, evicting an oldest entry when the cache is full. */
    method Insert(name: string, addrs: seq<IpAddr>, now: nat)
      requires Valid() && clock <= now && backend(name, now) == Found(addrs)
      modifies this
      ensures Valid() && clock == now && answers == old(answers) + [Answer(name, now, addrs)]
      ensures Inserted(old(cache), cache, name, CacheEntry(addrs, now))
    {
      hide Oldest, Backed;
      if |cache| >= MAX_CACHE_ENTRIES {
        Evict();
      }
      GrowsByOne(cache, name, CacheEntry(addrs, now));
      RecordKeeps(cache, answers, Answer(name, now, addrs));
      cache := cache[name := CacheEntry(addrs, now)];
      answers := answers + [Answer(name, now, addrs)];
      clock := now;
    }

    /** The cached part of `resolve`: the backend, asked only on a miss, answers at time `later`. */
    method Resolve(name: string, now: nat, outcome: Outcome, later: nat) returns (r: Result<seq<IpAddr>>)
      requires Valid() && clock <= now <= later && (!Fresh(cache, ttlMs, name, now) ==> outcome == backend(name, later))
      modifies this
      ensures Valid()
      ensures Fresh(old(cache), ttlMs, name, now) ==>
                && r == Ok(old(cache)[name].addrs) && cache == old(cache) && answers == old(answers)
                && exists t: nat :: t <= now && (ttlMs == 0 || now - t < ttlMs) && Answer(name, t, r.value) in answers
      ensures !Fresh(old(cache), ttlMs, name, now) && outcome.Found? ==>
                && r == Ok(outcome.addrs) && answers == old(answers) + [Answer(name, later, outcome.addrs)]
                && Inserted(old(cache), cache, name, CacheEntry(outcome.addrs, later))
      ensures !Fresh(old(cache), ttlMs, name, now) && !outcome.Found? ==>
                && r == Err(if outcome.TimedOut? then EAI_AGAIN else EAI_FAIL)
                && cache == old(cache) && answers == old(answers)
    {
      var hit := Lookup(name, now);
      if hit.Some? {
        return Ok(hit.value);
      }
      match outcome
      case TimedOut => return Err(EAI_AGAIN);
      case LookupFailed => return Err(EAI_FAIL);
      case Found(addrs) =>
        Insert(name, addrs, later);
        assert Answer(name, later, addrs) in answers;
        return Ok(addrs);
    }

    /**
     The whole call: look in the cache, else ask the backend, then answer the guest. Return value and
     memory are those of a call without a cache whose backend was asked at some time within the TTL;
     so with a backend that is stable over that time they are those of a call without a cache now,
     for all hints, families, denylists and result slots.
     */
    method GetAddrInfo(name: string, now: nat, outcome: Outcome, later: nat, memory: seq<byte>, h: Hints, family: int,
                       denylist: seq<IpAddr>, resPtr: nat)
      returns (r: int, memory': seq<byte>)
      requires Valid() && clock <= now <= later && (!Fresh(cache, ttlMs, name, now) ==> outcome == backend(name, later))
      modifies this
      ensures Valid()
      ensures exists t: nat :: InWindow(t, ttlMs, now, later) &&
                               Response(r, memory') == Uncached(backend(name, t), memory, h, family, denylist, resPtr)
      ensures Stable(backend, name, ttlMs, now, later) ==>
                Response(r, memory') == Uncached(backend(name, later), memory, h, family, denylist, resPtr)
    {
      var answer := Resolve(name, now, outcome, later);
      ghost var t: nat := later;
      if Fresh(old(cache), ttlMs, name, now) {
        t :| t <= now && (ttlMs == 0 || now - t < ttlMs) && Answer(name, t, answer.value) in answers;
      }
      assert InWindow(t, ttlMs, now, later);
      if answer.Err? {
        return answer.errno, memory;
      }
      assert backend(name, t) == Found(answer.value);
      r, memory' := MarshalAndReturn(memory, answer.value, h, family, denylist, resPtr);
    }
  }

  /** Times at which an answer still counts for a call that starts at `now` and hears from the backend at `later`. */
  ghost predicate InWindow(t: nat, ttlMs: nat, now: nat, later: nat) {
    t <= later && (ttlMs == 0 || now < t + ttlMs)
  }

  /** The backend says one thing about `name` over the whole window. */
  ghost predicate Stable(backend: (string, nat) -> Outcome, name: string, ttlMs: nat, now: nat, later: nat) {
    forall t: nat :: InWindow(t, ttlMs, now, later) ==> backend(name, t) == backend(name, later)
  }

  /** The response of a resolver without a cache. */
  ghost function Uncached(outcome: Outcome, memory: seq<byte>, h: Hints, family: int, denylist: seq<IpAddr>,
                          resPtr: nat): Response {
    match outcome
    case TimedOut => Response(EAI_AGAIN, memory)
    case LookupFailed => Response(EAI_FAIL, memory)
    case Found(addrs) => Respond(memory, addrs, h, family, denylist, resPtr)
  }

  /** How a backend lookup can end. */
  datatype Outcome = TimedOut | LookupFailed | Found(addrs: seq<IpAddr>)

  lemma ShrinksByOne(cache: map<string, CacheEntry>, k: string)
    requires k in cache
    ensures |cache - {k}| == |cache| - 1
  {
    assert (cache - {k}).Keys == cache.Keys - {k};
  }

  lemma GrowsByOne(cache: map<string, CacheEntry>, name: string, e: CacheEntry)
    ensures |cache[name := e]| <= |cache| + 1
  {
    assert cache[name := e].Keys == cache.Keys + {name};
  }

  /** A name asked for twice: the second call answers from the cache exactly when the first answer is young enough. */
  method AskedTwice(name: string, addrs: seq<IpAddr>, ttlMs: nat, first: nat, second: nat,
                    ghost backend: (string, nat) -> Outcome)
    returns (hit: Option<seq<IpAddr>>)
    requires first <= second && backend(name, first) == Found(addrs)
    ensures hit == if ttlMs == 0 || second < first + ttlMs then Some(addrs) else None
  {
    var cache := new ResolverState(ttlMs, backend);
    cache.Insert(name, addrs, first);
    hit := cache.Lookup(name, second);
  }
}
