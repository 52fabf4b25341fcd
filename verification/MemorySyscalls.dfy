/** The memory syscalls over linear memory (src/sys/memory.rs). */
module MemorySyscalls {
  import opened Base
  import opened Arenas
  import opened Allocator
  import opened Bytes

  const MREMAP_MAYMOVE: bv32 := 1
  const MREMAP_FIXED: bv32 := 2

  /** `after` is `before` grown by zero bytes, with `[lo, hi)` zeroed. */
  ghost predicate OnlyZeroed(before: seq<byte>, after: seq<byte>, lo: int, hi: int) {
    && |before| <= |after|
    && forall a :: 0 <= a < |after| ==>
         after[a] == if lo <= a < hi || a >= |before| then 0 else before[a]
  }

  /** The largest size memory can reach from `mem` bytes by whole pages. */
  function MaxGrown(mem: nat, limit: nat): nat
    requires mem <= limit
  {
    mem + (limit - mem) / PAGE_SIZE * PAGE_SIZE
  }

  lemma PagesFit(pages: nat, room: nat)
    ensures pages * PAGE_SIZE <= room <==> pages <= room / PAGE_SIZE
  {
  }

  lemma ZeroedTwice(before: seq<byte>, mid: seq<byte>, after: seq<byte>, lo: int, hi: int)
    requires OnlyZeroed(before, mid, 0, 0) && |mid| == |after| && OnlyZeroed(mid, after, lo, hi)
    ensures OnlyZeroed(before, after, lo, hi)
  {
  }

  /** The range was not live and now is; nothing else became live exactly when `alone` holds. */
  ghost predicate Handed(before: set<int>, after: set<int>, addr: int, len: int, alone: bool) {
    && addr % 8 == 0
    && Span(addr, addr + len) !! before
    && before + Span(addr, addr + len) <= after
    && (after == before + Span(addr, addr + len) <==> alone)
  }

  /** Two grants in a row: the second alone accounts for the change exactly when the first was empty. */
  lemma TwoGrants(live: set<int>, leaked: set<int>, after: set<int>, addr: int, len: int)
    requires leaked !! live && Granted(live + leaked, after, addr, len)
    ensures Handed(live, after, addr, len, leaked == {})
  {
    if leaked != {} {
      var x :| x in leaked;
      assert x in after && x !in live + Span(addr, addr + len);
    }
  }

  class Process {
    const limit: nat
    const mm: LinearAllocator
    var memory: seq<byte>

    /** The allocator is consistent, and memory within its limit. */
    ghost predicate Sound()
      reads this, mm, mm.arenas
    {
      mm.Valid() && |memory| <= limit < U32
    }

    /** Every arena lies inside memory. */
    ghost predicate Inside()
      reads this, mm
    {
      mm.arenas != [] ==> mm.highWater <= |memory|
    }

    ghost predicate Valid()
      reads this, mm, mm.arenas
    {
      Sound() && Inside()
    }

    ghost function Live(): set<int>
      reads mm, mm.arenas
    {
      mm.LiveSet()
    }

    constructor (memory: seq<byte>, limit: nat)
      requires |memory| <= limit < U32
      ensures Valid() && this.memory == memory && this.limit == limit && Live() == {}
      ensures fresh(mm) && mm.arenas == []
    {
      this.limit := limit;
      this.memory := memory;
      this.mm := new LinearAllocator();
    }

    /** A process around an allocator that was rebuilt. */
    constructor Of(mm: LinearAllocator, memory: seq<byte>, limit: nat)
      ensures this.mm == mm && this.memory == memory && this.limit == limit
    {
      this.mm, this.memory, this.limit := mm, memory, limit;
    }

    lemma LiveInsideMemory()
      requires Valid()
      ensures forall a :: a in Live() ==> FIRST_ARENA_BASE <= a < |memory|
    {
    }

    lemma EndsInside(addr: int, len: nat)
      requires Valid() && len > 0 && Span(addr, addr + len) <= Live()
      ensures addr + len <= |memory|
    {
      LiveInsideMemory();
      assert addr + len - 1 in Span(addr, addr + len);
    }

    /** Grow linear memory by zero pages; the host may refuse. */
    method Grow(pages: nat, allow: bool) returns (ok: bool)
      requires Sound()
      modifies this`memory
      ensures Sound() && (old(Inside()) ==> Inside()) && Live() == old(Live()) && mm.Parts() == old(mm.Parts())
      ensures ok <==> allow && |old(memory)| + pages * PAGE_SIZE <= limit
      ensures memory == if ok then old(memory) + Zeros(pages * PAGE_SIZE) else old(memory)
    {
      ok := allow && |memory| + pages * PAGE_SIZE <= limit;
      if ok {
        memory := memory + Zeros(pages * PAGE_SIZE);
      }
    }

    /** One decision of the allocator for the current memory size. */
    method Decide(len: nat, flags: bv32, fd: int, off: int) returns (d: MmapResult)
      requires Sound() && len > 0
      modifies mm, mm.Parts()
      ensures Sound() && (old(Inside()) ==> Inside()) && fresh(mm.Parts() - old(mm.Parts()))
      ensures d.Failed? <==> ArgError(len, flags, fd, off).Some?
      ensures d.Failed? ==> d.errno == ArgError(len, flags, fd, off).value
      ensures !d.Failed? ==> (d.Placed? <==> old(mm.CanPlace(|memory|, len)))
      ensures d.NeedGrow? ==> mm.CanPlace(|memory| + d.pages * PAGE_SIZE, len)
      ensures d.NeedGrow? ==>
                (d.pages * PAGE_SIZE <= limit - |memory| <==> old(mm.CanPlace(MaxGrown(|memory|, limit), len)))
      ensures !d.Placed? ==> Live() == old(Live())
      ensures d.Placed? ==> Granted(old(Live()), Live(), d.addr, len) && (old(Inside()) ==> d.addr + len <= |memory|)
      ensures d.Placed? ==> (mm.CanPlace(|memory|, len) <==> old(mm.CanPlaceTwice(|memory|, len)))
    {
      hide LinearAllocator.Rooms, LinearAllocator.RoomsAfter, LinearAllocator.Tiled, LinearAllocator.Spans;
      hide First, TwoPlaces;
      d := mm.Mmap(|memory|, len, flags, fd, off);
      if d.NeedGrow? {
        var most := (limit - |memory|) / PAGE_SIZE;
        PagesFit(d.pages, limit - |memory|);
        assert old(mm.CanPlace(|memory| + most * PAGE_SIZE, len)) <==> most >= d.pages;
      }
      if d.Placed? && Inside() { EndsInside(d.addr, len); }
    }

    /**
     The first decision, and the growth it may ask for. When it places the request itself, that
     placement stays: `leaked` names the range, which no later step uses.
     */
    method FirstDecision(len: nat, flags: bv32, fd: int, off: int, allowGrow: bool)
      returns (ok: bool, ghost leaked: set<int>)
      requires Sound() && len > 0
      modifies this`memory, mm, mm.Parts()
      ensures Sound() && (old(Inside()) ==> Inside()) && fresh(mm.Parts() - old(mm.Parts()))
      ensures OnlyZeroed(old(memory), memory, 0, 0)
      ensures leaked !! old(Live()) && Live() == old(Live()) + leaked
      ensures leaked != {} ==> memory == old(memory)
      ensures leaked != {} <==> ArgError(len, flags, fd, off).None? && old(mm.CanPlace(|memory|, len))
      ensures leaked == {} && ok && ArgError(len, flags, fd, off).None? ==> mm.CanPlace(|memory|, len)
      ensures leaked != {} ==> (mm.CanPlace(|memory|, len) <==> old(mm.CanPlaceTwice(|memory|, len)))
      ensures ok <==> ArgError(len, flags, fd, off).Some? || old(mm.CanPlace(|memory|, len)) ||
                      (allowGrow && old(mm.CanPlace(MaxGrown(|memory|, limit), len)))
    {
      hide LinearAllocator.CanPlace, LinearAllocator.CanPlaceTwice, LinearAllocator.Tiled, LinearAllocator.LiveSet;
      var decision := Decide(len, flags, fd, off);
      ok, leaked := true, {};
      if decision.NeedGrow? {
        ok := Grow(decision.pages, allowGrow);
      } else if decision.Placed? {
        leaked := Span(decision.addr, decision.addr + len);
        assert decision.addr in leaked;
      }
    }

    /** The second decision, and the zero-fill. */
    method PlaceZeroed(len: nat, flags: bv32, fd: int, off: int) returns (r: int)
      requires Sound() && len > 0
      modifies this`memory, mm, mm.Parts()
      ensures Sound() && (old(Inside()) ==> Inside()) && fresh(mm.Parts() - old(mm.Parts()))
      ensures |memory| == |old(memory)|
      ensures ArgError(len, flags, fd, off).Some? ==> r == ArgError(len, flags, fd, off).value
      ensures ArgError(len, flags, fd, off).None? ==> r >= 0 || r == -ENOMEM
      ensures ArgError(len, flags, fd, off).None? ==> (r >= 0 <==> old(mm.CanPlace(|memory|, len)))
      ensures r < 0 ==> memory == old(memory) && Live() == old(Live())
      ensures r >= 0 ==>
                && Granted(old(Live()), Live(), r, len) && (old(Inside()) ==> r + len <= |memory|)
                && (if r + len <= |memory| then OnlyZeroed(old(memory), memory, r, r + len) else memory == old(memory))
    {
      hide LinearAllocator.CanPlace, LinearAllocator.CanPlaceTwice, LinearAllocator.Tiled, LinearAllocator.LiveSet;
      var second := Decide(len, flags, fd, off);
      if second.Failed? {
        return second.errno;
      }
      if second.NeedGrow? {
        return -ENOMEM;
      }
      var start, end := second.addr, second.addr + len;
      ghost var live := Live();
      ZeroFill(start, end);
      assert Granted(old(Live()), live, start, len) && Live() == live;
      return start;
    }

    /**
     `mmap`: decide, grow if asked to, decide again, zero-fill. The second decision is made even
     when the first one already placed the request; that first range, `leaked`, stays allocated, and
     no caller learns of it, whether the call then succeeds or fails.
     */
    method Mmap(len: int, flags: bv32, fd: int, off: int, allowGrow: bool) returns (r: int, ghost leaked: set<int>)
      requires Sound()
      modifies this`memory, mm, mm.Parts()
      ensures Sound() && (old(Inside()) ==> Inside())
      ensures leaked !! old(Live())
      ensures leaked != {} ==> |memory| == |old(memory)|
      ensures leaked != {} <==> len > 0 && ArgError(len, flags, fd, off).None? && old(mm.CanPlace(|memory|, len))
      ensures r < 0 ==> Live() == old(Live()) + leaked && OnlyZeroed(old(memory), memory, 0, 0)
      ensures r >= 0 ==>
                && len > 0 && (old(Inside()) ==> r + len <= |memory|)
                && (if r + len <= |memory| then OnlyZeroed(old(memory), memory, r, r + len)
                    else OnlyZeroed(old(memory), memory, 0, 0))
                && Granted(old(Live()) + leaked, Live(), r, len)
                && Handed(old(Live()), Live(), r, len, leaked == {})
      ensures len <= 0 ==> r == -EINVAL
      ensures len > 0 && ArgError(len, flags, fd, off).Some? ==> r == ArgError(len, flags, fd, off).value
      ensures len > 0 && ArgError(len, flags, fd, off).None? ==> r >= 0 || r == -ENOMEM
      ensures len > 0 && ArgError(len, flags, fd, off).None? ==>
                (r >= 0 <==> if old(mm.CanPlace(|memory|, len)) then old(mm.CanPlaceTwice(|memory|, len))
                             else allowGrow && old(mm.CanPlace(MaxGrown(|memory|, limit), len)))
    {
      hide LinearAllocator.CanPlace, LinearAllocator.CanPlaceTwice, LinearAllocator.Tiled, LinearAllocator.LiveSet;
      leaked := {};
      if len <= 0 {
        return -EINVAL, {};
      }
      var ok;
      ok, leaked := FirstDecision(len, flags, fd, off, allowGrow);
      if !ok {
        return -ENOMEM, leaked;
      }
      ghost var grown := memory;
      r := PlaceZeroed(len, flags, fd, off);
      if r >= 0 {
        TwoGrants(old(Live()), leaked, Live(), r, len);
        if r + len <= |memory| { ZeroedTwice(old(memory), grown, memory, r, r + len); }
      }
    }

    /** Zero `[start, end)`, if memory reaches that far. */
    method ZeroFill(start: nat, end: nat)
      requires Sound() && start <= end
      modifies this`memory
      ensures Sound() && (old(Inside()) ==> Inside()) && Live() == old(Live()) && mm.Parts() == old(mm.Parts())
      ensures end > |old(memory)| ==> memory == old(memory)
      ensures end <= |old(memory)| ==> |memory| == |old(memory)| && OnlyZeroed(old(memory), memory, start, end)
    {
      if end <= |memory| {
        memory := memory[..start] + Zeros(end - start) + memory[end..];
      }
    }

    /**
     `munmap`: bytes are never touched; a range inside one arena is released, and the state stays
     valid iff the arena owned it.
     */
    method Munmap(addr: int, len: int) returns (r: int)
      requires Sound()
      modifies mm.Parts()
      ensures Inside() == old(Inside())
      ensures addr < 0 || addr >= U32 || len < 0 ==> r == -EINVAL && Sound() && Live() == old(Live())
      ensures 0 <= addr < U32 && 0 <= len ==>
                && r == (if len == 0 || mm.InOneArena(addr, len % U32) then 0 else -EINVAL)
                && Live() == if mm.InOneArena(addr, len) then old(Live()) - Span(addr, addr + len) else old(Live())
      ensures 0 <= addr < U32 && 0 <= len && (len == 0 || !mm.InOneArena(addr, len)) ==> Sound()
      ensures 0 <= addr < U32 && 0 < len && Span(addr, addr + len) <= old(Live()) ==> Sound()
      ensures 0 <= addr < U32 && 0 < len && mm.InOneArena(addr, len) ==> (Sound() <==> old(mm.Owned(addr, len)))
    {
      if addr < 0 || addr >= U32 || len < 0 {
        return -EINVAL;
      }
      r := mm.Munmap(addr, len);
    }

    /** `mremap` in place: shrinking is free, growing extends the range into bytes nobody held. */
    method Mremap(addr: int, oldLen: int, newLen: int, flags: bv32, newAddr: int) returns (r: int)
      requires Sound()
      modifies mm.Parts()
      ensures Sound() && Inside() == old(Inside())
      ensures MremapError(addr, oldLen, newLen, flags, newAddr).Some? ==>
                r == MremapError(addr, oldLen, newLen, flags, newAddr).value
      ensures MremapError(addr, oldLen, newLen, flags, newAddr).None? ==>
                r == if newLen <= oldLen || old(mm.SomeCanExtend(addr, oldLen, newLen - oldLen)) then addr else -ENOMEM
      ensures r < 0 || newLen <= oldLen ==> Live() == old(Live())
      ensures r >= 0 ==>
                && Span(addr + oldLen, addr + newLen) !! old(Live())
                && Live() == old(Live()) + Span(addr + oldLen, addr + newLen)
                && (Span(addr, addr + oldLen) <= old(Live()) ==> Span(addr, addr + newLen) <= Live())
    {
      var e := MremapError(addr, oldLen, newLen, flags, newAddr);
      if e.Some? {
        return e.value;
      }
      if newLen <= oldLen {
        return addr;
      }
      var grown := mm.GrowInPlace(addr, oldLen, newLen);
      assert Span(addr, addr + newLen) == Span(addr, addr + oldLen) + Span(addr + oldLen, addr + newLen);
      match grown
      case Ok(a) => return a;
      case Err(e) => return e;
    }
  }

  /** The argument checks of `mremap`, in their order; the new address is looked at in 32 bits. */
  function MremapError(addr: int, oldLen: int, newLen: int, flags: bv32, newAddr: int): Option<int> {
    if addr < 0 || addr >= U32 || oldLen <= 0 || newLen <= 0 then Some(-EINVAL)
    else if flags & (MREMAP_MAYMOVE | MREMAP_FIXED) != 0 then Some(-ENOSYS)
    else if newAddr % U32 != 0 then Some(-ENOSYS)
    else None
  }

  /** Exactly the requests to stay in place, from a 32-bit address and between positive lengths, get past them. */
  lemma MremapErrorIff(addr: int, oldLen: int, newLen: int, flags: bv32, newAddr: int)
    ensures MremapError(addr, oldLen, newLen, flags, newAddr).None? <==>
            0 <= addr < U32 && oldLen > 0 && newLen > 0 && flags & 3 == 0 && newAddr % U32 == 0
    ensures MremapError(addr, oldLen, newLen, flags, newAddr) == Some(-EINVAL) <==>
            !(0 <= addr < U32 && oldLen > 0 && newLen > 0)
    ensures MremapError(addr, oldLen, newLen, flags, newAddr).Some? ==>
              MremapError(addr, oldLen, newLen, flags, newAddr).value in {-EINVAL, -ENOSYS}
  {
    assert MREMAP_MAYMOVE | MREMAP_FIXED == 3;
  }

  // ----- runs that leak -----

  /** Room for exactly one arena: the call takes all of it, then fails. */
  method LeakOnFailure() returns (p: Process, r: int)
    ensures r == -ENOMEM && p.Live() != {}
  {
    var size := FIRST_ARENA_BASE + ARENA_SIZE;
    p := new Process(Zeros(size), size);
    FreshRoom(p.mm, ARENA_SIZE);
    ghost var leaked;
    r, leaked := p.Mmap(ARENA_SIZE, MAP_ANONYMOUS | MAP_PRIVATE, -1, 0, true);
  }

  /** The first call of a process: two ranges become live, one is returned. */
  method LeakOnSuccess() returns (p: Process, r: int)
    ensures r >= 0 && p.Live() != Span(r, r + 8)
  {
    var size := FIRST_ARENA_BASE + ARENA_SIZE;
    p := new Process(Zeros(size), size);
    FreshRoom(p.mm, 8);
    ghost var leaked;
    r, leaked := p.Mmap(8, MAP_ANONYMOUS | MAP_PRIVATE, -1, 0, true);
  }

  lemma FreshRoom(mm: LinearAllocator, len: nat)
    requires mm.Valid() && mm.arenas == [] && (len == 8 || len == ARENA_SIZE)
    ensures mm.CanPlace(FIRST_ARENA_BASE + ARENA_SIZE, len)
    ensures mm.CanPlaceTwice(FIRST_ARENA_BASE + ARENA_SIZE, len) <==> len == 8
  {
  }
}
