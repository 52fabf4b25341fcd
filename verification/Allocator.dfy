/**
 Anonymous mmap over linear memory: a growing row of arenas (src/mm/mod.rs).
 Addresses are absolute offsets in linear memory.
 */
module Allocator {
  import opened Base
  import opened Arenas

  const FIRST_ARENA_BASE: nat := 0x0010_0000
  const MAP_ANONYMOUS: bv32 := 0x20
  const MAP_PRIVATE: bv32 := 0x02

  datatype MmapResult = Placed(addr: nat) | NeedGrow(pages: nat) | Failed(errno: int)

  /** Where the `i`-th arena starts. */
  function BaseOf(i: nat): nat {
    FIRST_ARENA_BASE + i * ARENA_SIZE
  }

  /** The argument checks of `mmap`, in their order. */
  function ArgError(len: nat, flags: bv32, fd: int, off: int): Option<int> {
    if len == 0 then Some(-EINVAL)
    else if fd != -1 || flags & MAP_ANONYMOUS == 0 || flags & MAP_PRIVATE == 0 || off != 0 || len > ARENA_SIZE then
      Some(-ENOSYS)
    else None
  }

  /** Exactly the private anonymous requests of at most 256 KiB get past them. */
  lemma ArgErrorIff(len: nat, flags: bv32, fd: int, off: int)
    ensures ArgError(len, flags, fd, off).None? <==>
            0 < len <= 256 * 1024 && fd == -1 && off == 0 && flags & 0x22 == 0x22
    ensures ArgError(len, flags, fd, off).Some? ==>
              ArgError(len, flags, fd, off).value == if len == 0 then -EINVAL else -ENOSYS
  {
    TwoBits(flags);
  }

  lemma TwoBits(flags: bv32)
    ensures flags & 0x22 == 0x22 <==> flags & 0x20 != 0 && flags & 0x02 != 0
  {
  }

  // ----- byte sets of a row of arenas -----

  ghost predicate InArena(sets: seq<set<int>>, i: int, a: int) {
    0 <= i < |sets| && a - BaseOf(i) in sets[i]
  }

  ghost predicate InSomeArena(sets: seq<set<int>>, a: int) {
    exists i :: InArena(sets, i, a)
  }

  /** Absolute addresses described by one set of offsets per arena. */
  ghost function Absolute(sets: seq<set<int>>): set<int> {
    set a | FIRST_ARENA_BASE <= a < BaseOf(|sets|) && InSomeArena(sets, a)
  }

  ghost predicate Offsets(sets: seq<set<int>>) {
    forall i :: 0 <= i < |sets| ==> sets[i] <= Span(0, ARENA_SIZE)
  }

  lemma InAbsolute(sets: seq<set<int>>, i: nat, a: int)
    requires Offsets(sets) && i < |sets| && BaseOf(i) <= a < BaseOf(i) + ARENA_SIZE
    ensures a in Absolute(sets) <==> a - BaseOf(i) in sets[i]
  {
    if a in Absolute(sets) {
      assert InSomeArena(sets, a);
      var j :| InArena(sets, j, a);
      assert 0 <= a - BaseOf(j) < ARENA_SIZE;
      assert i == j;
    }
    if a - BaseOf(i) in sets[i] { assert InArena(sets, i, a) && InSomeArena(sets, a); }
  }

  lemma ArenaOf(n: nat, a: int) returns (i: nat)
    requires FIRST_ARENA_BASE <= a < BaseOf(n)
    ensures i < n && BaseOf(i) <= a < BaseOf(i) + ARENA_SIZE
  {
    i := (a - FIRST_ARENA_BASE) / ARENA_SIZE;
  }

  /** Two rows that differ only in arena `i` differ only in that arena's addresses. */
  lemma AbsoluteUpdate(sets: seq<set<int>>, i: nat, s: set<int>, a: int)
    requires Offsets(sets) && i < |sets| && s <= Span(0, ARENA_SIZE)
    requires FIRST_ARENA_BASE <= a < BaseOf(|sets|)
    ensures a in Absolute(sets[i := s]) <==>
            if BaseOf(i) <= a < BaseOf(i) + ARENA_SIZE then a - BaseOf(i) in s else a in Absolute(sets)
  {
    var j := ArenaOf(|sets|, a);
    InAbsolute(sets, j, a);
    InAbsolute(sets[i := s], j, a);
    assert j == i <==> BaseOf(i) <= a < BaseOf(i) + ARENA_SIZE;
  }

  lemma AbsoluteGrow(sets: seq<set<int>>, i: nat, lo: nat, hi: nat)
    requires Offsets(sets) && i < |sets| && lo <= hi <= ARENA_SIZE
    ensures Absolute(sets[i := sets[i] + Span(lo, hi)]) == Absolute(sets) + Span(BaseOf(i) + lo, BaseOf(i) + hi)
  {
    var s := sets[i] + Span(lo, hi);
    var after, grown := Absolute(sets[i := s]), Absolute(sets) + Span(BaseOf(i) + lo, BaseOf(i) + hi);
    InRow(|sets|, i);
    forall a ensures a in after <==> a in grown {
      if FIRST_ARENA_BASE <= a < BaseOf(|sets|) {
        AbsoluteUpdate(sets, i, s, a);
        if BaseOf(i) <= a < BaseOf(i) + ARENA_SIZE {
          InAbsolute(sets, i, a);
          assert a - BaseOf(i) in Span(lo, hi) <==> a in Span(BaseOf(i) + lo, BaseOf(i) + hi);
        }
      }
    }
  }

  lemma AbsoluteFresh(sets: seq<set<int>>, i: nat, lo: nat, hi: nat)
    requires Offsets(sets) && i < |sets| && lo <= hi <= ARENA_SIZE && Span(lo, hi) !! sets[i]
    ensures Span(BaseOf(i) + lo, BaseOf(i) + hi) !! Absolute(sets)
  {
    forall a | a in Span(BaseOf(i) + lo, BaseOf(i) + hi) ensures a !in Absolute(sets) {
      InAbsolute(sets, i, a);
      assert a - BaseOf(i) in Span(lo, hi);
    }
  }

  lemma AbsoluteShrink(sets: seq<set<int>>, i: nat, lo: nat, hi: nat)
    requires Offsets(sets) && i < |sets| && lo <= hi <= ARENA_SIZE
    ensures Absolute(sets[i := sets[i] - Span(lo, hi)]) == Absolute(sets) - Span(BaseOf(i) + lo, BaseOf(i) + hi)
  {
    var s := sets[i] - Span(lo, hi);
    var after, left := Absolute(sets[i := s]), Absolute(sets) - Span(BaseOf(i) + lo, BaseOf(i) + hi);
    forall a ensures a in after <==> a in left {
      if FIRST_ARENA_BASE <= a < BaseOf(|sets|) {
        AbsoluteUpdate(sets, i, s, a);
        if BaseOf(i) <= a < BaseOf(i) + ARENA_SIZE {
          InAbsolute(sets, i, a);
          assert a - BaseOf(i) in Span(lo, hi) <==> a in Span(BaseOf(i) + lo, BaseOf(i) + hi);
        }
      }
    }
  }

  lemma InRow(n: nat, i: nat)
    requires i < n
    ensures FIRST_ARENA_BASE <= BaseOf(i) && BaseOf(i) + ARENA_SIZE <= BaseOf(n)
  {
  }

  lemma AbsolutePush(sets: seq<set<int>>)
    requires Offsets(sets)
    ensures Absolute(sets + [{}]) == Absolute(sets)
  {
    forall a ensures a in Absolute(sets + [{}]) <==> a in Absolute(sets) {
      if a in Absolute(sets + [{}]) {
        assert InSomeArena(sets + [{}], a);
        var i :| InArena(sets + [{}], i, a);
        assert InArena(sets, i, a) && InSomeArena(sets, a);
        assert 0 <= a - BaseOf(i) < ARENA_SIZE;
      }
      if a in Absolute(sets) {
        assert InSomeArena(sets, a);
        var i :| InArena(sets, i, a);
        assert InArena(sets + [{}], i, a) && InSomeArena(sets + [{}], a);
      }
    }
  }

  /** Bytes `[addr, addr + len)` were not live and now are; nothing else changed. */
  ghost predicate Granted(before: set<int>, after: set<int>, addr: int, len: int) {
    && addr % 8 == 0
    && Span(addr, addr + len) !! before
    && after == before + Span(addr, addr + len)
  }

  lemma GrantIn(before: seq<set<int>>, after: seq<set<int>>, i: nat, o: nat, len: nat)
    requires Offsets(before) && i < |before| == |after| && o + len <= ARENA_SIZE && o % 8 == 0
    requires Span(o, o + len) !! before[i] && after[i] == before[i] + Span(o, o + len)
    requires forall j :: 0 <= j < |before| && j != i ==> after[j] == before[j]
    ensures Granted(Absolute(before), Absolute(after), BaseOf(i) + o, len)
  {
    assert after == before[i := before[i] + Span(o, o + len)];
    AbsoluteGrow(before, i, o, o + len);
    AbsoluteFresh(before, i, o, o + len);
    assert (BaseOf(i) + o) % 8 == 0;
  }

  /** The least number of pages that holds `short` bytes. */
  function PagesFor(short: nat): (pages: nat)
    ensures forall q: int {:trigger q * PAGE_SIZE} :: short <= q * PAGE_SIZE <==> q >= pages
  {
    (short + PAGE_SIZE - 1) / PAGE_SIZE
  }

  /** Arena `i` is the first with room. */
  ghost predicate First(rooms: seq<bool>, i: int) {
    0 <= i < |rooms| && rooms[i] && forall j :: 0 <= j < i ==> !rooms[j]
  }

  /** After a placement in the first arena with room, does some arena have room again? */
  ghost predicate RoomLeft(rooms: seq<bool>, after: seq<bool>)
    requires |rooms| == |after|
  {
    exists i :: First(rooms, i) && true in rooms[i := after[i]]
  }

  lemma RoomLeftAt(rooms: seq<bool>, after: seq<bool>, i: nat)
    requires |rooms| == |after| && First(rooms, i)
    ensures RoomLeft(rooms, after) <==> true in rooms[i := after[i]]
  {
    assert forall k :: First(rooms, k) ==> k == i;
  }

  /** Some arena has room, or memory reaches past one more. */
  ghost predicate OnePlace(rooms: seq<bool>, highWater: int, mem: int) {
    true in rooms || highWater + ARENA_SIZE <= mem
  }

  /** The same, twice: `after` says which arenas have room after a placement in them. */
  ghost predicate TwoPlaces(rooms: seq<bool>, after: seq<bool>, highWater: int, mem: int, len: nat)
    requires |rooms| == |after|
  {
    if true in rooms then RoomLeft(rooms, after) || highWater + ARENA_SIZE <= mem
    else highWater + ARENA_SIZE <= mem && (HoldsTwo(len) || highWater + 2 * ARENA_SIZE <= mem)
  }

  lemma PlacedInNew(rooms: seq<bool>, after: seq<bool>, highWater: int, mem: int, len: nat)
    requires |rooms| == |after| && true !in rooms && highWater + ARENA_SIZE <= mem
    ensures OnePlace(rooms + [HoldsTwo(len)], highWater + ARENA_SIZE, mem) <==>
              TwoPlaces(rooms, after, highWater, mem, len)
  {
  }

  lemma ReplaceLast(rooms: seq<bool>, a: bool, b: bool)
    ensures (rooms + [a])[|rooms| := b] == rooms + [b]
  {
  }

  // ----- the allocator -----

  class LinearAllocator {
    var arenas: seq<Arena>
    var highWater: nat

    /** Arenas tile `[FIRST_ARENA_BASE, highWater)` in order; each is partitioned and has no touching holes. */
    ghost predicate Valid()
      reads this, arenas
    {
      Tiled(arenas) && highWater == BaseOf(|arenas|) < U32
    }

    static ghost predicate Tiled(arenas: seq<Arena>)
      reads arenas
    {
      && (forall i, j :: 0 <= i < j < |arenas| ==> arenas[i] != arenas[j])
      && (forall i :: 0 <= i < |arenas| ==>
            arenas[i].base == BaseOf(i) && arenas[i].Valid() && Separated(arenas[i].freeList))
    }

    ghost function Parts(): set<object>
      reads this
    {
      set a | a in arenas
    }

    ghost function Lives(): (ls: seq<set<int>>)
      reads this, arenas
      ensures |ls| == |arenas| && forall i :: 0 <= i < |ls| ==> ls[i] == arenas[i].Live
    {
      seq(|arenas|, i requires 0 <= i < |arenas| reads this, arenas => arenas[i].Live)
    }

    /** Absolute addresses of the bytes handed out and not given back. */
    ghost function LiveSet(): set<int>
      reads this, arenas
    {
      Absolute(Lives())
    }

    lemma LivesAreOffsets()
      requires Tiled(arenas)
      ensures Offsets(Lives())
    {
      forall i | 0 <= i < |arenas| ensures arenas[i].Live <= Span(0, ARENA_SIZE) {
        assert arenas[i].Valid();
        assert Span(0, arenas[i].used) <= Span(0, ARENA_SIZE);
      }
    }

    /** Which arenas have room for `len` bytes. */
    ghost function Rooms(len: nat): (r: seq<bool>)
      reads this, arenas
      ensures |r| == |arenas| && forall i :: 0 <= i < |r| ==> r[i] == arenas[i].CanAlloc(len, 8)
    {
      seq(|arenas|, i requires 0 <= i < |arenas| reads this, arenas => arenas[i].CanAlloc(len, 8))
    }

    /** Which arenas have room for `len` bytes after an allocation of as many. */
    ghost function RoomsAfter(len: nat): (r: seq<bool>)
      reads this, arenas
      ensures |r| == |arenas| && forall i :: 0 <= i < |r| ==> r[i] == arenas[i].CanAllocTwice(len, 8)
    {
      seq(|arenas|, i requires 0 <= i < |arenas| reads this, arenas => arenas[i].CanAllocTwice(len, 8))
    }

    ghost predicate SomeArenaHasRoom(len: nat)
      reads this, arenas
    {
      true in Rooms(len)
    }

    /** Can two requests of `len` bytes be met, one after the other, when linear memory has `mem` bytes? */
    ghost predicate CanPlaceTwice(mem: int, len: nat)
      reads this, arenas
    {
      TwoPlaces(Rooms(len), RoomsAfter(len), highWater, mem, len)
    }

    /** Can a request be met when linear memory has `mem` bytes? */
    ghost predicate CanPlace(mem: int, len: nat)
      reads this, arenas
    {
      OnePlace(Rooms(len), highWater, mem)
    }

    constructor ()
      ensures Valid() && arenas == []
    {
      arenas, highWater := [], FIRST_ARENA_BASE;
    }

    /** Ask arena `i`; the tiling stays as it is. */
    method AllocRaw(i: nat, len: nat) returns (r: Option<nat>)
      requires Valid() && len > 0 && i < |arenas|
      modifies arenas[i]
      ensures Valid()
      ensures r.Some? <==> old(arenas[i].CanAlloc(len, 8))
      ensures r.None? ==> unchanged(arenas[i])
      ensures r.Some? ==> TakenIn(old(arenas[i].Live), arenas[i].Live, r.value - BaseOf(i), len)
      ensures r.Some? ==> (arenas[i].CanAlloc(len, 8) <==> old(arenas[i].CanAllocTwice(len, 8)))
      ensures r.Some? && old(arenas[i].used) == 0 ==> r.value == BaseOf(i)
    {
      r := arenas[i].AllocEight(len);
    }

    /** Allocate in arena `i`, if it has room. */
    method AllocAt(i: nat, len: nat) returns (r: Option<nat>)
      requires Valid() && len > 0 && i < |arenas|
      modifies arenas[i]
      ensures Valid()
      ensures r.Some? <==> old(arenas[i].CanAlloc(len, 8))
      ensures r.None? ==> unchanged(arenas[i])
      ensures r.Some? ==> Granted(old(LiveSet()), LiveSet(), r.value, len) && Spans(i, r.value, len)
      ensures r.Some? ==> (arenas[i].CanAlloc(len, 8) <==> old(arenas[i].CanAllocTwice(len, 8)))
      ensures r.Some? && old(arenas[i].used) == 0 ==> r.value == BaseOf(i)
    {
      LivesAreOffsets();
      r := AllocRaw(i, len);
      if r.Some? {
        GrantIn(old(Lives()), Lives(), i, r.value - BaseOf(i), len);
      }
    }

    /** One attempt of the search: ask arena `i`; no other arena's room changes. */
    method AllocIn(i: nat, len: nat) returns (r: Option<nat>)
      requires Valid() && len > 0 && i < |arenas|
      modifies arenas[i]
      ensures Valid()
      ensures r.Some? <==> old(Rooms(len))[i]
      ensures r.None? ==> unchanged(arenas[i]) && LiveSet() == old(LiveSet())
      ensures r.None? ==> Rooms(len) == old(Rooms(len)) && RoomsAfter(len) == old(RoomsAfter(len))
      ensures r.Some? ==> Granted(old(LiveSet()), LiveSet(), r.value, len) && Spans(i, r.value, len)
      ensures r.Some? ==> Rooms(len) == old(Rooms(len))[i := old(RoomsAfter(len))[i]]
      ensures r.Some? && old(arenas[i].used) == 0 ==> r.value == BaseOf(i)
    {
      r := AllocAt(i, len);
    }

    /** Allocate in the first arena that has room. */
    method TryArenas(len: nat) returns (r: Option<nat>)
      requires Valid() && len > 0
      modifies arenas
      ensures Valid()
      ensures r.Some? <==> old(SomeArenaHasRoom(len))
      ensures r.None? ==> LiveSet() == old(LiveSet()) && forall a :: a in arenas ==> unchanged(a)
      ensures r.None? ==> Rooms(len) == old(Rooms(len))
      ensures r.Some? ==> Granted(old(LiveSet()), LiveSet(), r.value, len)
      ensures r.Some? ==> exists i :: First(old(Rooms(len)), i) && Spans(i, r.value, len)
      ensures r.Some? ==> (SomeArenaHasRoom(len) <==> RoomLeft(old(Rooms(len)), old(RoomsAfter(len))))
    {
      hide Rooms, RoomsAfter, LiveSet, Granted, Tiled, Arena.CanAlloc, Arena.CanAllocTwice;
      ghost var rooms, after, live := Rooms(len), RoomsAfter(len), LiveSet();
      for i := 0 to |arenas|
        invariant forall a :: a in arenas ==> unchanged(a)
        invariant Valid() && Rooms(len) == rooms && RoomsAfter(len) == after && LiveSet() == live
        invariant forall j :: 0 <= j < i ==> !rooms[j]
      {
        assert arenas[i] in arenas;
        r := AllocIn(i, len);
        if r.Some? {
          RoomLeftAt(rooms, after, i);
          return;
        }
      }
      r := None;
    }

    /** Add an empty arena at the high-water mark. */
    method AddArena(ghost len: nat)
      requires Valid() && 0 < len <= ARENA_SIZE && highWater + ARENA_SIZE < U32
      modifies this
      ensures Valid() && |arenas| == |old(arenas)| + 1
      ensures fresh(arenas[|arenas| - 1]) && arenas[..|arenas| - 1] == old(arenas)
      ensures highWater == old(highWater) + ARENA_SIZE && LiveSet() == old(LiveSet())
      ensures arenas[|arenas| - 1].used == 0
      ensures Rooms(len) == old(Rooms(len)) + [true]
      ensures RoomsAfter(len) == old(RoomsAfter(len)) + [HoldsTwo(len)]
    {
      hide HasRoom, RoomTwice, HoldsTwo, Absolute, ArenaOk, Separated;
      LivesAreOffsets();
      AbsolutePush(Lives());
      EmptyHolds(len);
      var arena := new Arena(highWater);
      highWater := highWater + ARENA_SIZE;
      arenas := arenas + [arena];
      assert Lives() == old(Lives()) + [{}];
      assert arena.CanAlloc(len, 8);
    }

    /** Put a new arena at the high-water mark; it is empty, so the request fits. */
    method PlaceArena(len: nat) returns (addr: nat)
      requires Valid() && 0 < len <= ARENA_SIZE && highWater + ARENA_SIZE < U32
      modifies this
      ensures Valid() && |arenas| == |old(arenas)| + 1
      ensures fresh(arenas[|arenas| - 1]) && arenas[..|arenas| - 1] == old(arenas)
      ensures highWater == old(highWater) + ARENA_SIZE
      ensures Granted(old(LiveSet()), LiveSet(), addr, len) && addr == old(highWater)
      ensures Rooms(len) == old(Rooms(len)) + [HoldsTwo(len)]
    {
      hide Rooms, RoomsAfter, LiveSet, Granted, HoldsTwo, Arena.CanAlloc, Arena.CanAllocTwice;
      AddArena(len);
      var r := AllocIn(|arenas| - 1, len);
      addr := r.value;
      ReplaceLast(old(Rooms(len)), true, HoldsTwo(len));
    }

    /**
     Place a request whose arguments are good: in the first arena with room, else in a new arena,
     else ask for pages.
     */
    method Place(curMem: nat, len: nat) returns (r: MmapResult)
      requires Valid() && curMem < U32 && 0 < len <= ARENA_SIZE
      modifies this, Parts()
      ensures Valid() && fresh(Parts() - old(Parts())) && !r.Failed?
      ensures r.NeedGrow? ==> unchanged(this) && LiveSet() == old(LiveSet()) && forall a :: a in arenas ==> unchanged(a)
      ensures r.NeedGrow? ==> !old(CanPlace(curMem, len)) && r.pages == PagesFor(highWater + ARENA_SIZE - curMem)
      ensures r.NeedGrow? ==> Rooms(len) == old(Rooms(len))
      ensures r.Placed? ==> old(CanPlace(curMem, len)) && Granted(old(LiveSet()), LiveSet(), r.addr, len)
      ensures r.Placed? ==> (CanPlace(curMem, len) <==> old(CanPlaceTwice(curMem, len)))
      ensures r.Placed? && old(SomeArenaHasRoom(len)) ==>
                highWater == old(highWater) && exists i :: First(old(Rooms(len)), i) && Spans(i, r.addr, len)
      ensures r.Placed? && !old(SomeArenaHasRoom(len)) ==>
                r.addr == old(highWater) && highWater == old(highWater) + ARENA_SIZE
    {
      hide Rooms, RoomsAfter, LiveSet, Granted, Tiled, HoldsTwo, RoomLeft, First, Spans;
      ghost var rooms, after, mark := Rooms(len), RoomsAfter(len), highWater;
      var found := TryArenas(len);
      if found.Some? {
        return Placed(found.value);
      }
      var needed := highWater + ARENA_SIZE;
      if needed > curMem {
        return NeedGrow(PagesFor(needed - curMem));
      }
      var addr := PlaceArena(len);
      PlacedInNew(rooms, after, mark, curMem, len);
      return Placed(addr);
    }

    method Mmap(curMem: nat, len: nat, flags: bv32, fd: int, off: int) returns (r: MmapResult)
      requires Valid() && curMem < U32
      modifies this, Parts()
      ensures Valid() && fresh(Parts() - old(Parts()))
      ensures r.Failed? <==> ArgError(len, flags, fd, off).Some?
      ensures r.Failed? ==> r.errno == ArgError(len, flags, fd, off).value
      ensures !r.Placed? ==> unchanged(this) && LiveSet() == old(LiveSet()) && forall a :: a in arenas ==> unchanged(a)
      ensures !r.Failed? ==> (r.Placed? <==> old(CanPlace(curMem, len)))
      ensures r.NeedGrow? ==> CanPlace(curMem + r.pages * PAGE_SIZE, len)
      ensures r.NeedGrow? ==> forall q: nat :: old(CanPlace(curMem + q * PAGE_SIZE, len)) <==> q >= r.pages
      ensures r.Placed? ==> Granted(old(LiveSet()), LiveSet(), r.addr, len)
      ensures r.Placed? ==> (CanPlace(curMem, len) <==> old(CanPlaceTwice(curMem, len)))
      ensures r.Placed? && old(SomeArenaHasRoom(len)) ==>
                highWater == old(highWater) && exists i :: First(old(Rooms(len)), i) && Spans(i, r.addr, len)
      ensures r.Placed? && !old(SomeArenaHasRoom(len)) ==>
                r.addr == old(highWater) && highWater == old(highWater) + ARENA_SIZE
    {
      var e := ArgError(len, flags, fd, off);
      if e.Some? {
        return Failed(e.value);
      }
      r := Place(curMem, len);
    }

    /** Do all of `[addr, addr + len)` lie in arena `i`? */
    ghost predicate Spans(i: int, addr: nat, len: nat)
      reads this
    {
      0 <= i < |arenas| && BaseOf(i) <= addr && addr + len <= BaseOf(i) + ARENA_SIZE
    }

    /** Was every byte of the range handed out (or skipped as padding) by arena `i`? */
    ghost predicate Owns(i: int, addr: nat, len: nat)
      requires 0 <= i < |arenas|
      reads this, arenas
    {
      Span(addr - BaseOf(i), addr - BaseOf(i) + len) <= arenas[i].Live + arenas[i].Pad
    }

    ghost predicate InOneArena(addr: nat, len: nat)
      reads this
    {
      exists i :: Spans(i, addr, len)
    }

    /** In bytes: arena `i` runs to where the next one starts. */
    lemma SpansBytes(i: nat, addr: nat, len: nat)
      requires i < |arenas| && len > 0
      ensures Spans(i, addr, len) <==> Span(addr, addr + len) <= Span(BaseOf(i), BaseOf(i + 1))
    {
      assert addr in Span(addr, addr + len) && addr + len - 1 in Span(addr, addr + len);
    }

    ghost predicate Owned(addr: nat, len: nat)
      reads this, arenas
    {
      exists i :: Spans(i, addr, len) && Owns(i, addr, len)
    }

    /** Give a range inside arena `i` back. */
    method FreeIn(i: nat, addr: nat, len: nat)
      requires Valid() && len > 0 && Spans(i, addr, len)
      modifies arenas[i]
      ensures Valid() <==> old(Owns(i, addr, len))
      ensures Span(addr, addr + len) <= old(LiveSet()) ==> Valid()
      ensures LiveSet() == old(LiveSet()) - Span(addr, addr + len)
    {
      hide ArenaOk, HoleBytes, Separated, InOrder, Absolute;
      LivesAreOffsets();
      if Span(addr, addr + len) <= LiveSet() { LiveRangeIsOwned(i, addr, len); }
      ghost var o := addr - BaseOf(i);
      var r := arenas[i].Free(addr, len);
      AbsoluteShrink(old(Lives()), i, o, o + len);
      assert Lives() == old(Lives())[i := old(Lives())[i] - Span(o, o + len)];
      assert arenas[i].Valid() <==> old(Owns(i, addr, len));
    }

    /** A length past the arena's end frees nothing. */
    method FreeTooLong(i: nat, addr: nat, len: nat)
      requires Valid() && i < |arenas| && len > ARENA_SIZE
      modifies arenas[i]
      ensures unchanged(arenas[i]) && Valid() && LiveSet() == old(LiveSet())
    {
      var r := arenas[i].Free(addr, len);
    }

    /** The first arena whose range test accepts `(addr, len)`; the test looks at 32 bits of `len`. */
    method FindArena(addr: nat, len: nat) returns (r: Option<nat>)
      requires Valid() && addr < U32
      ensures r.Some? ==> Spans(r.value, addr, len % U32)
      ensures r.None? ==> forall i :: !Spans(i, addr, len % U32)
    {
      for i := 0 to |arenas|
        invariant forall j :: 0 <= j < i ==> !Spans(j, addr, len % U32)
      {
        InRow(|arenas|, i);
        if arenas[i].Contains(addr, len) {
          return Some(i);
        }
      }
      return None;
    }

    /** Free a range. A length of 4 GiB or more can be accepted without freeing anything. */
    method Munmap(addr: nat, len: nat) returns (r: int)
      requires Valid() && addr < U32
      modifies arenas
      ensures r == 0 || r == -EINVAL
      ensures r == 0 <==> len == 0 || InOneArena(addr, len % U32)
      ensures len == 0 || !InOneArena(addr, len) ==>
                Valid() && LiveSet() == old(LiveSet()) && forall a :: a in arenas ==> unchanged(a)
      ensures len > 0 && InOneArena(addr, len) ==>
                && r == 0 && LiveSet() == old(LiveSet()) - Span(addr, addr + len)
                && (Valid() <==> old(Owned(addr, len)))
      ensures Span(addr, addr + len) <= old(LiveSet()) ==> Valid()
    {
      hide Tiled, LiveSet, Owned;
      if len == 0 {
        return 0;
      }
      var found := FindArena(addr, len);
      if found.None? {
        return -EINVAL;
      }
      assert InOneArena(addr, len % U32);
      FreeFound(found.value, addr, len);
      return 0;
    }

    /** Free in the arena that the range test found. */
    method FreeFound(i: nat, addr: nat, len: nat)
      requires Valid() && addr < U32 && len > 0 && Spans(i, addr, len % U32)
      modifies arenas[i]
      ensures InOneArena(addr, len) <==> len < U32
      ensures len >= U32 ==> Valid() && LiveSet() == old(LiveSet()) && unchanged(arenas[i])
      ensures len < U32 ==> LiveSet() == old(LiveSet()) - Span(addr, addr + len) && (Valid() <==> old(Owned(addr, len)))
      ensures Span(addr, addr + len) <= old(LiveSet()) ==> Valid()
    {
      if len >= U32 {
        FreeTooLong(i, addr, len);
      } else {
        OneArena(addr, len, i);
        FreeIn(i, addr, len);
      }
    }

    lemma OneArena(addr: nat, len: nat, i: nat)
      requires len > 0 && Spans(i, addr, len)
      ensures InOneArena(addr, len) && (Owned(addr, len) <==> Owns(i, addr, len))
    {
      assert forall j :: Spans(j, addr, len) ==> j == i;
    }

    /** A live range inside one arena is one that arena owns, so giving it back is safe. */
    lemma LiveRangeIsOwned(i: nat, addr: nat, len: nat)
      requires Tiled(arenas) && Spans(i, addr, len) && Span(addr, addr + len) <= LiveSet()
      ensures Owns(i, addr, len)
    {
      LivesAreOffsets();
      forall x | x in Span(addr - BaseOf(i), addr - BaseOf(i) + len) ensures x in arenas[i].Live {
        assert BaseOf(i) + x in Span(addr, addr + len);
        InAbsolute(Lives(), i, BaseOf(i) + x);
      }
    }

    /** Does `[addr, addr + len)` end at arena `i`'s bump pointer, with `extra` more bytes after it? */
    ghost predicate CanExtend(i: int, addr: nat, len: nat, extra: nat)
      reads this, arenas
    {
      && 0 <= i < |arenas| && arenas[i].base <= addr
      && addr - arenas[i].base + len == arenas[i].used && arenas[i].used + extra <= ARENA_SIZE
    }

    ghost predicate SomeCanExtend(addr: nat, len: nat, extra: nat)
      reads this, arenas
    {
      exists i :: CanExtend(i, addr, len, extra)
    }

    /** In absolute addresses: the range ends where arena `i` was last bumped to, and the new end is in it too. */
    lemma ExtendsIff(i: nat, addr: nat, len: nat, extra: nat)
      requires Valid() && i < |arenas|
      ensures CanExtend(i, addr, len, extra) <==>
              && BaseOf(i) <= addr && addr + len == BaseOf(i) + arenas[i].used
              && addr + len + extra <= BaseOf(i + 1)
    {
      assert arenas[i].base == BaseOf(i) && BaseOf(i + 1) == BaseOf(i) + ARENA_SIZE;
    }

    /** Extend arena `i`'s bump pointer by `extra` bytes. */
    method ExtendIn(i: nat, addr: nat, len: nat, extra: nat)
      requires Valid() && CanExtend(i, addr, len, extra)
      modifies arenas[i]
      ensures Valid()
      ensures Span(addr + len, addr + len + extra) !! old(LiveSet())
      ensures LiveSet() == old(LiveSet()) + Span(addr + len, addr + len + extra)
    {
      hide ArenaOk, HoleBytes, Separated, Absolute;
      LivesAreOffsets();
      ghost var o := arenas[i].used;
      arenas[i].Bump(arenas[i].used, arenas[i].used + extra);
      assert Span(o, o) == {};
      AbsoluteGrow(old(Lives()), i, o, o + extra);
      AbsoluteFresh(old(Lives()), i, o, o + extra);
      assert Lives() == old(Lives())[i := old(Lives())[i] + Span(o, o + extra)];
    }

    /** `mremap` without moving: a range that ends at its arena's bump pointer grows into the tail. */
    method GrowInPlace(addr: nat, oldLen: nat, newLen: nat) returns (r: Result<nat>)
      requires Valid()
      modifies arenas
      ensures Valid()
      ensures r == Ok(addr) || r == Err(-ENOMEM)
      ensures r.Ok? <==> newLen <= oldLen || old(SomeCanExtend(addr, oldLen, newLen - oldLen))
      ensures r.Err? || newLen <= oldLen ==>
                LiveSet() == old(LiveSet()) && forall a :: a in arenas ==> unchanged(a)
      ensures r.Ok? && oldLen < newLen ==>
                && Span(addr + oldLen, addr + newLen) !! old(LiveSet())
                && LiveSet() == old(LiveSet()) + Span(addr + oldLen, addr + newLen)
    {
      if newLen <= oldLen {
        return Ok(addr);
      }
      var extra := newLen - oldLen;
      for i := 0 to |arenas|
        invariant forall a :: a in arenas ==> unchanged(a)
        invariant Valid() && LiveSet() == old(LiveSet())
        invariant forall j :: 0 <= j < i ==> !old(CanExtend(j, addr, oldLen, extra))
      {
        assert arenas[i] in arenas;
        if arenas[i].base <= addr && addr - arenas[i].base + oldLen == arenas[i].used &&
            arenas[i].used + extra <= ARENA_SIZE {
          assert old(CanExtend(i, addr, oldLen, extra));
          ExtendIn(i, addr, oldLen, extra);
          return Ok(addr);
        }
      }
      return Err(-ENOMEM);
    }

    /** What a snapshot keeps of the arenas. */
    method Snapshot() returns (data: seq<ArenaData>)
      ensures |data| == |arenas| && forall i :: 0 <= i < |data| ==> data[i] == arenas[i].Data()
    {
      data := [];
      for i := 0 to |arenas|
        invariant |data| == i && forall k :: 0 <= k < i ==> data[k] == arenas[k].Data()
      {
        data := data + [arenas[i].Data()];
      }
    }

    /** Replace every arena by a rebuilt one. */
    method ReplaceFromSnapshot(data: seq<ArenaData>, mark: nat, ghost lives: seq<set<int>>, ghost pads: seq<set<int>>)
      requires |lives| == |pads| == |data|
      modifies this
      ensures highWater == mark && |arenas| == |data| && fresh(Parts())
      ensures forall i, j :: 0 <= i < j < |arenas| ==> arenas[i] != arenas[j]
      ensures forall i :: 0 <= i < |data| ==>
                            arenas[i].Data() == data[i] && arenas[i].Live == lives[i] && arenas[i].Pad == pads[i]
    {
      arenas, highWater := [], mark;
      for i := 0 to |data|
        invariant |arenas| == i && highWater == mark && fresh(Parts())
        invariant forall k, l :: 0 <= k < l < i ==> arenas[k] != arenas[l]
        invariant forall k :: 0 <= k < i ==>
                                arenas[k].Data() == data[k] && arenas[k].Live == lives[k] && arenas[k].Pad == pads[k]
      {
        var a := new Arena.FromData(data[i], lives[i], pads[i]);
        assert forall k :: 0 <= k < i ==> arenas[k] in Parts() && arenas[k] != a;
        arenas := arenas + [a];
      }
    }
  }

  /** What `mmap` handed out, `munmap` takes back: the live bytes are what they were. */
  method MapThenUnmap(mm: LinearAllocator, curMem: nat, len: nat, flags: bv32, fd: int, off: int)
    returns (d: MmapResult, r: int)
    requires mm.Valid() && curMem < U32
    modifies mm, mm.Parts()
    ensures d.Placed? ==> r == 0
    ensures mm.Valid() && mm.LiveSet() == old(mm.LiveSet())
  {
    hide LinearAllocator.Tiled, LinearAllocator.LiveSet, LinearAllocator.Owned, LinearAllocator.Rooms;
    hide LinearAllocator.CanPlace, LinearAllocator.CanPlaceTwice, First, ArgError;
    ghost var live := mm.LiveSet();
    d := mm.Mmap(curMem, len, flags, fd, off);
    if d.Placed? {
      ArgErrorIff(len, flags, fd, off);
      if mm.highWater != old(mm.highWater) { assert mm.Spans(|mm.arenas| - 1, d.addr, len); }
      assert mm.InOneArena(d.addr, len);
      assert Span(d.addr, d.addr + len) <= mm.LiveSet();
      r := mm.Munmap(d.addr, len);
      assert live + Span(d.addr, d.addr + len) - Span(d.addr, d.addr + len) == live;
    } else {
      r := -EINVAL;
    }
  }
}
