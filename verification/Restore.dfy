/**
 A whole restore as the memory syscalls see it: the allocator is rebuilt from its saved data, memory
 from its saved pages (src/mm/mod.rs, src/snapshot.rs).
 */
module Restore {
  import opened Base
  import opened Bytes
  import opened Arenas
  import opened Allocator
  import opened MemorySyscalls
  import opened SnapshotMemory

  ghost function LivesOf(arenas: seq<Arena>): (r: seq<set<int>>)
    reads arenas
    ensures |r| == |arenas| && forall i :: 0 <= i < |r| ==> r[i] == arenas[i].Live
  {
    seq(|arenas|, i requires 0 <= i < |arenas| reads arenas => arenas[i].Live)
  }

  ghost function PadsOf(arenas: seq<Arena>): (r: seq<set<int>>)
    reads arenas
    ensures |r| == |arenas| && forall i :: 0 <= i < |r| ==> r[i] == arenas[i].Pad
  {
    seq(|arenas|, i requires 0 <= i < |arenas| reads arenas => arenas[i].Pad)
  }

  /** Two arenas with the same data and the same live and padding bytes are consistent together. */
  lemma SameArena(a: Arena, b: Arena)
    requires a.Data() == b.Data() && a.Live == b.Live && a.Pad == b.Pad
    ensures a.Valid() <==> b.Valid()
  {
  }

  /** An allocator rebuilt from a consistent one's data is consistent, and has the same live bytes. */
  lemma RebuiltAllocator(a: LinearAllocator, b: LinearAllocator)
    requires a.Valid() && b.highWater == a.highWater && |b.arenas| == |a.arenas|
    requires forall i, j :: 0 <= i < j < |b.arenas| ==> b.arenas[i] != b.arenas[j]
    requires forall i :: 0 <= i < |a.arenas| ==>
               && a.arenas[i].Data() == b.arenas[i].Data()
               && a.arenas[i].Live == b.arenas[i].Live && a.arenas[i].Pad == b.arenas[i].Pad
    ensures b.Valid() && b.LiveSet() == a.LiveSet()
  {
    hide ArenaOk, Separated, Absolute;
    forall i | 0 <= i < |a.arenas| ensures b.arenas[i].Valid() { SameArena(a.arenas[i], b.arenas[i]); }
    assert b.Lives() == a.Lives();
  }

  /** Save the arenas of a process and rebuild them. */
  method RebuildArenas(p: MemorySyscalls.Process) returns (mm: LinearAllocator)
    requires p.mm.Valid()
    ensures mm.Valid() && mm.LiveSet() == p.Live() && mm.highWater == p.mm.highWater && |mm.arenas| == |p.mm.arenas|
  {
    hide LinearAllocator.Tiled, LinearAllocator.LiveSet;
    var data := p.mm.Snapshot();
    mm := new LinearAllocator();
    mm.ReplaceFromSnapshot(data, p.mm.highWater, LivesOf(p.mm.arenas), PadsOf(p.mm.arenas));
    RebuiltAllocator(p.mm, mm);
  }

  /** When the arenas lie inside memory after a restore, in terms of the frozen process and the target. */
  ghost predicate Reaches(mm: LinearAllocator, memory: seq<byte>, target: seq<byte>)
    reads mm
  {
    mm.arenas == [] || mm.highWater <= |target| || NonZeroFrom(memory, mm.highWater - PAGE_SIZE)
  }

  lemma MarkReached(src: seq<byte>, pages: seq<Page>, target: seq<byte>, n: nat)
    requires Collected(src, pages) && |target| % PAGE_SIZE == 0
    ensures BaseOf(n) <= |Grown(target, pages)| <==> BaseOf(n) <= |target| || NonZeroFrom(src, BaseOf(n) - PAGE_SIZE)
  {
    assert BaseOf(n) == (16 + 4 * n) * PAGE_SIZE;
    assert BaseOf(n) % PAGE_SIZE == 0;
    HighWaterSurvivesIff(src, pages, target, BaseOf(n));
  }

  /**
   Freeze a process and restore it: the allocator is consistent and has the frozen live bytes in any
   case; memory agrees with the frozen one if the target was zero outside the saved pages; and the
   arenas lie inside memory exactly when the target was large enough or the saved pages reach the
   high-water mark.
   */
  method FreezeRestore(p: MemorySyscalls.Process, target: GuestMemory, limit: nat)
    returns (q: MemorySyscalls.Process, r: ApplyResult, ghost pages: seq<Page>)
    requires p.Valid() && |target.data| % PAGE_SIZE == 0
    requires Max(|target.data|, target.maxPages * PAGE_SIZE) <= limit < U32
    modifies target
    ensures Collected(p.memory, pages)
    ensures q.Sound() && q.Live() == p.Live() && q.mm.highWater == p.mm.highWater
    ensures r == if PagesNeeded(pages) * PAGE_SIZE <= Max(|old(target.data)|, target.maxPages * PAGE_SIZE) then Applied
                 else Refused(GrowFailed)
    ensures r.Applied? ==> (Same(p.memory, q.memory) <==> ZeroOutside(old(target.data), pages))
    ensures r.Applied? ==> (q.Valid() <==> Reaches(p.mm, p.memory, old(target.data)))
  {
    hide LinearAllocator.Tiled, LinearAllocator.LiveSet, BaseOf;
    hide Collected, Same, Fit, Grown, ZeroOutside, NonZeroFrom, Overlay, Outcome, CopiedUpTo;
    var saved := CollectPages(p.memory);
    pages := saved;
    ghost var was := target.data;
    var mm := RebuildArenas(p);
    OnlyGrowthFails(p.memory, saved, was, target.maxPages);
    r := target.ApplyOwned(saved);
    RestoreAgreesIff(p.memory, saved, was);
    MarkReached(p.memory, saved, was, |p.mm.arenas|);
    q := new MemorySyscalls.Process.Of(mm, target.data, limit);
  }

  /**
   One arena with sixteen live bytes, restored into an empty memory: a request is placed outside it,
   and nothing is zeroed.
   */
  method MmapOutside() returns (p: MemorySyscalls.Process, r: int)
    ensures r >= 0 && p.memory == [] && p.Live() != {}
  {
    hide LinearAllocator.Tiled, LinearAllocator.LiveSet, LinearAllocator.CanPlace, LinearAllocator.CanPlaceTwice;
    hide Span, OnlyZeroed, Handed;
    var mm := new LinearAllocator();
    ghost var live := Span(0, 16);
    mm.ReplaceFromSnapshot([ArenaData(FIRST_ARENA_BASE, 16, [])], BaseOf(1), [live], [{}]);
    OneArenaValid(mm);
    p := new MemorySyscalls.Process.Of(mm, [], FIRST_ARENA_BASE);
    ghost var leaked;
    r, leaked := p.Mmap(8, MAP_ANONYMOUS | MAP_PRIVATE, -1, 0, true);
  }

  /** The same arena inside a memory that holds it: the last eight live bytes grow, in place, to the arena's end. */
  method MremapGrows(memory: seq<byte>) returns (p: MemorySyscalls.Process, r: int)
    requires BaseOf(1) <= |memory| < U32
    ensures p.Valid() && r == FIRST_ARENA_BASE + 8
    ensures p.Live() == Span(FIRST_ARENA_BASE, BaseOf(1))
  {
    hide LinearAllocator.Tiled, LinearAllocator.LiveSet, LinearAllocator.CanPlace, LinearAllocator.CanPlaceTwice;
    hide MremapError;
    var mm := new LinearAllocator();
    ghost var live := Span(0, 16);
    mm.ReplaceFromSnapshot([ArenaData(FIRST_ARENA_BASE, 16, [])], BaseOf(1), [live], [{}]);
    OneArenaValid(mm);
    OneArenaLive(mm);
    p := new MemorySyscalls.Process.Of(mm, memory, |memory|);
    var size := ARENA_SIZE - 8;
    MremapErrorIff(FIRST_ARENA_BASE + 8, 8, size, 0, 0);
    assert mm.CanExtend(0, FIRST_ARENA_BASE + 8, 8, size - 8);
    r := p.Mremap(FIRST_ARENA_BASE + 8, 8, size, 0, 0);
  }

  lemma OneArenaLive(mm: LinearAllocator)
    requires |mm.arenas| == 1 && mm.arenas[0].Live == Span(0, 16)
    ensures mm.LiveSet() == Span(FIRST_ARENA_BASE, FIRST_ARENA_BASE + 16)
  {
    var ls := mm.Lives();
    forall a ensures InSomeArena(ls, a) <==> a in Span(FIRST_ARENA_BASE, FIRST_ARENA_BASE + 16) {
      assert InArena(ls, 0, a) <==> a in Span(FIRST_ARENA_BASE, FIRST_ARENA_BASE + 16);
    }
    assert |ls| == 1 && BaseOf(1) >= FIRST_ARENA_BASE + 16;
    assert forall a :: a in Absolute(ls) <==> a in Span(FIRST_ARENA_BASE, FIRST_ARENA_BASE + 16);
  }

  lemma OneArenaValid(mm: LinearAllocator)
    requires |mm.arenas| == 1 && mm.highWater == BaseOf(1)
    requires mm.arenas[0].Data() == ArenaData(FIRST_ARENA_BASE, 16, [])
    requires mm.arenas[0].Live == Span(0, 16) && mm.arenas[0].Pad == {}
    ensures mm.Valid() && mm.CanPlace(0, 8) && mm.CanPlaceTwice(0, 8)
  {
    var a := mm.arenas[0];
    assert HoleBytes([]) == {};
    assert a.Valid();
    assert a.CanAlloc(8, 8) && a.CanAllocTwice(8, 8);
    assert mm.Rooms(8) == [true] && mm.RoomsAfter(8) == [true];
    RoomLeftAt([true], [true], 0);
    assert [true][0 := true] == [true];
  }
}
