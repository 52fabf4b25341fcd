/**
 The 256 KiB arena: a bump pointer plus a list of holes (src/mm/arena.rs).

 Offsets below are relative to the arena's base. The ghost sets `Live` and `Pad`
 name the bytes handed out and the bytes skipped by the bump pointer to reach an
 aligned offset; no real field records either.
 */
module Arenas {
  import opened Base
  import opened Sorting

  const ARENA_SIZE: nat := 256 * 1024

  /** A free range of offsets `[off, off + len)`. */
  datatype Hole = Hole(off: nat, len: nat) {
    function End(): nat { off + len }
  }

  /** An arena as a snapshot keeps it. */
  datatype ArenaData = ArenaData(base: nat, used: nat, freeList: seq<Hole>)

  ghost predicate Covers(h: Hole, x: int) {
    h.off <= x < h.End()
  }

  ghost predicate Covered(hs: seq<Hole>, x: int) {
    exists i :: 0 <= i < |hs| && Covers(hs[i], x)
  }

  ghost predicate Within(lo: int, x: int, hi: int) {
    lo <= x < hi
  }

  ghost function Span(lo: int, hi: int): set<int> {
    set x | lo <= x < hi && Within(lo, x, hi)
  }

  /** The free bytes a hole list describes. */
  ghost function HoleBytes(hs: seq<Hole>): set<int> {
    set x | 0 <= x < ARENA_SIZE && Covered(hs, x)
  }

  /** Non-empty, inside `[0, used)`, pairwise disjoint. */
  ghost predicate HolesOk(hs: seq<Hole>, used: nat) {
    && (forall i :: 0 <= i < |hs| ==> hs[i].len > 0 && hs[i].End() <= used)
    && Disjoint(hs)
  }

  ghost predicate Touch(g: Hole, h: Hole) {
    g.End() == h.off
  }

  /** No two holes touch, so each hole is a maximal run of free bytes. */
  ghost predicate Separated(hs: seq<Hole>) {
    forall i, j {:trigger Touch(hs[i], hs[j])} :: 0 <= i < |hs| && 0 <= j < |hs| ==> !Touch(hs[i], hs[j])
  }

  // ----- alignment -----

  /** Round up to a multiple of `a`; the mask form `(x + (a-1)) & !(a-1)` for a power of two. */
  function RoundUp(x: nat, a: nat): (r: nat)
    requires a > 0
    ensures x <= r < x + a && r % a == 0
  {
    if x % a == 0 then x
    else
      NextMultiple(x, a);
      x - x % a + a
  }

  lemma NextMultiple(x: nat, a: nat)
    requires a > 0
    ensures (x - x % a + a) % a == 0
  {
    var y := x - x % a + a;
    var d := x / a + 1 - y / a;
    assert y == a * (x / a) + a == a * (x / a + 1);
    assert y == a * (y / a) + y % a;
    assert a * d == y % a;
    assert d == 0;
  }

  // ----- best fit -----

  predicate Fits(h: Hole, len: nat, align: nat)
    requires align > 0
  {
    RoundUp(h.off, align) + len <= h.End()
  }

  /** Bytes left over when `len` bytes are taken at the first aligned offset of `h`. */
  function Waste(h: Hole, len: nat, align: nat): nat
    requires align > 0 && Fits(h, len, align)
  {
    h.End() - (RoundUp(h.off, align) + len)
  }

  /** A hole fits exactly when some aligned place in it has `len` bytes to the hole's end. */
  lemma FitsIff(h: Hole, len: nat, align: nat)
    requires align > 0
    ensures Fits(h, len, align) <==> exists o: nat :: FitsAt(h, o, len, align)
  {
    if Fits(h, len, align) { assert FitsAt(h, RoundUp(h.off, align), len, align); }
    if o: nat :| FitsAt(h, o, len, align) { LeastMultiple(h.off, align, o); }
  }

  ghost predicate FitsAt(h: Hole, o: nat, len: nat, align: nat)
    requires align > 0
  {
    o % align == 0 && h.off <= o && o + len <= h.off + h.len
  }

  lemma LeastMultiple(x: nat, a: nat, o: nat)
    requires a > 0 && o % a == 0 && x <= o
    ensures RoundUp(x, a) <= o
  {
    if x % a != 0 {
      Quotients(x, a);
      Quotients(o, a);
      NextUp(a, x / a, x % a, o / a);
    }
  }

  lemma Quotients(x: nat, a: nat)
    requires a > 0
    ensures x == a * (x / a) + x % a
  {
  }

  lemma NextUp(a: nat, p: nat, m: nat, q: nat)
    requires 0 < m && a * p + m <= a * q
    ensures a * p + a <= a * q
  {
    MulLess(a, p, q);
    MulLeq(a, p + 1, q);
    assert a * (p + 1) == a * p + a;
  }

  lemma MulLeq(a: nat, p: nat, q: nat)
    requires p <= q
    ensures a * p <= a * q
  {
  }

  lemma MulLess(a: nat, p: nat, q: nat)
    requires a * p < a * q
    ensures p < q
  {
    if q <= p { MulLeq(a, q, p); }
  }

  /** Waste counts the hole's bytes past the end of the allocation. */
  lemma WasteCounts(h: Hole, len: nat, align: nat)
    requires align > 0 && Fits(h, len, align)
    ensures Waste(h, len, align) == |Span(RoundUp(h.off, align) + len, h.off + h.len)|
  {
    SpanSize(RoundUp(h.off, align) + len, h.End());
  }

  /** `i` is the first of the fitting holes with the least waste. */
  ghost predicate BestFit(hs: seq<Hole>, i: nat, len: nat, align: nat)
    requires align > 0
  {
    && i < |hs| && Fits(hs[i], len, align)
    && (forall j :: 0 <= j < |hs| && Fits(hs[j], len, align) ==>
          Waste(hs[i], len, align) <= Waste(hs[j], len, align) &&
          (j < i ==> Waste(hs[i], len, align) < Waste(hs[j], len, align)))
  }

  /** `o` is the first aligned offset of the best hole, and `hs'` is the list without those bytes. */
  ghost predicate PlacedBestFit(hs: seq<Hole>, o: int, len: nat, align: nat, hs': seq<Hole>)
    requires align > 0
  {
    exists i: nat :: BestFit(hs, i, len, align) && o == RoundUp(hs[i].off, align) && hs' == Taken(hs, i, len, align)
  }

  /** An allocation succeeds exactly when some hole or the tail can take it. */
  ghost predicate HasRoom(hs: seq<Hole>, used: nat, len: nat, align: nat)
    requires align > 0
  {
    || SomeFits(hs, len, align)
    || RoundUp(used, align) + len <= ARENA_SIZE
  }

  /** After one allocation of `len` bytes, is there room for another? */
  ghost predicate RoomTwice(hs: seq<Hole>, used: nat, len: nat, align: nat)
    requires align > 0
  {
    if SomeFits(hs, len, align) then
      exists i: nat :: BestFit(hs, i, len, align) && HasRoom(Taken(hs, i, len, align), used, len, align)
    else RoundUp(used, align) + len <= ARENA_SIZE && HasRoom(hs, RoundUp(used, align) + len, len, align)
  }

  ghost predicate BestOf(hs: seq<Hole>, best: Option<nat>, len: nat, align: nat)
    requires align > 0
  {
    match best
    case None => forall j :: 0 <= j < |hs| ==> !Fits(hs[j], len, align)
    case Some(i) => BestFit(hs, i, len, align)
  }

  /** One more hole: it becomes the best if it fits and wastes less. */
  lemma BestNext(hs: seq<Hole>, i: nat, best: Option<nat>, len: nat, align: nat)
    requires align > 0 && i < |hs| && BestOf(hs[..i], best, len, align)
    ensures best.Some? ==> best.value < i && Fits(hs[best.value], len, align)
    ensures BestOf(hs[..i + 1],
                   if Fits(hs[i], len, align) &&
                      (best.None? || Waste(hs[i], len, align) < Waste(hs[best.value], len, align)) then Some(i)
                   else best, len, align)
  {
    hide Fits, Waste;
    assert hs[..i + 1] == hs[..i] + [hs[i]];
  }

  /** Fit and leftover as the search computes them. */
  lemma BySlack(h: Hole, len: nat, align: nat)
    requires align > 0
    ensures var slack := RoundUp(h.off, align) - h.off;
            && (Fits(h, len, align) <==> slack + len <= h.len)
            && (Fits(h, len, align) ==> Waste(h, len, align) == h.len - len - slack)
  {
  }

  ghost predicate SomeFits(hs: seq<Hole>, len: nat, align: nat)
    requires align > 0
  {
    exists i :: 0 <= i < |hs| && Fits(hs[i], len, align)
  }

  /** The list after an allocation in hole `i`. */
  ghost function Taken(hs: seq<Hole>, i: nat, len: nat, align: nat): seq<Hole>
    requires align > 0 && i < |hs| && Fits(hs[i], len, align)
  {
    Carve(hs, i, RoundUp(hs[i].off, align), RoundUp(hs[i].off, align) + len)
  }

  lemma OnlyBest(hs: seq<Hole>, i: nat, used: nat, len: nat, align: nat)
    requires align > 0 && BestFit(hs, i, len, align)
    ensures RoomTwice(hs, used, len, align) <==> HasRoom(Taken(hs, i, len, align), used, len, align)
  {
    assert SomeFits(hs, len, align);
    forall j: nat | BestFit(hs, j, len, align) ensures j == i { BestFitUnique(hs, i, j, len, align); }
  }

  /** Room after an allocation is what `RoomTwice` foretells. */
  lemma AllocThenRoom(hs: seq<Hole>, used: nat, hs': seq<Hole>, used': nat, o: int, len: nat, align: nat)
    requires align > 0
    requires SomeFits(hs, len, align) ==> used' == used && PlacedBestFit(hs, o, len, align, hs')
    requires !SomeFits(hs, len, align) ==> hs' == hs && used' == RoundUp(used, align) + len <= ARENA_SIZE
    ensures HasRoom(hs', used', len, align) <==> RoomTwice(hs, used, len, align)
  {
    if SomeFits(hs, len, align) {
      var i: nat :| BestFit(hs, i, len, align) && o == RoundUp(hs[i].off, align) && hs' == Taken(hs, i, len, align);
      OnlyBest(hs, i, used, len, align);
    }
  }

  lemma BestFitUnique(hs: seq<Hole>, i: nat, j: nat, len: nat, align: nat)
    requires align > 0 && BestFit(hs, i, len, align) && BestFit(hs, j, len, align)
    ensures i == j
  {
  }

  /** Remove index `i` by moving the last element into its place. */
  function SwapRemove(hs: seq<Hole>, i: nat): seq<Hole>
    requires i < |hs|
  {
    hs[i := hs[|hs| - 1]][..|hs| - 1]
  }

  /** The list left after taking `[lo, hi)` out of hole `i`. */
  function Carve(hs: seq<Hole>, i: nat, lo: nat, hi: nat): seq<Hole>
    requires i < |hs| && hs[i].off <= lo <= hi <= hs[i].End()
  {
    var h := hs[i];
    if lo == h.off && hi == h.End() then SwapRemove(hs, i)
    else if lo == h.off then hs[i := Hole(hi, h.End() - hi)]
    else if hi == h.End() then hs[i := Hole(h.off, lo - h.off)]
    else hs[i := Hole(h.off, lo - h.off)] + [Hole(hi, h.End() - hi)]
  }

  /** Every piece of a carved list lies inside one hole of the original. */
  lemma CarvePieces(hs: seq<Hole>, used: nat, i: nat, lo: nat, hi: nat, k: nat)
    requires HolesOk(hs, used)
    requires i < |hs| && hs[i].off <= lo <= hi <= hs[i].End()
    requires k < |Carve(hs, i, lo, hi)|
    ensures var c := Carve(hs, i, lo, hi); var f := CarvedFrom(hs, i, c, k);
            f < |hs| && hs[f].off <= c[k].off && c[k].End() <= hs[f].End() && c[k].len > 0
  {
  }

  /** Carving keeps the holes disjoint, and apart when the carved range is not empty. */
  lemma CarveKeeps(hs: seq<Hole>, used: nat, i: nat, lo: nat, hi: nat)
    requires HolesOk(hs, used)
    requires i < |hs| && hs[i].off <= lo <= hi <= hs[i].End()
    ensures HolesOk(Carve(hs, i, lo, hi), used)
    ensures Separated(hs) && lo < hi ==> Separated(Carve(hs, i, lo, hi))
  {
    var c := Carve(hs, i, lo, hi);
    forall k | 0 <= k < |c| ensures c[k].len > 0 && c[k].End() <= used {
      CarvePieces(hs, used, i, lo, hi, k);
    }
    forall k, l | 0 <= k < l < |c| ensures c[k].End() <= c[l].off || c[l].End() <= c[k].off {
      CarvePair(hs, used, i, lo, hi, k, l);
    }
    if Separated(hs) && lo < hi {
      forall k, l | 0 <= k < |c| && 0 <= l < |c| ensures !Touch(c[k], c[l]) {
        CarvePair(hs, used, i, lo, hi, k, l);
      }
    }
  }

  lemma CarvePair(hs: seq<Hole>, used: nat, i: nat, lo: nat, hi: nat, k: nat, l: nat)
    requires HolesOk(hs, used)
    requires i < |hs| && hs[i].off <= lo <= hi <= hs[i].End()
    requires k < |Carve(hs, i, lo, hi)| && l < |Carve(hs, i, lo, hi)|
    ensures var c := Carve(hs, i, lo, hi);
            && (k == l || c[k].End() <= c[l].off || c[l].End() <= c[k].off)
            && (Separated(hs) && lo < hi ==> !Touch(c[k], c[l]))
  {
    var c := Carve(hs, i, lo, hi);
    CarvePieces(hs, used, i, lo, hi, k);
    CarvePieces(hs, used, i, lo, hi, l);
    var f, g := CarvedFrom(hs, i, c, k), CarvedFrom(hs, i, c, l);
    if Separated(hs) { assert !Touch(hs[f], hs[g]); }
    if f < g {
      assert hs[f].End() <= hs[g].off || hs[g].End() <= hs[f].off;
    } else if g < f {
      assert hs[g].End() <= hs[f].off || hs[f].End() <= hs[g].off;
    }
  }

  /** Index of the hole that piece `k` of a carved list was part of. */
  ghost function CarvedFrom(hs: seq<Hole>, i: nat, c: seq<Hole>, k: nat): nat {
    if |c| < |hs| && k == i then |c| else if k == |hs| then i else k
  }

  lemma CarveBytes(hs: seq<Hole>, used: nat, i: nat, lo: nat, hi: nat)
    requires HolesOk(hs, used) && used <= ARENA_SIZE
    requires i < |hs| && hs[i].off <= lo <= hi <= hs[i].End()
    ensures Span(lo, hi) <= HoleBytes(hs)
    ensures HoleBytes(Carve(hs, i, lo, hi)) == HoleBytes(hs) - Span(lo, hi)
  {
    var c := Carve(hs, i, lo, hi);
    forall x | lo <= x < hi ensures Covered(hs, x) && !Covered(c, x) {
      assert Covers(hs[i], x);
      CarvedOut(hs, used, i, lo, hi, x);
    }
    forall x | Covered(c, x) ensures Covered(hs, x) {
      var k :| 0 <= k < |c| && Covers(c[k], x);
      if k == i || k == |hs| {
        if c == SwapRemove(hs, i) { assert Covers(hs[|hs| - 1], x); } else { assert Covers(hs[i], x); }
      } else {
        assert Covers(hs[k], x);
      }
    }
    forall x | Covered(hs, x) && !(lo <= x < hi) ensures Covered(c, x) {
      var k :| 0 <= k < |hs| && Covers(hs[k], x);
      if k != i {
        if k < |c| { assert Covers(c[k], x); } else { assert Covers(c[i], x); }
      } else if x < lo {
        assert Covers(c[i], x);
      } else {
        assert Covers(c[if lo == hs[i].off then i else |hs|], x);
      }
    }
  }

  lemma CarvedOut(hs: seq<Hole>, used: nat, i: nat, lo: nat, hi: nat, x: int)
    requires HolesOk(hs, used)
    requires i < |hs| && hs[i].off <= lo <= x < hi <= hs[i].End()
    ensures !Covered(Carve(hs, i, lo, hi), x)
  {
    var c := Carve(hs, i, lo, hi);
    forall k | 0 <= k < |c| ensures !Covers(c[k], x) {
      if k != i && k < |hs| { assert c[k] == hs[k]; }
    }
  }

  // ----- coalescing -----

  const OffKey: Hole -> int := (h: Hole) => h.off

  ghost predicate Disjoint(hs: seq<Hole>) {
    forall i, j :: 0 <= i < j < |hs| ==> hs[i].End() <= hs[j].off || hs[j].End() <= hs[i].off
  }

  /** Each hole ends before the later ones begin. */
  ghost predicate InOrder(hs: seq<Hole>) {
    forall k, l :: 0 <= k < l < |hs| ==> hs[k].End() <= hs[l].off
  }

  /** Holes before index `i` end strictly before the later ones begin. */
  ghost predicate GapsBefore(hs: seq<Hole>, i: int) {
    forall k, l :: 0 <= k < l < |hs| && k < i ==> hs[k].End() < hs[l].off
  }

  ghost predicate NonEmpty(hs: seq<Hole>) {
    forall k :: 0 <= k < |hs| ==> hs[k].len > 0
  }

  ghost predicate SameCover(hs: seq<Hole>, gs: seq<Hole>) {
    forall x :: Covered(hs, x) <==> Covered(gs, x)
  }

  /** Why a list is or is not disjoint: an overlap names two holes and a byte in both. */
  datatype Witness = Clear | Overlap(i: int, j: int, x: int)

  /** The merge loop's invariant at index `i`. */
  ghost predicate Merging(hs: seq<Hole>, i: int, w: Witness) {
    && SortedBy(hs, OffKey) && NonEmpty(hs)
    && match w
       case Clear => InOrder(hs) && GapsBefore(hs, i)
       case Overlap(k, l, x) => 0 <= k < l < |hs| && Covers(hs[k], x) && Covers(hs[l], x)
  }

  ghost function Initial(hs: seq<Hole>): (w: Witness)
    requires SortedBy(hs, OffKey) && NonEmpty(hs)
    ensures Merging(hs, 0, w) && (w.Clear? <==> Disjoint(hs))
  {
    if Disjoint(hs) then
      assert forall k, l :: 0 <= k < l < |hs| ==> OffKey(hs[k]) <= OffKey(hs[l]);
      Clear
    else
      var i, j :| 0 <= i < j < |hs| && !(hs[i].End() <= hs[j].off || hs[j].End() <= hs[i].off);
      Overlap(i, j, if hs[i].off < hs[j].off then hs[j].off else hs[i].off)
  }

  /** Replace holes `i` and `i + 1` by one hole of their joint length. */
  function Merged(hs: seq<Hole>, i: nat): seq<Hole>
    requires i + 1 < |hs|
  {
    hs[..i] + [Hole(hs[i].off, hs[i].len + hs[i + 1].len)] + hs[i + 2..]
  }

  lemma MergeCovers(hs: seq<Hole>, i: nat)
    requires i + 1 < |hs| && Touch(hs[i], hs[i + 1])
    ensures SameCover(Merged(hs, i), hs)
  {
    var m := Merged(hs, i);
    forall x ensures Covered(m, x) <==> Covered(hs, x) {
      if Covered(m, x) {
        var k :| 0 <= k < |m| && Covers(m[k], x);
        assert Covers(hs[if k < i then k else if k > i then k + 1 else if x < hs[i].End() then i else i + 1], x);
      }
      if Covered(hs, x) {
        var k :| 0 <= k < |hs| && Covers(hs[k], x);
        assert Covers(m[if k <= i then k else k - 1], x);
      }
    }
  }

  /** Piece `k` of a merged list starts where an old hole started and ends where one ended. */
  lemma MergedAt(hs: seq<Hole>, i: nat, k: nat)
    requires i + 1 < |hs| && Touch(hs[i], hs[i + 1]) && k < |hs| - 1
    ensures |Merged(hs, i)| == |hs| - 1
    ensures Merged(hs, i)[k].off == hs[if k <= i then k else k + 1].off
    ensures Merged(hs, i)[k].End() == hs[if k < i then k else k + 1].End()
  {
  }

  lemma MergePair(hs: seq<Hole>, i: nat, w: Witness, k: nat, l: nat)
    requires i + 1 < |hs| && Touch(hs[i], hs[i + 1]) && Merging(hs, i, w)
    requires k < l < |hs| - 1
    ensures var m := Merged(hs, i);
            && OffKey(m[k]) <= OffKey(m[l])
            && (w.Clear? ==> m[k].End() <= m[l].off && (k < i ==> m[k].End() < m[l].off))
  {
    MergedAt(hs, i, k);
    MergedAt(hs, i, l);
    var f, g, h := if k <= i then k else k + 1, if k < i then k else k + 1, if l <= i then l else l + 1;
    assert f < h && g < h;
    assert OffKey(hs[f]) <= OffKey(hs[h]);
    if w.Clear? { assert hs[g].End() <= hs[h].off; }
  }

  lemma MergeOverlap(hs: seq<Hole>, i: nat, w: Witness) returns (w': Witness)
    requires i + 1 < |hs| && Touch(hs[i], hs[i + 1]) && w.Overlap?
    requires 0 <= w.i < w.j < |hs| && Covers(hs[w.i], w.x) && Covers(hs[w.j], w.x)
    ensures w'.Overlap? && 0 <= w'.i < w'.j < |hs| - 1 == |Merged(hs, i)|
    ensures Covers(Merged(hs, i)[w'.i], w'.x) && Covers(Merged(hs, i)[w'.j], w'.x)
  {
    w' := Overlap(if w.i <= i then w.i else w.i - 1, if w.j <= i then w.j else w.j - 1, w.x);
    MergedAt(hs, i, w'.i);
    MergedAt(hs, i, w'.j);
  }

  lemma MergeSorted(hs: seq<Hole>, i: nat, w: Witness)
    requires i + 1 < |hs| && Touch(hs[i], hs[i + 1]) && Merging(hs, i, w)
    ensures var m := Merged(hs, i);
            && SortedBy(m, OffKey) && NonEmpty(m)
            && (w.Clear? ==> InOrder(m) && GapsBefore(m, i))
  {
    var m := Merged(hs, i);
    forall k, l | 0 <= k < l < |m|
      ensures OffKey(m[k]) <= OffKey(m[l])
      ensures w.Clear? ==> m[k].End() <= m[l].off && (k < i ==> m[k].End() < m[l].off)
    {
      MergePair(hs, i, w, k, l);
    }
  }

  /** Merging touching neighbours keeps the invariant; an overlap is never merged away. */
  lemma MergeStep(hs: seq<Hole>, i: nat, w: Witness) returns (w': Witness)
    requires i + 1 < |hs| && Touch(hs[i], hs[i + 1]) && Merging(hs, i, w)
    ensures Merging(Merged(hs, i), i, w') && w'.Clear? == w.Clear?
    ensures SameCover(Merged(hs, i), hs)
  {
    MergeCovers(hs, i);
    MergeSorted(hs, i, w);
    w' := w;
    if w.Overlap? { w' := MergeOverlap(hs, i, w); }
  }

  lemma AdvanceStep(hs: seq<Hole>, i: nat, w: Witness)
    requires i + 1 < |hs| && !Touch(hs[i], hs[i + 1]) && Merging(hs, i, w)
    ensures Merging(hs, i + 1, w)
  {
    if w.Clear? {
      forall l | i < l < |hs| ensures hs[i].End() < hs[l].off {
        assert OffKey(hs[i + 1]) <= OffKey(hs[l]) || l == i + 1;
      }
    }
  }

  lemma MergingDone(hs: seq<Hole>, i: nat, w: Witness)
    requires |hs| <= i + 1 && Merging(hs, i, w)
    ensures Disjoint(hs) <==> w.Clear?
    ensures w.Clear? ==> InOrder(hs) && Separated(hs)
  {
    if w.Clear? {
      forall k, l | 0 <= k < |hs| && 0 <= l < |hs| ensures !Touch(hs[k], hs[l]) {
        if l < k { assert hs[l].End() <= hs[k].off; }
      }
    }
  }

  /** Reordering a list changes neither what it covers nor whether it is disjoint. */
  lemma PermutedHoles(hs: seq<Hole>, gs: seq<Hole>)
    requires multiset(hs) == multiset(gs)
    ensures SameCover(hs, gs)
    ensures NonEmpty(hs) <==> NonEmpty(gs)
    ensures NonEmpty(hs) ==> (Disjoint(hs) <==> Disjoint(gs))
  {
    PermutedCover(hs, gs);
    PermutedCover(gs, hs);
    if NonEmpty(hs) {
      if Disjoint(hs) { PermutedDisjoint(hs, gs); }
      if Disjoint(gs) { PermutedDisjoint(gs, hs); }
    }
  }

  lemma PermutedCover(hs: seq<Hole>, gs: seq<Hole>)
    requires multiset(hs) == multiset(gs)
    ensures forall x :: Covered(hs, x) ==> Covered(gs, x)
    ensures NonEmpty(hs) ==> NonEmpty(gs)
  {
    SameMembers(hs, gs);
    forall x | Covered(hs, x) ensures Covered(gs, x) {
      var k :| 0 <= k < |hs| && Covers(hs[k], x);
      assert hs[k] in gs;
    }
    if NonEmpty(hs) {
      forall k | 0 <= k < |gs| ensures gs[k].len > 0 { assert gs[k] in hs; }
    }
  }

  lemma PermutedDisjoint(hs: seq<Hole>, gs: seq<Hole>)
    requires multiset(hs) == multiset(gs) && NonEmpty(hs) && Disjoint(hs)
    ensures Disjoint(gs)
  {
    SameMembers(hs, gs);
    assert DistinctKeys(hs, OffKey);
    DistinctPermuted(hs, gs, OffKey);
    forall i, j | 0 <= i < j < |gs| ensures gs[i].End() <= gs[j].off || gs[j].End() <= gs[i].off {
      assert OffKey(gs[i]) != OffKey(gs[j]);
      assert gs[i] in hs && gs[j] in hs;
      var a :| 0 <= a < |hs| && hs[a] == gs[i];
      var b :| 0 <= b < |hs| && hs[b] == gs[j];
      assert a < b || b < a;
    }
  }

  /** Freeing adds exactly the bytes of `h` to what the holes cover. */
  lemma FreedBytes(hs: seq<Hole>, h: Hole, gs: seq<Hole>)
    requires h.End() <= ARENA_SIZE && SameCover(gs, hs + [h])
    ensures HoleBytes(gs) == HoleBytes(hs) + Span(h.off, h.End())
    ensures forall x :: Covered(gs, x) <==> Covered(hs, x) || Covers(h, x)
  {
    PushCover(hs, h);
  }

  /** Pushing hole `h` keeps a list well formed exactly when `h` avoids the holes and the tail. */
  lemma FreedHolesOk(hs: seq<Hole>, h: Hole, gs: seq<Hole>, used: nat)
    requires HolesOk(hs, used) && h.len > 0 && h.End() <= ARENA_SIZE
    requires NonEmpty(gs) && SameCover(gs, hs + [h]) && (Disjoint(gs) <==> Disjoint(hs + [h]))
    ensures HolesOk(gs, used) <==> h.End() <= used && Span(h.off, h.End()) !! HoleBytes(hs)
  {
    FreedBytes(hs, h, gs);
    PushDisjoint(hs, h, used);
    if Span(h.off, h.End()) !! HoleBytes(hs) {
      forall x | Covers(h, x) ensures !Covered(hs, x) {
        assert x in Span(h.off, h.End());
        assert x !in HoleBytes(hs);
      }
    }
    if Disjoint(gs) {
      forall x | x in Span(h.off, h.End()) ensures x !in HoleBytes(hs) { assert Covers(h, x); }
    }
    if h.End() <= used {
      forall k | 0 <= k < |gs| ensures gs[k].End() <= used {
        assert Covers(gs[k], gs[k].End() - 1);
        assert Covered(gs, gs[k].End() - 1);
      }
    } else {
      assert Covered(gs, h.End() - 1);
    }
  }

  ghost predicate Partition(live: set<int>, pad: set<int>, free: set<int>, used: nat) {
    && live !! pad && live !! free && pad !! free
    && live + pad + free == Span(0, used)
  }

  ghost predicate ArenaOk(hs: seq<Hole>, used: nat, live: set<int>, pad: set<int>) {
    && used <= ARENA_SIZE
    && HolesOk(hs, used)
    && Partition(live, pad, HoleBytes(hs), used)
  }

  /** In a partitioned arena, "avoids the holes and the tail" is "was live or padding". */
  lemma FreedRange(live: set<int>, pad: set<int>, free: set<int>, used: nat, lo: nat, hi: nat)
    requires lo < hi && Partition(live, pad, free, used)
    ensures Span(lo, hi) <= live + pad <==> hi <= used && Span(lo, hi) !! free
    ensures var s := Span(lo, hi); s <= live + pad ==> Partition(live - s, pad - s, free + s, used)
  {
    assert hi - 1 in Span(lo, hi);
    assert hi <= used ==> Span(lo, hi) <= Span(0, used);
  }

  /** `gs` covers what `hs` covers, is disjoint exactly when `hs` is, and is then sorted and merged. */
  ghost predicate Coalesced(gs: seq<Hole>, hs: seq<Hole>) {
    && NonEmpty(gs) && SameCover(gs, hs) && (Disjoint(gs) <==> Disjoint(hs))
    && (Disjoint(gs) ==> InOrder(gs) && Separated(gs))
  }

  /** `gs` is `hs` with `h` given back: consistent exactly when `h` was live or padding. */
  ghost predicate Freed(hs: seq<Hole>, h: Hole, gs: seq<Hole>, used: nat, live: set<int>, pad: set<int>) {
    var s := Span(h.off, h.off + h.len);
    && HoleBytes(gs) == HoleBytes(hs) + s
    && (ArenaOk(gs, used, live - s, pad - s) <==> s <= live + pad)
    && (s <= live + pad ==> InOrder(gs) && Separated(gs))
  }

  lemma FreedArena(hs: seq<Hole>, h: Hole, gs: seq<Hole>, used: nat, live: set<int>, pad: set<int>)
    requires ArenaOk(hs, used, live, pad) && h.len > 0 && h.off + h.len <= ARENA_SIZE
    requires Coalesced(gs, hs + [h])
    ensures Freed(hs, h, gs, used, live, pad)
  {
    hide InOrder, Separated, HoleBytes, SameCover, Disjoint, NonEmpty, Covered;
    var s := Span(h.off, h.End());
    FreedBytes(hs, h, gs);
    FreedRange(live, pad, HoleBytes(hs), used, h.off, h.End());
    assert HolesOk(gs, used) <==> s <= live + pad by { FreedHolesOk(hs, h, gs, used); }
    assert s <= live + pad ==> Partition(live - s, pad - s, HoleBytes(gs), used);
  }

  lemma PushSorted(hs: seq<Hole>, h: Hole, used: nat, live: set<int>, pad: set<int>)
    requires ArenaOk(hs, used, live, pad) && h.len > 0
    ensures NonEmpty(hs + [h])
    ensures SortedBy(SortBy(hs + [h], OffKey), OffKey) && NonEmpty(SortBy(hs + [h], OffKey))
  {
    hide SortBy;
    SortBySorted(hs + [h], OffKey);
    PermutedHoles(hs + [h], SortBy(hs + [h], OffKey));
  }

  /** Sorting before merging does not show. */
  lemma CoalescedSorted(gs: seq<Hole>, hs: seq<Hole>)
    requires NonEmpty(hs) && Coalesced(gs, SortBy(hs, OffKey))
    ensures Coalesced(gs, hs)
  {
    hide SortBy, Disjoint, NonEmpty, Separated;
    SortBySorted(hs, OffKey);
    PermutedHoles(hs, SortBy(hs, OffKey));
  }

  lemma PushCover(hs: seq<Hole>, h: Hole)
    ensures forall x :: Covered(hs + [h], x) <==> Covered(hs, x) || Covers(h, x)
  {
    forall x ensures Covered(hs + [h], x) <==> Covered(hs, x) || Covers(h, x) {
      if Covered(hs, x) {
        var k :| 0 <= k < |hs| && Covers(hs[k], x);
        assert Covers((hs + [h])[k], x);
      }
      if Covers(h, x) { assert Covers((hs + [h])[|hs|], x); }
    }
  }

  lemma PushDisjoint(hs: seq<Hole>, h: Hole, used: nat)
    requires HolesOk(hs, used) && h.len > 0
    ensures Disjoint(hs + [h]) <==> forall x :: Covers(h, x) ==> !Covered(hs, x)
  {
    var p := hs + [h];
    if Disjoint(p) {
      forall x, k | Covers(h, x) && 0 <= k < |hs| ensures !Covers(hs[k], x) {
        assert p[k].End() <= p[|hs|].off || p[|hs|].End() <= p[k].off;
      }
    }
    if forall x :: Covers(h, x) ==> !Covered(hs, x) {
      forall i, j | 0 <= i < j < |p| ensures p[i].End() <= p[j].off || p[j].End() <= p[i].off {
        if j == |hs| {
          var x := if p[i].off < h.off then h.off else p[i].off;
          assert Covers(p[i], x) ==> Covered(hs, x);
        }
      }
    }
  }

  lemma {:induction false} SpanSize(lo: int, hi: int)
    requires lo <= hi
    ensures |Span(lo, hi)| == hi - lo
    decreases hi - lo
  {
    if lo < hi {
      SpanSize(lo, hi - 1);
      assert Span(lo, hi) == Span(lo, hi - 1) + {hi - 1};
    }
  }

  lemma HoleApart(hs: seq<Hole>, used: nat, i: nat)
    requires HolesOk(hs, used) && used <= ARENA_SIZE && i < |hs|
    ensures Span(hs[i].off, hs[i].End()) !! HoleBytes(hs[..i])
    ensures HoleBytes(hs[..i + 1]) == HoleBytes(hs[..i]) + Span(hs[i].off, hs[i].End())
  {
    PushCover(hs[..i], hs[i]);
    assert hs[..i + 1] == hs[..i] + [hs[i]];
    PushDisjoint(hs[..i], hs[i], used);
    forall x | x in Span(hs[i].off, hs[i].End()) ensures x !in HoleBytes(hs[..i]) { assert Covers(hs[i], x); }
  }

  lemma OneMoreHole(hs: seq<Hole>, used: nat, i: nat)
    requires HolesOk(hs, used) && used <= ARENA_SIZE && i < |hs|
    ensures |HoleBytes(hs[..i + 1])| == |HoleBytes(hs[..i])| + hs[i].len
  {
    hide HolesOk, HoleBytes, Span;
    HoleApart(hs, used, i);
    SpanSize(hs[i].off, hs[i].End());
  }

  /** Bytes `[o, o + len)` of an arena were not live and are live now. */
  ghost predicate TakenIn(before: set<int>, after: set<int>, o: int, len: nat) {
    && 0 <= o && o + len <= ARENA_SIZE && o % 8 == 0
    && Span(o, o + len) !! before && after == before + Span(o, o + len)
  }

  /** Does an empty arena hold two aligned requests of `len` bytes? */
  predicate HoldsTwo(len: nat) {
    RoundUp(len, 8) + len <= ARENA_SIZE
  }

  lemma EmptyHolds(len: nat)
    requires len <= ARENA_SIZE
    ensures HasRoom([], 0, len, 8) && (RoomTwice([], 0, len, 8) <==> HoldsTwo(len))
  {
  }

  /** `len` bytes of `free` from a multiple of `align` on. */
  ghost predicate AlignedRun(free: set<int>, o: nat, len: nat, align: nat)
    requires align > 0
  {
    o % align == 0 && Span(o, o + len) <= free
  }

  /** Is there such a run among the free bytes, or in the tail? */
  ghost predicate HasRun(free: set<int>, used: nat, len: nat, align: nat)
    requires align > 0
  {
    || (exists o: nat :: AlignedRun(free, o, len, align))
    || (exists o: nat :: AlignedRun(Span(used, ARENA_SIZE), o, len, align))
  }

  /** Holes that do not touch are maximal, so a run of free bytes lies in one of them. */
  lemma RunInOneHole(hs: seq<Hole>, used: nat, o: nat, len: nat) returns (k: nat)
    requires HolesOk(hs, used) && used <= ARENA_SIZE && Separated(hs) && len > 0 && Span(o, o + len) <= HoleBytes(hs)
    ensures k < |hs| && hs[k].off <= o && o + len <= hs[k].End()
  {
    assert o in Span(o, o + len);
    var i :| 0 <= i < |hs| && Covers(hs[i], o);
    k := i;
    EndNotFree(hs, used, k);
    assert hs[k].End() !in Span(o, o + len);
  }

  /** The byte after a hole is not free when no two holes touch. */
  lemma EndNotFree(hs: seq<Hole>, used: nat, k: nat)
    requires HolesOk(hs, used) && Separated(hs) && k < |hs|
    ensures hs[k].End() !in HoleBytes(hs)
  {
    var e := hs[k].End();
    forall l | 0 <= l < |hs| ensures !Covers(hs[l], e) {
      assert !Touch(hs[k], hs[l]);
      if k < l { assert hs[k].End() <= hs[l].off || hs[l].End() <= hs[k].off; }
      if l < k { assert hs[l].End() <= hs[k].off || hs[k].End() <= hs[l].off; }
    }
  }

  /** Room, in bytes: an aligned run of free bytes, or of the tail. */
  lemma RoomInBytes(hs: seq<Hole>, used: nat, len: nat, align: nat)
    requires HolesOk(hs, used) && used <= ARENA_SIZE && Separated(hs) && len > 0 && align > 0
    ensures HasRoom(hs, used, len, align) <==> HasRun(HoleBytes(hs), used, len, align)
  {
    HolesInBytes(hs, used, len, align);
    TailInBytes(used, len, align);
  }

  lemma HolesInBytes(hs: seq<Hole>, used: nat, len: nat, align: nat)
    requires HolesOk(hs, used) && used <= ARENA_SIZE && Separated(hs) && len > 0 && align > 0
    ensures SomeFits(hs, len, align) <==> exists o: nat :: AlignedRun(HoleBytes(hs), o, len, align)
  {
    if SomeFits(hs, len, align) {
      var i :| 0 <= i < |hs| && Fits(hs[i], len, align);
      var o := RoundUp(hs[i].off, align);
      forall x | x in Span(o, o + len) ensures x in HoleBytes(hs) { assert Covers(hs[i], x); }
      assert AlignedRun(HoleBytes(hs), o, len, align);
    }
    if o: nat :| AlignedRun(HoleBytes(hs), o, len, align) {
      var k := RunInOneHole(hs, used, o, len);
      LeastMultiple(hs[k].off, align, o);
      assert Fits(hs[k], len, align);
    }
  }

  lemma TailInBytes(used: nat, len: nat, align: nat)
    requires used <= ARENA_SIZE && len > 0 && align > 0
    ensures RoundUp(used, align) + len <= ARENA_SIZE <==>
            exists o: nat :: AlignedRun(Span(used, ARENA_SIZE), o, len, align)
  {
    var o := RoundUp(used, align);
    if o + len <= ARENA_SIZE { assert AlignedRun(Span(used, ARENA_SIZE), o, len, align); }
    if q: nat :| AlignedRun(Span(used, ARENA_SIZE), q, len, align) {
      assert q in Span(q, q + len) && q + len - 1 in Span(q, q + len);
      LeastMultiple(used, align, q);
    }
  }

  // ----- the arena -----

  class Arena {
    const base: nat
    var used: nat
    var freeList: seq<Hole>
    ghost var Live: set<int>
    ghost var Pad: set<int>

    ghost function FreeBytes(): set<int>
      reads this
    {
      HoleBytes(freeList)
    }

    /** Live bytes, lost padding and free holes partition `[0, used)`; the rest is tail. */
    ghost predicate Valid()
      reads this
    {
      ArenaOk(freeList, used, Live, Pad)
    }

    ghost predicate CanAlloc(len: nat, align: nat)
      requires align > 0
      reads this
    {
      HasRoom(freeList, used, len, align)
    }

    constructor (base: nat)
      ensures Valid() && Separated(freeList)
      ensures this.base == base && used == 0 && freeList == [] && Live == {} && Pad == {}
    {
      this.base := base;
      used, freeList, Live, Pad := 0, [], {}, {};
    }

    /** An arena rebuilt from its saved data; the ghost sets are whatever the saved arena's were. */
    constructor FromData(d: ArenaData, ghost live: set<int>, ghost pad: set<int>)
      ensures Data() == d && Live == live && Pad == pad
    {
      this.base := d.base;
      used, freeList, Live, Pad := d.used, d.freeList, live, pad;
    }

    function Data(): ArenaData
      reads this
    {
      ArenaData(base, used, freeList)
    }

    /** Best-fit search of the hole list. */
    method FindBest(len: nat, align: nat) returns (best: Option<nat>)
      requires align > 0
      ensures best.None? ==> forall j :: 0 <= j < |freeList| ==> !Fits(freeList[j], len, align)
      ensures best.Some? ==> BestFit(freeList, best.value, len, align)
    {
      hide RoundUp, Fits, Waste, BestFit;
      best := None;
      for i := 0 to |freeList|
        invariant BestOf(freeList[..i], best, len, align)
      {
        BestNext(freeList, i, best, len, align);
        BySlack(freeList[i], len, align);
        var slack := RoundUp(freeList[i].off, align) - freeList[i].off;
        if slack + len <= freeList[i].len {
          var waste := freeList[i].len - len - slack;
          if best.None? || waste < Waste(freeList[best.value], len, align) {
            best := Some(i);
          }
        }
      }
      assert freeList[..|freeList|] == freeList;
    }

    /** Take `[lo, hi)` out of hole `i`. */
    method TakeFrom(i: nat, lo: nat, hi: nat)
      requires Valid() && i < |freeList| && freeList[i].off <= lo <= hi <= freeList[i].End()
      modifies this`freeList, this`Live
      ensures Valid()
      ensures old(Separated(freeList)) && lo < hi ==> Separated(freeList)
      ensures Span(lo, hi) <= old(FreeBytes())
      ensures FreeBytes() == old(FreeBytes()) - Span(lo, hi)
      ensures Live == old(Live) + Span(lo, hi)
      ensures freeList == Carve(old(freeList), i, lo, hi)
    {
      var hole := freeList[i];
      CarveKeeps(freeList, used, i, lo, hi);
      CarveBytes(freeList, used, i, lo, hi);
      if lo == hole.off && hi == hole.End() {
        freeList := SwapRemove(freeList, i);
      } else if lo == hole.off {
        freeList := freeList[i := Hole(hi, hole.End() - hi)];
      } else if hi == hole.End() {
        freeList := freeList[i := Hole(hole.off, lo - hole.off)];
      } else {
        freeList := freeList[i := Hole(hole.off, lo - hole.off)] + [Hole(hi, hole.End() - hi)];
      }
      assert freeList == Carve(old(freeList), i, lo, hi);
      Live := Live + Span(lo, hi);
    }

    /** Take `[lo, hi)` from the tail; `[used, lo)` becomes padding. */
    method Bump(lo: nat, hi: nat)
      requires Valid() && used <= lo <= hi <= ARENA_SIZE
      modifies this`used, this`Live, this`Pad
      ensures Valid() && used == hi
      ensures Span(lo, hi) !! old(Live) && Live == old(Live) + Span(lo, hi)
      ensures Pad == old(Pad) + Span(old(used), lo)
    {
      assert forall x :: x in Live + Pad + FreeBytes() ==> x < used;
      assert Span(0, hi) == Span(0, used) + Span(used, lo) + Span(lo, hi);
      Live := Live + Span(lo, hi);
      Pad := Pad + Span(used, lo);
      used := hi;
    }

    ghost predicate SomeHoleFits(len: nat, align: nat)
      requires align > 0
      reads this
    {
      SomeFits(freeList, len, align)
    }

    ghost predicate CanAllocTwice(len: nat, align: nat)
      requires align > 0
      reads this
    {
      RoomTwice(freeList, used, len, align)
    }

    lemma RoomIsRun(len: nat, align: nat)
      requires Valid() && Separated(freeList) && len > 0 && align > 0
      ensures CanAlloc(len, align) <==> HasRun(FreeBytes(), used, len, align)
    {
      RoomInBytes(freeList, used, len, align);
    }

    /** Allocate in the best hole. */
    method TakeBest(i: nat, len: nat, align: nat) returns (o: nat)
      requires Valid() && align > 0 && BestFit(freeList, i, len, align)
      modifies this`freeList, this`Live
      ensures Valid() && (old(Separated(freeList)) && len > 0 ==> Separated(freeList))
      ensures old(SomeHoleFits(len, align)) && old(CanAlloc(len, align))
      ensures PlacedBestFit(old(freeList), o, len, align, freeList)
      ensures o + len <= ARENA_SIZE && Span(o, o + len) !! old(Live) && Live == old(Live) + Span(o, o + len)
      ensures FreeBytes() == old(FreeBytes()) - Span(o, o + len)
      ensures CanAlloc(len, align) <==> old(CanAllocTwice(len, align))
    {
      assert SomeFits(freeList, len, align);
      o := RoundUp(freeList[i].off, align);
      TakeFrom(i, o, o + len);
      assert freeList == Taken(old(freeList), i, len, align);
      AllocThenRoom(old(freeList), used, freeList, used, o, len, align);
    }

    /** Allocate in the tail, if it is long enough. */
    method TakeTail(len: nat, align: nat) returns (o: Option<nat>)
      requires Valid() && align > 0 && !SomeHoleFits(len, align)
      modifies this`used, this`Live, this`Pad
      ensures Valid() && (o.Some? <==> old(CanAlloc(len, align)))
      ensures o.None? ==> unchanged(this)
      ensures o.Some? ==>
                && o.value == RoundUp(old(used), align) && used == o.value + len <= ARENA_SIZE
                && Span(o.value, o.value + len) !! old(Live) && Live == old(Live) + Span(o.value, o.value + len)
                && Pad == old(Pad) + Span(old(used), o.value)
                && (CanAlloc(len, align) <==> old(CanAllocTwice(len, align)))
    {
      hide ArenaOk, Separated, HoleBytes, PlacedBestFit, BestFit;
      var bumpAligned := RoundUp(used, align);
      var newUsed := bumpAligned + len;
      if newUsed > ARENA_SIZE {
        return None;
      }
      Bump(bumpAligned, newUsed);
      AllocThenRoom(freeList, old(used), freeList, used, bumpAligned, len, align);
      return Some(bumpAligned);
    }

    /**
     Allocate `len` bytes at an offset that is a multiple of `align`; the address is
     absolute. Fails exactly when neither a hole nor the tail can hold the request.
     */
    method Alloc(len: nat, align: nat) returns (r: Option<nat>)
      requires Valid() && align > 0
      modifies this
      ensures Valid()
      ensures old(Separated(freeList)) && len > 0 ==> Separated(freeList)
      ensures r.Some? <==> old(CanAlloc(len, align))
      ensures old(Separated(freeList)) && len > 0 ==> (r.Some? <==> old(HasRun(FreeBytes(), used, len, align)))
      ensures r.None? ==> unchanged(this)
      ensures r.Some? ==> (CanAlloc(len, align) <==> old(CanAllocTwice(len, align)))
      ensures r.Some? ==>
                var o := r.value - base;
                && 0 <= o && o + len <= ARENA_SIZE
                && Span(o, o + len) !! old(Live)
                && Live == old(Live) + Span(o, o + len)
                && if old(SomeHoleFits(len, align)) then
                     && used == old(used) && Pad == old(Pad)
                     && FreeBytes() == old(FreeBytes()) - Span(o, o + len)
                     && PlacedBestFit(old(freeList), o, len, align, freeList)
                   else
                     && o == RoundUp(old(used), align) && used == o + len
                     && freeList == old(freeList) && Pad == old(Pad) + Span(old(used), o)
    {
      hide ArenaOk, Separated, HoleBytes, PlacedBestFit, BestFit, HasRun, HasRoom, RoomTwice, RoundUp, Span;
      if Separated(freeList) && len > 0 { RoomIsRun(len, align); }
      var best := FindBest(len, align);
      if best.Some? {
        var allocOff := TakeBest(best.value, len, align);
        return Some(base + allocOff);
      }
      var tail := TakeTail(len, align);
      return if tail.Some? then Some(base + tail.value) else None;
    }

    /** An allocation aligned to eight bytes, as the row of arenas sees it. */
    method AllocEight(len: nat) returns (r: Option<nat>)
      requires Valid() && Separated(freeList) && len > 0
      modifies this
      ensures Valid() && Separated(freeList)
      ensures r.Some? <==> old(CanAlloc(len, 8))
      ensures r.None? ==> unchanged(this)
      ensures r.Some? ==> base <= r.value && TakenIn(old(Live), Live, r.value - base, len)
      ensures r.Some? ==> (CanAlloc(len, 8) <==> old(CanAllocTwice(len, 8)))
      ensures r.Some? && old(used) == 0 ==> r.value == base
    {
      hide HasRun, HasRoom, RoomTwice;
      r := Alloc(len, 8);
    }

    /** Merge each hole with its right neighbour while the two touch; the list is sorted by offset. */
    method Coalesce()
      requires SortedBy(freeList, OffKey) && NonEmpty(freeList)
      modifies this`freeList
      ensures Coalesced(freeList, old(freeList))
    {
      ghost var w: Witness := Initial(freeList);
      var i := 0;
      while i + 1 < |freeList|
        invariant 0 <= i && (i < |freeList| || freeList == [])
        invariant Merging(freeList, i, w) && SameCover(freeList, old(freeList))
        invariant w.Clear? <==> old(Disjoint(freeList))
        decreases |freeList| - i
      {
        var a, b := freeList[i], freeList[i + 1];
        if a.End() == b.off {
          w := MergeStep(freeList, i, w);
          freeList := Merged(freeList, i);
        } else {
          AdvanceStep(freeList, i, w);
          i := i + 1;
        }
      }
      MergingDone(freeList, i, w);
    }

    /** Push a hole, sort by offset, merge neighbours. */
    method AddHole(h: Hole)
      requires Valid() && h.len > 0 && h.off + h.len <= ARENA_SIZE
      modifies this`freeList
      ensures Freed(old(freeList), h, freeList, used, Live, Pad)
    {
      hide ArenaOk, Freed, NonEmpty, Coalesced, SortedBy, SortBy;
      PushSorted(freeList, h, used, Live, Pad);
      freeList := freeList + [h];
      freeList := SortBy(freeList, OffKey);
      Coalesce();
      CoalescedSorted(freeList, old(freeList) + [h]);
      FreedArena(old(freeList), h, freeList, used, Live, Pad);
    }

    method Release(h: Hole)
      requires Valid() && h.len > 0 && h.off + h.len <= ARENA_SIZE
      modifies this`freeList, this`Live, this`Pad
      ensures Freed(old(freeList), h, freeList, used, old(Live), old(Pad))
      ensures Live == old(Live) - Span(h.off, h.off + h.len)
      ensures Pad == old(Pad) - Span(h.off, h.off + h.len)
    {
      AddHole(h);
      Live := Live - Span(h.off, h.off + h.len);
      Pad := Pad - Span(h.off, h.off + h.len);
    }

    /**
     Give `[off, off + len)` back. Only the arena's bounds are checked, so the caller decides
     whether the range was handed out: the arena stays valid exactly when it was.
     */
    method Free(off: nat, len: nat) returns (r: bool)
      requires Valid()
      modifies this
      ensures r <==> len > 0 && base <= off && off - base + len <= ARENA_SIZE
      ensures !r ==> unchanged(this)
      ensures used == old(used)
      ensures r ==>
                var h := Hole(off - base, len);
                && Freed(old(freeList), h, freeList, used, old(Live), old(Pad))
                && Live == old(Live) - Span(h.off, h.off + h.len)
                && Pad == old(Pad) - Span(h.off, h.off + h.len)
    {
      hide Freed, ArenaOk, Span;
      if len == 0 || off < base {
        return false;
      }
      var o := off - base;
      if o + len > ARENA_SIZE {
        return false;
      }
      Release(Hole(o, len));
      return true;
    }

    /** Is `[off, off + len)` inside the arena? The length is cut to 32 bits first. */
    predicate Contains(off: nat, len: nat) {
      var end := off + len % U32;
      end < U32 && base <= off && end <= base + ARENA_SIZE
    }

    /** Bytes left for new allocations, counted from the holes and the tail alone. */
    method Available() returns (n: nat)
      requires Valid()
      ensures n + |Live| + |Pad| == ARENA_SIZE
    {
      var inFree := 0;
      for i := 0 to |freeList|
        invariant inFree == |HoleBytes(freeList[..i])|
      {
        OneMoreHole(freeList, used, i);
        inFree := inFree + freeList[i].len;
      }
      assert freeList[..|freeList|] == freeList;
      SpanSize(0, used);
      assert |Live + Pad + FreeBytes()| == |Live| + |Pad| + |FreeBytes()|;
      n := ARENA_SIZE - used + inFree;
    }
  }

  /** Freeing bytes that were never handed out is accepted, and the arena is no longer consistent. */
  method FreeOfNothing(base: nat) returns (a: Arena, r: bool)
    ensures r && !a.Valid()
  {
    a := new Arena(base);
    r := a.Free(base, 8);
    assert 0 in Span(0, 8);
  }
}
