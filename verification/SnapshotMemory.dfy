/**
 The sparse page overlay of a snapshot: linear memory is saved as its non-zero 64 KiB pages
 (section 4.2.8 of the WebAssembly Core Specification 1.0) and copied back on restore
 (src/snapshot.rs).
 */
module SnapshotMemory {
  import opened Base
  import opened Bytes
  import opened Sorting

  datatype Page = Page(index: nat, bytes: seq<byte>) {
    function Start(): nat { index * PAGE_SIZE }
    function End(): nat { Start() + |bytes| }
  }

  /** Memory read with absent bytes as zero. */
  function ByteAt(data: seq<byte>, a: nat): byte {
    if a < |data| then data[a] else 0
  }

  ghost predicate Same(x: seq<byte>, y: seq<byte>) {
    forall a: nat :: ByteAt(x, a) == ByteAt(y, a)
  }

  predicate IsZeroPage(page: seq<byte>) {
    forall b :: b in page ==> b == 0
  }

  // ----- collecting -----

  ghost predicate Increasing(pages: seq<Page>) {
    forall i, j :: 0 <= i < j < |pages| ==> pages[i].index < pages[j].index
  }

  /** `p` is a whole page of `data` (or its shorter tail), and not all zero. */
  ghost predicate PageOf(data: seq<byte>, p: Page) {
    && p.Start() < p.End() <= |data| && |p.bytes| <= PAGE_SIZE
    && (p.End() == p.Start() + PAGE_SIZE || p.End() == |data|)
    && p.bytes == data[p.Start()..p.End()]
    && !IsZeroPage(p.bytes)
  }

  ghost predicate InPage(p: Page, a: int) {
    p.Start() <= a < p.End()
  }

  ghost predicate InPages(pages: seq<Page>, a: int) {
    exists i :: 0 <= i < |pages| && InPage(pages[i], a)
  }

  ghost predicate PagesOf(data: seq<byte>, pages: seq<Page>, n: nat) {
    forall i {:trigger PageOf(data, pages[i])} :: 0 <= i < |pages| ==> PageOf(data, pages[i]) && pages[i].End() <= n
  }

  /** Every non-zero byte below `n` lies in a page. */
  ghost predicate CoverUpTo(data: seq<byte>, pages: seq<Page>, n: nat) {
    forall a {:trigger InPages(pages, a)} :: 0 <= a < |data| && a < n && data[a] != 0 ==> InPages(pages, a)
  }

  /** `pages` are exactly the non-zero pages of the first `n` bytes of `data`, in order. */
  ghost predicate CollectedUpTo(data: seq<byte>, pages: seq<Page>, n: nat) {
    Increasing(pages) && PagesOf(data, pages, n) && CoverUpTo(data, pages, n)
  }

  ghost predicate Collected(data: seq<byte>, pages: seq<Page>) {
    CollectedUpTo(data, pages, |data|)
  }

  lemma PushPage(data: seq<byte>, pages: seq<Page>, p: Page)
    requires CollectedUpTo(data, pages, p.Start()) && PageOf(data, p)
    ensures CollectedUpTo(data, pages + [p], p.End())
  {
    var r, end := pages + [p], p.End();
    forall i | 0 <= i < |r| ensures PageOf(data, r[i]) && r[i].End() <= end {
      if i < |pages| { assert PageOf(data, pages[i]); }
    }
    forall i, j | 0 <= i < j < |r| ensures r[i].index < r[j].index {
      assert PageOf(data, pages[i]);
    }
    PushCovers(data, pages, p);
  }

  lemma PushCovers(data: seq<byte>, pages: seq<Page>, p: Page)
    requires CoverUpTo(data, pages, p.Start())
    ensures CoverUpTo(data, pages + [p], p.End())
  {
    var r := pages + [p];
    forall a | 0 <= a < |data| && a < p.End() && data[a] != 0 ensures InPages(r, a) {
      if a < p.Start() {
        assert InPages(pages, a);
        var i :| 0 <= i < |pages| && InPage(pages[i], a);
        assert InPage(r[i], a);
      } else {
        assert InPage(r[|pages|], a);
      }
    }
  }

  lemma SkipZeroPage(data: seq<byte>, pages: seq<Page>, lo: nat, hi: nat)
    requires lo <= hi <= |data| && CollectedUpTo(data, pages, lo) && IsZeroPage(data[lo..hi])
    ensures CollectedUpTo(data, pages, hi)
  {
    forall i | 0 <= i < |pages| ensures PageOf(data, pages[i]) && pages[i].End() <= hi {
      assert PageOf(data, pages[i]);
    }
    forall a | lo <= a < hi ensures data[a] == 0 { assert data[lo..hi][a - lo] in data[lo..hi]; }
    assert CoverUpTo(data, pages, hi);
  }

  /** Keep a chunk of memory if it is not all zero. */
  method KeepPage(data: seq<byte>, pages: seq<Page>, index: nat, end: nat) returns (r: seq<Page>)
    requires CollectedUpTo(data, pages, index * PAGE_SIZE)
    requires index * PAGE_SIZE < end <= |data| && end - index * PAGE_SIZE <= PAGE_SIZE &&
               (end == index * PAGE_SIZE + PAGE_SIZE || end == |data|)
    ensures CollectedUpTo(data, r, end)
  {
    var chunk := data[index * PAGE_SIZE..end];
    if !IsZeroPage(chunk) {
      PushPage(data, pages, Page(index, chunk));
      return pages + [Page(index, chunk)];
    }
    SkipZeroPage(data, pages, index * PAGE_SIZE, end);
    return pages;
  }

  /** Scan memory page by page and keep the pages that are not all zero. */
  method CollectPages(data: seq<byte>) returns (pages: seq<Page>)
    ensures Collected(data, pages)
  {
    pages := [];
    var pageIndex := 0;
    while pageIndex * PAGE_SIZE + PAGE_SIZE <= |data|
      invariant pageIndex * PAGE_SIZE <= |data| && CollectedUpTo(data, pages, pageIndex * PAGE_SIZE)
      decreases |data| - pageIndex * PAGE_SIZE
    {
      pages := KeepPage(data, pages, pageIndex, pageIndex * PAGE_SIZE + PAGE_SIZE);
      pageIndex := pageIndex + 1;
    }
    if pageIndex * PAGE_SIZE < |data| {
      pages := KeepPage(data, pages, pageIndex, |data|);
    }
  }

  // ----- applying -----

  datatype ApplyError = GrowFailed | OutOfBounds | EmptyPages

  datatype ApplyResult = Applied | Refused(why: ApplyError)

  /** One page more than the highest saved index. */
  function PagesNeeded(pages: seq<Page>): nat {
    if pages == [] then 0
    else
      var rest, last := PagesNeeded(pages[..|pages| - 1]), pages[|pages| - 1].index + 1;
      if rest < last then last else rest
  }

  ghost predicate Fit(size: nat, pages: seq<Page>) {
    forall i :: 0 <= i < |pages| ==> pages[i].End() <= size
  }

  /** Lay the pages over memory, in order. */
  ghost function Overlay(data: seq<byte>, pages: seq<Page>): (r: seq<byte>)
    requires Fit(|data|, pages)
    ensures |r| == |data|
  {
    if pages == [] then data
    else
      var last := pages[|pages| - 1];
      Splice(Overlay(data, pages[..|pages| - 1]), last.Start(), last.bytes)
  }

  ghost function Grown(data: seq<byte>, pages: seq<Page>): seq<byte> {
    var need, cur := PagesNeeded(pages), |data| / PAGE_SIZE;
    if need > cur then data + Zeros((need - cur) * PAGE_SIZE) else data
  }

  /** How a restore of at least one page ends: growth is tried first, then the pages are laid down. */
  ghost function Outcome(data: seq<byte>, pages: seq<Page>, maxPages: nat): ApplyResult {
    if PagesNeeded(pages) > |data| / PAGE_SIZE && |Grown(data, pages)| > maxPages * PAGE_SIZE then Refused(GrowFailed)
    else if Fit(|Grown(data, pages)|, pages) then Applied
    else Refused(OutOfBounds)
  }

  /** `after` is `data` with the pages before `i` laid over it; page `i` is the first that does not fit. */
  ghost predicate CopiedUpTo(data: seq<byte>, pages: seq<Page>, i: int, after: seq<byte>) {
    && 0 <= i < |pages| && Fit(|data|, pages[..i]) && pages[i].End() > |data|
    && after == Overlay(data, pages[..i])
  }

  class GuestMemory {
    var data: seq<byte>
    const maxPages: nat

    constructor (data: seq<byte>, maxPages: nat)
      ensures this.data == data && this.maxPages == maxPages
    {
      this.data, this.maxPages := data, maxPages;
    }

    /** Grow by zero pages; fails past the maximum. */
    method Grow(delta: nat) returns (ok: bool)
      modifies this
      ensures ok <==> |old(data)| + delta * PAGE_SIZE <= maxPages * PAGE_SIZE
      ensures data == if ok then old(data) + Zeros(delta * PAGE_SIZE) else old(data)
    {
      ok := |data| + delta * PAGE_SIZE <= maxPages * PAGE_SIZE;
      if ok {
        data := data + Zeros(delta * PAGE_SIZE);
      }
    }

    /** Copy each page to its place, stopping at the first that does not fit. */
    method CopyPages(pages: seq<Page>) returns (r: ApplyResult)
      modifies this
      ensures r == Applied || r == Refused(OutOfBounds)
      ensures r.Applied? <==> Fit(|old(data)|, pages)
      ensures |data| == |old(data)|
      ensures r.Applied? ==> data == Overlay(old(data), pages)
      ensures !r.Applied? ==> exists i :: CopiedUpTo(old(data), pages, i, data)
    {
      for i := 0 to |pages|
        invariant |data| == |old(data)| && Fit(|data|, pages[..i]) && data == Overlay(old(data), pages[..i])
      {
        var start, end := pages[i].Start(), pages[i].End();
        if end > |data| {
          assert CopiedUpTo(old(data), pages, i, data);
          return Refused(OutOfBounds);
        }
        assert pages[..i + 1][..i] == pages[..i];
        data := Splice(data, start, pages[i].bytes);
      }
      assert pages[..|pages|] == pages;
      return Applied;
    }

    /** Grow to the highest saved page, then copy. */
    method GrowAndCopy(pages: seq<Page>) returns (r: ApplyResult)
      requires pages != []
      modifies this
      ensures r == Outcome(old(data), pages, maxPages)
      ensures r == Refused(GrowFailed) ==> data == old(data)
      ensures r == Refused(OutOfBounds) ==> exists i :: CopiedUpTo(Grown(old(data), pages), pages, i, data)
      ensures r.Applied? ==> data == Overlay(Grown(old(data), pages), pages)
    {
      hide Overlay, Fit, CopiedUpTo;
      var targetPages := 0;
      for i := 0 to |pages|
        invariant targetPages == PagesNeeded(pages[..i])
      {
        assert pages[..i + 1][..i] == pages[..i];
        if targetPages < pages[i].index + 1 {
          targetPages := pages[i].index + 1;
        }
      }
      assert pages[..|pages|] == pages;
      var curPages := |data| / PAGE_SIZE;
      if targetPages > curPages {
        var ok := Grow(targetPages - curPages);
        if !ok {
          return Refused(GrowFailed);
        }
      }
      r := CopyPages(pages);
    }

    /** Restore into memory owned by one store; no pages, nothing to do. */
    method ApplyOwned(pages: seq<Page>) returns (r: ApplyResult)
      modifies this
      ensures r == if pages == [] then Applied else Outcome(old(data), pages, maxPages)
      ensures r == Refused(OutOfBounds) ==> exists i :: CopiedUpTo(Grown(old(data), pages), pages, i, data)
      ensures r.Applied? ==> Fit(|Grown(old(data), pages)|, pages) && data == Overlay(Grown(old(data), pages), pages)
      ensures r == Refused(GrowFailed) ==> data == old(data)
    {
      if pages == [] {
        return Applied;
      }
      r := GrowAndCopy(pages);
    }

    /** Restore into shared memory; no pages is an error here. */
    method ApplyShared(pages: seq<Page>) returns (r: ApplyResult)
      modifies this
      ensures r == if pages == [] then Refused(EmptyPages) else Outcome(old(data), pages, maxPages)
      ensures r == Refused(OutOfBounds) ==> exists i :: CopiedUpTo(Grown(old(data), pages), pages, i, data)
      ensures r.Applied? ==> Fit(|Grown(old(data), pages)|, pages) && data == Overlay(Grown(old(data), pages), pages)
      ensures r == Refused(GrowFailed) || r == Refused(EmptyPages) ==> data == old(data)
    {
      if pages == [] {
        return Refused(EmptyPages);
      }
      r := GrowAndCopy(pages);
    }
  }

  // ----- the round trip -----

  lemma InPagesLast(pages: seq<Page>, a: int)
    requires pages != []
    ensures InPages(pages, a) <==> InPages(pages[..|pages| - 1], a) || InPage(pages[|pages| - 1], a)
  {
    var rest := pages[..|pages| - 1];
    if InPages(rest, a) {
      var i :| 0 <= i < |rest| && InPage(rest[i], a);
      assert InPage(pages[i], a);
    }
    if InPages(pages, a) {
      var i :| 0 <= i < |pages| && InPage(pages[i], a);
      if i < |rest| { assert InPage(rest[i], a); }
    }
  }

  lemma PagesOfPrefix(src: seq<byte>, pages: seq<Page>, n: nat, k: nat)
    requires PagesOf(src, pages, n) && k <= |pages|
    ensures PagesOf(src, pages[..k], n)
  {
    var rest := pages[..k];
    forall i | 0 <= i < |rest| ensures PageOf(src, rest[i]) && rest[i].End() <= n { assert PageOf(src, pages[i]); }
  }

  lemma {:induction false} OverlayAt(src: seq<byte>, pages: seq<Page>, data: seq<byte>, a: nat)
    requires PagesOf(src, pages, |src|) && Fit(|data|, pages) && a < |data|
    ensures Overlay(data, pages)[a] == if InPages(pages, a) then ByteAt(src, a) else data[a]
  {
    if pages != [] {
      var n := |pages| - 1;
      var rest, last := pages[..n], pages[n];
      PagesOfPrefix(src, pages, |src|, n);
      OverlayAt(src, rest, data, a);
      InPagesLast(pages, a);
      SpliceAt(Overlay(data, rest), last.Start(), last.bytes, a);
      assert PageOf(src, pages[n]);
      PageByte(src, last, a);
    }
  }

  lemma PageByte(src: seq<byte>, p: Page, a: int)
    requires PageOf(src, p)
    ensures InPage(p, a) ==> 0 <= a < |src| && p.bytes[a - p.Start()] == src[a]
  {
  }

  lemma {:induction false} NeededBounds(pages: seq<Page>, i: nat)
    requires i < |pages|
    ensures pages[i].index < PagesNeeded(pages)
  {
    var n := |pages| - 1;
    if i < n {
      assert pages[..n][i] == pages[i];
      NeededBounds(pages[..n], i);
    }
  }

  lemma GrownSize(data: seq<byte>, pages: seq<Page>)
    ensures PagesNeeded(pages) * PAGE_SIZE <= |Grown(data, pages)|
    ensures |data| % PAGE_SIZE == 0 ==>
              |Grown(data, pages)| == Max(|data|, PagesNeeded(pages) * PAGE_SIZE)
  {
    var need, cur := PagesNeeded(pages), |data| / PAGE_SIZE;
    assert cur * PAGE_SIZE <= |data| < cur * PAGE_SIZE + PAGE_SIZE;
    if need > cur { assert (need - cur) * PAGE_SIZE == need * PAGE_SIZE - cur * PAGE_SIZE; }
  }

  /**
   After growing, every collected page fits, so restoring a collected overlay can fail only to grow;
   a page-multiple target ends with exactly the larger of its own and the needed page count.
   */
  lemma CollectedFits(src: seq<byte>, pages: seq<Page>, data: seq<byte>)
    requires Collected(src, pages)
    ensures Fit(|Grown(data, pages)|, pages)
    ensures |data| % PAGE_SIZE == 0 ==>
              |Grown(data, pages)| == Max(|data|, PagesNeeded(pages) * PAGE_SIZE)
  {
    GrownSize(data, pages);
    forall i | 0 <= i < |pages| ensures pages[i].End() <= |Grown(data, pages)| { PageFits(src, pages, i); }
  }

  lemma PageFits(src: seq<byte>, pages: seq<Page>, i: nat)
    requires PagesOf(src, pages, |src|) && i < |pages|
    ensures pages[i].End() <= PagesNeeded(pages) * PAGE_SIZE
  {
    hide IsZeroPage, PagesNeeded;
    assert PageOf(src, pages[i]);
    PageLength(src, pages[i]);
    NeededBounds(pages, i);
    Scaled(pages[i].index + 1, PagesNeeded(pages));
  }

  /** A saved page is whole, except for the tail of a memory that is not a whole number of pages. */
  lemma PageLength(src: seq<byte>, p: Page)
    requires PageOf(src, p)
    ensures p.End() <= p.index * PAGE_SIZE + PAGE_SIZE
    ensures |src| % PAGE_SIZE == 0 ==> |p.bytes| == PAGE_SIZE
  {
  }

  /**
   Collect then apply: the target agrees with the source at every address (absent bytes read as
   zero) exactly when the target held zero wherever no page was saved. A zero-filled target is the
   usual case.
   */
  lemma RestoreAgreesIff(src: seq<byte>, pages: seq<Page>, target: seq<byte>)
    requires Collected(src, pages) && Fit(|Grown(target, pages)|, pages)
    ensures Same(src, Overlay(Grown(target, pages), pages)) <==> ZeroOutside(target, pages)
  {
    var grown := Grown(target, pages);
    var after := Overlay(grown, pages);
    forall a: nat ensures ByteAt(src, a) == ByteAt(after, a) <==> InPages(pages, a) || ByteAt(target, a) == 0 {
      AgreesAt(src, pages, target, a);
    }
    if Same(src, after) {
      forall a | 0 <= a < |target| && !InPages(pages, a) ensures target[a] == 0 {
        assert ByteAt(src, a) == ByteAt(after, a);
      }
    }
  }

  lemma AgreesAt(src: seq<byte>, pages: seq<Page>, target: seq<byte>, a: nat)
    requires Collected(src, pages) && Fit(|Grown(target, pages)|, pages)
    ensures ByteAt(src, a) == ByteAt(Overlay(Grown(target, pages), pages), a) <==>
              InPages(pages, a) || ByteAt(target, a) == 0
  {
    var grown := Grown(target, pages);
    if InPages(pages, a) {
      var i :| 0 <= i < |pages| && InPage(pages[i], a);
      assert a < |grown|;
      OverlayAt(src, pages, grown, a);
    } else {
      assert ByteAt(src, a) == 0 by { assert CoverUpTo(src, pages, |src|); }
      if a < |grown| { OverlayAt(src, pages, grown, a); }
    }
  }

  // ----- collecting again -----

  lemma IndexOf(i: nat, a: nat)
    requires i * PAGE_SIZE <= a < i * PAGE_SIZE + PAGE_SIZE
    ensures i == a / PAGE_SIZE
  {
  }

  lemma SamePage(x: seq<byte>, p: Page, y: seq<byte>, q: Page)
    requires |x| % PAGE_SIZE == 0 && |y| % PAGE_SIZE == 0 && Same(x, y) && PageOf(x, p) && PageOf(y, q) &&
               p.index == q.index
    ensures p == q
  {
    PageLength(x, p);
    PageLength(y, q);
    forall i | 0 <= i < PAGE_SIZE ensures p.bytes[i] == q.bytes[i] {
      PageByte(x, p, p.Start() + i);
      PageByte(y, q, p.Start() + i);
      assert ByteAt(x, p.Start() + i) == ByteAt(y, p.Start() + i);
    }
  }

  lemma NonZeroByte(x: seq<byte>, p: Page) returns (a: nat)
    requires PageOf(x, p)
    ensures InPage(p, a) && ByteAt(x, a) != 0
  {
    var b :| b in p.bytes && b != 0;
    var k :| 0 <= k < |p.bytes| && p.bytes[k] == b;
    a := p.Start() + k;
    PageByte(x, p, a);
  }

  /** A page saved from one memory is saved, unchanged, from any whole-page memory that agrees with it. */
  lemma PageSavedAgain(x: seq<byte>, p: Page, y: seq<byte>, q: seq<Page>)
    requires |x| % PAGE_SIZE == 0 && |y| % PAGE_SIZE == 0 && Same(x, y) && PageOf(x, p) && Collected(y, q)
    ensures p in q
  {
    var a := NonZeroByte(x, p);
    assert ByteAt(x, a) == ByteAt(y, a);
    assert InPages(q, a);
    var j :| 0 <= j < |q| && InPage(q[j], a);
    assert PageOf(y, q[j]);
    PageLength(x, p);
    PageLength(y, q[j]);
    IndexOf(p.index, a);
    IndexOf(q[j].index, a);
    SamePage(x, p, y, q[j]);
  }

  /** Equal memories have equal overlays: restoring and collecting again gives the same pages. */
  lemma SameMemorySamePages(x: seq<byte>, p: seq<Page>, y: seq<byte>, q: seq<Page>)
    requires |x| % PAGE_SIZE == 0 && |y| % PAGE_SIZE == 0 && Same(x, y) && Collected(x, p) && Collected(y, q)
    ensures p == q
  {
    forall e | e in p ensures e in q {
      var i :| 0 <= i < |p| && p[i] == e;
      assert PageOf(x, p[i]);
      PageSavedAgain(x, e, y, q);
    }
    forall e | e in q ensures e in p {
      var i :| 0 <= i < |q| && q[i] == e;
      assert PageOf(y, q[i]);
      PageSavedAgain(y, e, x, p);
    }
    OneOrder(p, q, (a: Page, b: Page) => a.index < b.index);
  }

  /** Equal overlays come from equal memories. */
  lemma SamePagesSameMemory(x: seq<byte>, y: seq<byte>, pages: seq<Page>)
    requires Collected(x, pages) && Collected(y, pages)
    ensures Same(x, y)
  {
    forall a: nat ensures ByteAt(x, a) == ByteAt(y, a) {
      if InPages(pages, a) {
        var i :| 0 <= i < |pages| && InPage(pages[i], a);
        assert PageOf(x, pages[i]) && PageOf(y, pages[i]);
        PageByte(x, pages[i], a);
        PageByte(y, pages[i], a);
      } else {
        assert ByteAt(x, a) == 0 by { assert CoverUpTo(x, pages, |x|); }
        assert ByteAt(y, a) == 0 by { assert CoverUpTo(y, pages, |y|); }
      }
    }
  }

  /**
   Save a memory, restore it into `target` with either driver, save that. Only growth can fail; the
   target ends with the larger of its own and the saved size; and the second save equals the first
   exactly when the target held zero wherever no page was saved.
   */
  method SaveRestoreSave(src: seq<byte>, target: GuestMemory, shared: bool)
    returns (pages: seq<Page>, r: ApplyResult, again: seq<Page>)
    requires |src| % PAGE_SIZE == 0 && |target.data| % PAGE_SIZE == 0
    modifies target
    ensures Collected(src, pages)
    ensures shared && pages == [] ==> r == Refused(EmptyPages)
    ensures !(shared && pages == []) ==>
              r == if PagesNeeded(pages) * PAGE_SIZE <= Max(|old(target.data)|, target.maxPages * PAGE_SIZE) then
                     Applied
                   else
                     Refused(GrowFailed)
    ensures r.Applied? ==>
              && |target.data| == Max(|old(target.data)|, PagesNeeded(pages) * PAGE_SIZE)
              && (Same(src, target.data) <==> ZeroOutside(old(target.data), pages))
              && (again == pages <==> ZeroOutside(old(target.data), pages))
    ensures !r.Applied? ==> target.data == old(target.data)
  {
    pages := CollectPages(src);
    ghost var was := target.data;
    OnlyGrowthFails(src, pages, was, target.maxPages);
    if shared {
      r := target.ApplyShared(pages);
    } else {
      r := target.ApplyOwned(pages);
    }
    again := [];
    if r.Applied? {
      again := CollectPages(target.data);
      SavedAgainIff(src, pages, was, target.data, again);
    }
  }

  /** Collected pages always fit once memory has grown. */
  lemma OnlyGrowthFails(src: seq<byte>, pages: seq<Page>, data: seq<byte>, maxPages: nat)
    requires Collected(src, pages) && |data| % PAGE_SIZE == 0
    ensures Fit(|Grown(data, pages)|, pages) && |Grown(data, pages)| == Max(|data|, PagesNeeded(pages) * PAGE_SIZE)
    ensures Outcome(data, pages, maxPages) ==
            if PagesNeeded(pages) * PAGE_SIZE <= Max(|data|, maxPages * PAGE_SIZE) then Applied else Refused(GrowFailed)
  {
    CollectedFits(src, pages, data);
    Scaled(PagesNeeded(pages), |data| / PAGE_SIZE);
  }

  lemma SavedAgainIff(src: seq<byte>, pages: seq<Page>, was: seq<byte>, after: seq<byte>, again: seq<Page>)
    requires |src| % PAGE_SIZE == 0 && |after| % PAGE_SIZE == 0 && Collected(src, pages) && Collected(after, again)
    requires Fit(|Grown(was, pages)|, pages) && after == Overlay(Grown(was, pages), pages)
    ensures Same(src, after) <==> ZeroOutside(was, pages)
    ensures again == pages <==> ZeroOutside(was, pages)
  {
    RestoreAgreesIff(src, pages, was);
    if Same(src, after) { SameMemorySamePages(src, pages, after, again); }
    if again == pages { SamePagesSameMemory(src, after, pages); }
  }

  ghost predicate ZeroOutside(data: seq<byte>, pages: seq<Page>) {
    forall a :: 0 <= a < |data| && !InPages(pages, a) ==> data[a] == 0
  }

  /** Memory that is not zero keeps its old bytes where the saved memory had a zero page. */
  lemma OldBytesSurvive()
    ensures var src, target := Zeros(PAGE_SIZE), [1] + Zeros(PAGE_SIZE - 1);
            Collected(src, []) && Overlay(Grown(target, []), []) == target && !Same(src, target)
  {
    var src, target := Zeros(PAGE_SIZE), [1] + Zeros(PAGE_SIZE - 1);
    assert ByteAt(src, 0) != ByteAt(target, 0);
    assert forall a :: 0 <= a < |src| ==> src[a] == 0;
  }

  // ----- the allocator's memory after a restore -----

  lemma {:induction false} NeededReached(pages: seq<Page>, n: nat)
    requires 0 < n <= PagesNeeded(pages)
    ensures exists i :: 0 <= i < |pages| && pages[i].index >= n - 1
  {
    var k := |pages| - 1;
    if pages[k].index < n - 1 {
      NeededReached(pages[..k], n);
      var i :| 0 <= i < k && pages[..k][i].index >= n - 1;
      assert pages[i].index >= n - 1;
    }
  }

  lemma SavedReach(src: seq<byte>, pages: seq<Page>, n: nat)
    requires PagesOf(src, pages, |src|) && 0 < n <= PagesNeeded(pages)
    ensures NonZeroFrom(src, (n - 1) * PAGE_SIZE)
  {
    NeededReached(pages, n);
    var i :| 0 <= i < |pages| && pages[i].index >= n - 1;
    assert PageOf(src, pages[i]);
    var a := NonZeroByte(src, pages[i]);
    assert (n - 1) * PAGE_SIZE <= pages[i].Start() <= a;
    assert src[a] != 0;
  }

  lemma SavedFrom(src: seq<byte>, pages: seq<Page>, n: nat)
    requires Collected(src, pages) && n > 0 && NonZeroFrom(src, (n - 1) * PAGE_SIZE)
    ensures n <= PagesNeeded(pages)
  {
    var a :| 0 <= a < |src| && (n - 1) * PAGE_SIZE <= a && src[a] != 0;
    assert InPages(pages, a);
    var i :| 0 <= i < |pages| && InPage(pages[i], a);
    assert PageOf(src, pages[i]);
    PageLength(src, pages[i]);
    NeededBounds(pages, i);
    PageAtLeast(pages[i].index, n - 1, a);
  }

  lemma PageAtLeast(index: nat, n: nat, a: nat)
    requires n * PAGE_SIZE <= a < index * PAGE_SIZE + PAGE_SIZE
    ensures n <= index
  {
  }

  ghost predicate NonZeroFrom(data: seq<byte>, lo: int) {
    exists a :: 0 <= a < |data| && lo <= a && data[a] != 0
  }

  /**
   A snapshot keeps the allocator's high-water mark but not the size of memory. After a restore the
   arenas lie inside memory again exactly when the target was large enough by itself, or the saved
   memory had a non-zero byte in the last page below the mark or later.
   */
  lemma HighWaterSurvivesIff(src: seq<byte>, pages: seq<Page>, target: seq<byte>, highWater: nat)
    requires Collected(src, pages) && |target| % PAGE_SIZE == 0 && highWater % PAGE_SIZE == 0 && highWater > 0
    ensures highWater <= |Grown(target, pages)| <==> highWater <= |target| || NonZeroFrom(src, highWater - PAGE_SIZE)
  {
    var n, need := highWater / PAGE_SIZE, PagesNeeded(pages);
    assert highWater == n * PAGE_SIZE && n > 0;
    GrownSize(target, pages);
    assert (n - 1) * PAGE_SIZE == highWater - PAGE_SIZE;
    SavedIff(src, pages, n);
    Scaled(n, need);
  }

  lemma SavedIff(src: seq<byte>, pages: seq<Page>, n: nat)
    requires Collected(src, pages) && n > 0
    ensures n <= PagesNeeded(pages) <==> NonZeroFrom(src, (n - 1) * PAGE_SIZE)
  {
    if n <= PagesNeeded(pages) { SavedReach(src, pages, n); }
    if NonZeroFrom(src, (n - 1) * PAGE_SIZE) { SavedFrom(src, pages, n); }
  }

  lemma Scaled(n: nat, m: nat)
    ensures n <= m <==> n * PAGE_SIZE <= m * PAGE_SIZE
  {
  }

  /** Memory mapped but never written leaves no page behind, and a small target stays below the mark. */
  lemma HighWaterCanBeLost(highWater: nat)
    requires highWater > 0
    ensures Collected(Zeros(highWater), []) && |Grown([], [])| < highWater
  {
    var src := Zeros(highWater);
    assert forall a :: 0 <= a < |src| ==> src[a] == 0;
  }
}
