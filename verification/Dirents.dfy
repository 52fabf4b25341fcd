/**
 Directory listings: the packed `linux_dirent64` records, `getdents64` over a cached listing, and
 `lseek` on a directory (src/vfs.rs, src/sys/file.rs).
 */
module Dirents {
  import opened Base
  import opened Bytes
  import opened Sorting

  const FIXED: nat := 19

  /** One directory entry. Inode numbers have 64 bits. */
  datatype Entry = Entry(ino: nat, kind: byte, name: seq<byte>)

  /** Names as a directory has them, and a record length that fits its 16 bits. */
  ghost predicate Encodable(e: Entry) {
    e.ino < Pow256(8) && 0 !in e.name && RecLen(e.name) < 0x1_0000
  }

  /** The fixed part, then the name and its NUL, rounded up to eight bytes. */
  function RecLen(name: seq<byte>): (n: nat)
    ensures FIXED + |name| + 1 <= n < FIXED + |name| + 9 && (n - FIXED) % 8 == 0
  {
    var nameLen := |name| + 1;
    var pad := (8 - nameLen % 8) % 8;
    FIXED + nameLen + pad
  }

  lemma ShortNamesFit(name: seq<byte>)
    requires |name| <= 255
    ensures RecLen(name) <= 275
  {
    assert RecLen(name) - FIXED <= 263;
  }

  function Resize(bs: seq<byte>, n: nat): (r: seq<byte>)
    ensures |r| == n
  {
    if n <= |bs| then bs[..n] else bs + Zeros(n - |bs|)
  }

  /** The fixed part of a record. */
  function Head(e: Entry, off: nat, reclen: nat): (bs: seq<byte>)
    ensures |bs| == FIXED
  {
    LE(e.ino, 8) + LE(off, 8) + LE(reclen, 2) + [e.kind]
  }

  /** One record. Its length is cut to 16 bits, and the record to that length. */
  function Encode(e: Entry, off: nat): (bs: seq<byte>)
    ensures |bs| == RecLen(e.name) % 0x1_0000
  {
    var reclen := RecLen(e.name) % 0x1_0000;
    Resize(Head(e, off, reclen) + e.name + [0], reclen)
  }

  /** The records of `es`, the first of them at position `at`. */
  function Listing(es: seq<Entry>, at: nat): seq<byte> {
    if es == [] then []
    else
      var rec := Encode(es[0], at + |es[0].name| + 24);
      rec + Listing(es[1..], at + |rec|)
  }

  /** The encoding loop over the entries sorted by name. */
  method ReaddirAll(sorted: seq<Entry>) returns (out: seq<byte>)
    ensures out == Listing(sorted, 0)
  {
    hide Remains, Listing, Encode;
    out := [];
    RemainsEnds(sorted, out);
    for i := 0 to |sorted|
      invariant Remains(sorted, i, out)
    {
      var e := sorted[i];
      ListingFrom(sorted, i, out);
      out := out + Encode(e, |out| + |e.name| + 24);
    }
    RemainsEnds(sorted, out);
  }

  /** `out` is the listing up to entry `i`. */
  ghost predicate Remains(es: seq<Entry>, i: nat, out: seq<byte>) {
    i <= |es| && Listing(es, 0) == out + Listing(es[i..], |out|)
  }

  lemma RemainsEnds(es: seq<Entry>, out: seq<byte>)
    ensures Remains(es, 0, [])
    ensures Remains(es, |es|, out) ==> out == Listing(es, 0)
  {
    assert es[0..] == es && es[|es|..] == [];
  }

  lemma ListingFrom(es: seq<Entry>, i: nat, out: seq<byte>)
    requires i < |es| && Remains(es, i, out)
    ensures Remains(es, i + 1, out + Encode(es[i], |out| + |es[i].name| + 24))
  {
    var rec := Encode(es[i], |out| + |es[i].name| + 24);
    assert es[i..][0] == es[i] && es[i..][1..] == es[i + 1..];
    assert |out + rec| == |out| + |rec|;
  }

  // ----- names in order -----

  /** Bytewise lexicographic order. */
  predicate LexLeq(a: seq<byte>, b: seq<byte>) {
    a == [] || (b != [] && (a[0] < b[0] || (a[0] == b[0] && LexLeq(a[1..], b[1..]))))
  }

  lemma {:induction false} LexAntisymmetric(a: seq<byte>, b: seq<byte>)
    requires LexLeq(a, b) && LexLeq(b, a)
    ensures a == b
  {
    if a != [] && b != [] {
      LexAntisymmetric(a[1..], b[1..]);
      assert a == [a[0]] + a[1..] && b == [b[0]] + b[1..];
    }
  }

  ghost predicate NamesSorted(es: seq<Entry>) {
    forall i, j :: 0 <= i < j < |es| ==> LexLeq(es[i].name, es[j].name)
  }

  ghost predicate NamesDistinct(es: seq<Entry>) {
    forall i, j :: 0 <= i < j < |es| ==> es[i].name != es[j].name
  }

  lemma NamesPermuted(xs: seq<Entry>, ys: seq<Entry>)
    requires multiset(xs) == multiset(ys) && NamesDistinct(xs)
    ensures NamesDistinct(ys)
  {
    SameMembers(xs, ys);
    OncePermuted(xs, ys);
    forall i, j | 0 <= i < j < |ys| ensures ys[i].name != ys[j].name {
      assert ys[i] in xs && ys[j] in xs;
      var a :| 0 <= a < |xs| && xs[a] == ys[i];
      var b :| 0 <= b < |xs| && xs[b] == ys[j];
      assert a != b;
    }
  }

  /** The order in which the host yields distinct names does not matter once they are sorted. */
  lemma SortedNamesUnique(xs: seq<Entry>, ys: seq<Entry>)
    requires multiset(xs) == multiset(ys) && NamesSorted(xs) && NamesSorted(ys) && NamesDistinct(xs)
    ensures xs == ys
  {
    var less := (a: Entry, b: Entry) => LexLeq(a.name, b.name) && a.name != b.name;
    SameMembers(xs, ys);
    NamesPermuted(xs, ys);
    forall x, y | x in xs && y in xs && less(x, y) ensures !less(y, x) {
      if LexLeq(y.name, x.name) { LexAntisymmetric(x.name, y.name); }
    }
    OneOrder(xs, ys, less);
  }

  // ----- reading a listing back -----

  /** The bytes before the first NUL. */
  function UpToNul(bs: seq<byte>): Option<seq<byte>> {
    if bs == [] then None
    else if bs[0] == 0 then Some([])
    else match UpToNul(bs[1..]) case None => None case Some(s) => Some([bs[0]] + s)
  }

  lemma {:induction false} UpToNulOf(name: seq<byte>, rest: seq<byte>)
    requires 0 !in name
    ensures UpToNul(name + [0] + rest) == Some(name)
  {
    if name != [] {
      assert (name + [0] + rest)[1..] == name[1..] + [0] + rest;
      UpToNulOf(name[1..], rest);
      assert [name[0]] + name[1..] == name && name[0] in name;
    }
  }

  datatype Record = Record(entry: Entry, reclen: nat)

  /** A reader of one record: fixed part, length, and the name up to its NUL inside the record. */
  function ReadRecord(bs: seq<byte>): (r: Option<Record>)
    ensures r.Some? ==> FIXED < r.value.reclen <= |bs|
  {
    if |bs| <= FIXED then None
    else
      var reclen := FromLE(bs[16..18]);
      if reclen <= FIXED || reclen > |bs| then None
      else
        match UpToNul(bs[FIXED..reclen])
        case None => None
        case Some(name) => Some(Record(Entry(FromLE(bs[0..8]), bs[18], name), reclen))
  }

  /** Follow the record lengths to the end of the bytes. */
  function ReadAll(bs: seq<byte>): Option<seq<Entry>>
    decreases |bs|
  {
    if bs == [] then Some([])
    else
      match ReadRecord(bs)
      case None => None
      case Some(rec) =>
        match ReadAll(bs[rec.reclen..])
        case None => None
        case Some(es) => Some([rec.entry] + es)
  }

  lemma HeadFields(e: Entry, off: nat, n: nat)
    ensures var h := Head(e, off, n);
            h[0..8] == LE(e.ino, 8) && h[8..16] == LE(off, 8) && h[16..18] == LE(n, 2) && h[18] == e.kind
  {
    var a, b, c := LE(e.ino, 8), LE(off, 8), LE(n, 2);
    assert Head(e, off, n) == a + (b + (c + [e.kind]));
    assert (b + (c + [e.kind]))[0..8] == b && (c + [e.kind])[0..2] == c;
  }

  /** The fields of a record where the reader looks for them. */
  lemma EncodeFields(e: Entry, off: nat)
    requires Encodable(e)
    ensures var bs, n := Encode(e, off), RecLen(e.name);
            && |bs| == n && bs[0..8] == LE(e.ino, 8) && bs[8..16] == LE(off, 8)
            && bs[16..18] == LE(n, 2) && bs[18] == e.kind
            && bs[FIXED..n] == e.name + [0] + Zeros(n - FIXED - |e.name| - 1)
  {
    var n := RecLen(e.name);
    var head, tail := Head(e, off, n), e.name + [0] + Zeros(n - FIXED - |e.name| - 1);
    assert n % 0x1_0000 == n;
    assert Encode(e, off) == head + tail;
    HeadFields(e, off, n);
    FrontSlice(head, tail, 0, 8);
    FrontSlice(head, tail, 8, 16);
    FrontSlice(head, tail, 16, 18);
    assert (head + tail)[18] == head[18] && (head + tail)[FIXED..] == tail;
  }

  lemma RecordReads(e: Entry, off: nat, rest: seq<byte>)
    requires Encodable(e)
    ensures ReadRecord(Encode(e, off) + rest) == Some(Record(e, RecLen(e.name)))
  {
    var bs, n := Encode(e, off), RecLen(e.name);
    EncodeFields(e, off);
    var all := bs + rest;
    assert all[0..8] == bs[0..8] && all[16..18] == bs[16..18] && all[18] == bs[18] && all[FIXED..n] == bs[FIXED..n];
    Pow256Values();
    FromLEOfLE(e.ino, 8);
    FromLEOfLE(n, 2);
    UpToNulOf(e.name, Zeros(n - FIXED - |e.name| - 1));
  }

  ghost predicate Decodes(bs: seq<byte>, es: seq<Entry>) {
    ReadAll(bs) == Some(es)
  }

  lemma ReadAllStep(e: Entry, off: nat, rest: seq<byte>)
    requires Encodable(e)
    ensures ReadAll(Encode(e, off) + rest) == match ReadAll(rest) case None => None case Some(es) => Some([e] + es)
  {
    var rec := Encode(e, off);
    RecordReads(e, off, rest);
    assert |rec| == RecLen(e.name) && (rec + rest)[|rec|..] == rest;
  }

  lemma ListingSplit(es: seq<Entry>, at: nat)
    requires es != [] && Encodable(es[0])
    ensures var rec, rest := Encode(es[0], at + |es[0].name| + 24), Listing(es[1..], at + RecLen(es[0].name));
            |rec| == RecLen(es[0].name) && Listing(es, at) == rec + rest
  {
    assert |Encode(es[0], at + |es[0].name| + 24)| == RecLen(es[0].name);
  }

  lemma ListingDecodes(es: seq<Entry>, at: nat)
    requires es != [] && Encodable(es[0]) && Decodes(Listing(es[1..], at + RecLen(es[0].name)), es[1..])
    ensures Decodes(Listing(es, at), es)
  {
    ListingSplit(es, at);
    ReadAllStep(es[0], at + |es[0].name| + 24, Listing(es[1..], at + RecLen(es[0].name)));
    assert [es[0]] + es[1..] == es;
  }

  ghost predicate AllEncodable(es: seq<Entry>) {
    forall i :: 0 <= i < |es| ==> Encodable(es[i])
  }

  /** Following record lengths through a listing recovers inode numbers, types and names in order. */
  lemma {:induction false} RoundTrip(es: seq<Entry>, at: nat)
    requires AllEncodable(es)
    ensures Decodes(Listing(es, at), es)
  {
    if es != [] {
      RoundTrip(es[1..], at + RecLen(es[0].name));
      ListingDecodes(es, at);
    }
  }

  // ----- where a listing may be cut -----

  /** The bytes the records of `es` take. */
  function Size(es: seq<Entry>): nat {
    if es == [] then 0 else RecLen(es[0].name) + Size(es[1..])
  }

  /** Is `n` the size of some number of leading entries? */
  ghost predicate EndsRecord(es: seq<Entry>, n: nat) {
    exists j :: 0 <= j <= |es| && Size(es[..j]) == n
  }

  lemma EndsRecordStep(es: seq<Entry>, n: nat)
    requires es != [] && n > 0
    ensures EndsRecord(es, n) <==> n >= RecLen(es[0].name) && EndsRecord(es[1..], n - RecLen(es[0].name))
  {
    var len := RecLen(es[0].name);
    if EndsRecord(es, n) {
      var j :| 0 <= j <= |es| && Size(es[..j]) == n;
      assert es[..j][1..] == es[1..][..j - 1];
      assert Size(es[1..][..j - 1]) == n - len;
    }
    if n >= len && EndsRecord(es[1..], n - len) {
      var j :| 0 <= j <= |es| - 1 && Size(es[1..][..j]) == n - len;
      assert es[..j + 1][1..] == es[1..][..j];
      assert Size(es[..j + 1]) == n;
    }
  }

  /** Less than a whole record does not read as one. */
  lemma CutRecord(e: Entry, off: nat, n: nat)
    requires Encodable(e) && n < RecLen(e.name)
    ensures ReadRecord(Encode(e, off)[..n]).None?
  {
    var bs := Encode(e, off)[..n];
    EncodeFields(e, off);
    if n > FIXED {
      assert bs[16..18] == LE(RecLen(e.name), 2);
      Pow256Values();
      FromLEOfLE(RecLen(e.name), 2);
    }
  }

  /** Do these bytes read as whole records? */
  ghost predicate Whole(bs: seq<byte>) {
    ReadAll(bs).Some?
  }

  lemma WholeStep(es: seq<Entry>, at: nat, n: nat)
    requires es != [] && Encodable(es[0]) && 0 < n <= |Listing(es, at)|
    ensures var len := RecLen(es[0].name);
            && |Listing(es, at)| == len + |Listing(es[1..], at + len)|
            && (Whole(Listing(es, at)[..n]) <==> n >= len && Whole(Listing(es[1..], at + len)[..n - len]))
  {
    hide Encode, ReadRecord, Listing, RecLen, Encodable;
    var off, len := at + |es[0].name| + 24, RecLen(es[0].name);
    var rec, rest := Encode(es[0], off), Listing(es[1..], at + len);
    ListingSplit(es, at);
    if n < len {
      assert (rec + rest)[..n] == rec[..n];
      CutRecord(es[0], off, n);
    } else {
      assert (rec + rest)[..n] == rec + rest[..n - len];
      ReadAllStep(es[0], off, rest[..n - len]);
    }
  }

  /** The first `n` bytes of a listing read as whole records exactly when they end at the end of one. */
  lemma {:induction false} WholeRecordsIff(es: seq<Entry>, at: nat, n: nat)
    requires AllEncodable(es) && n <= |Listing(es, at)|
    ensures Whole(Listing(es, at)[..n]) <==> EndsRecord(es, n)
  {
    if n == 0 {
      assert Size(es[..0]) == 0;
    } else {
      var len := RecLen(es[0].name);
      EndsRecordStep(es, n);
      WholeStep(es, at, n);
      if n >= len { WholeRecordsIff(es[1..], at + len, n - len); }
    }
  }

  /**
   A result of `getdents64` that starts at a record: a reader of that buffer alone sees whole records
   exactly when the buffer's length is the size of some number of the entries that remain.
   */
  lemma BufferIsWholeIff(es: seq<Entry>, i: nat, before: seq<byte>, chunk: seq<byte>)
    requires AllEncodable(es) && Remains(es, i, before) && before + chunk <= Listing(es, 0)
    ensures Whole(chunk) <==> EndsRecord(es[i..], |chunk|)
  {
    TailSlice(before, Listing(es[i..], |before|), chunk);
    WholeRecordsIff(es[i..], |before|, |chunk|);
  }

  lemma TailSlice(before: seq<byte>, rest: seq<byte>, chunk: seq<byte>)
    requires before + chunk <= before + rest
    ensures |chunk| <= |rest| && chunk == rest[..|chunk|]
  {
    assert chunk == (before + chunk)[|before|..];
    assert (before + rest)[|before|..|before| + |chunk|] == rest[..|chunk|];
  }

  // ----- a sequence of calls -----

  /** What lies between two positions of a listing. */
  function Between(all: seq<byte>, lo: nat, hi: nat): seq<byte>
    requires lo <= hi <= |all|
  {
    all[lo..hi]
  }

  /** Positions reached by a sequence of calls: they start at 0 and go on inside the listing. */
  ghost predicate Positions(es: seq<Entry>, cuts: seq<nat>) {
    && cuts != [] && cuts[0] == 0
    && (forall i, j :: 0 <= i <= j < |cuts| ==> cuts[i] <= cuts[j])
    && forall i :: 0 <= i < |cuts| ==> cuts[i] <= |Listing(es, 0)|
  }

  ghost predicate BufferWhole(es: seq<Entry>, cuts: seq<nat>, i: nat)
    requires Positions(es, cuts) && i + 1 < |cuts|
  {
    Whole(Between(Listing(es, 0), cuts[i], cuts[i + 1]))
  }

  lemma {:induction false} RemainsAt(es: seq<Entry>, j: nat)
    requires AllEncodable(es) && j <= |es|
    ensures Size(es[..j]) <= |Listing(es, 0)| && Remains(es, j, Listing(es, 0)[..Size(es[..j])])
  {
    if j == 0 {
      RemainsEnds(es, []);
      assert Listing(es, 0)[..0] == [] && es[..0] == [];
    } else {
      RemainsAt(es, j - 1);
      var before := Listing(es, 0)[..Size(es[..j - 1])];
      SizeSnoc(es, j);
      ListingFrom(es, j - 1, before);
      RemainsNext(es, j, before);
    }
  }

  lemma RemainsNext(es: seq<Entry>, j: nat, before: seq<byte>)
    requires 0 < j <= |es| && Encodable(es[j - 1])
    requires Remains(es, j, before + Encode(es[j - 1], |before| + |es[j - 1].name| + 24))
    ensures var n := |before| + RecLen(es[j - 1].name);
            n <= |Listing(es, 0)| && Remains(es, j, Listing(es, 0)[..n])
  {
    hide Listing;
    var out := before + Encode(es[j - 1], |before| + |es[j - 1].name| + 24);
    assert |out| == |before| + RecLen(es[j - 1].name);
    FrontSlice(out, Listing(es[j..], |out|), 0, |out|);
    assert out[0..|out|] == out;
  }

  lemma {:induction false} SizeSnoc(es: seq<Entry>, j: nat)
    requires 0 < j <= |es|
    ensures Size(es[..j]) == Size(es[..j - 1]) + RecLen(es[j - 1].name)
  {
    if j == 1 {
      assert es[..1] == [es[0]] && es[..0] == [];
    } else {
      SizeSnoc(es[1..], j - 1);
      assert es[..j][1..] == es[1..][..j - 1] && es[..j - 1][1..] == es[1..][..j - 2];
    }
  }

  /** From the end of a record on: sizes of leading entries and of the entries after them. */
  lemma EndsFrom(es: seq<Entry>, i: nat, n: nat)
    requires i <= |es|
    ensures EndsRecord(es[i..], n) <==> EndsRecord(es, Size(es[..i]) + n)
    decreases i
  {
    if i == 0 {
      assert es[0..] == es && es[..0] == [];
    } else {
      EndsFrom(es[1..], i - 1, n);
      assert es[1..][i - 1..] == es[i..] && es[..i][1..] == es[1..][..i - 1];
      EndsRecordStep(es, Size(es[..i]) + n);
    }
  }

  /** A result that starts at the end of a record reads as whole records iff it ends at the end of one. */
  lemma NextCutIff(es: seq<Entry>, lo: nat, hi: nat)
    requires AllEncodable(es) && lo <= hi <= |Listing(es, 0)| && EndsRecord(es, lo)
    ensures Whole(Between(Listing(es, 0), lo, hi)) <==> EndsRecord(es, hi)
  {
    hide Listing, Remains, Whole, Encodable;
    var all := Listing(es, 0);
    var i :| 0 <= i <= |es| && Size(es[..i]) == lo;
    RemainsAt(es, i);
    assert all[..lo] + all[lo..hi] == all[..hi];
    BufferIsWholeIff(es, i, all[..lo], all[lo..hi]);
    EndsFrom(es, i, hi - lo);
  }

  /** Every buffer of a sequence of calls reads as whole records iff every call ended at the end of a record. */
  lemma AllWholeIff(es: seq<Entry>, cuts: seq<nat>)
    requires AllEncodable(es) && Positions(es, cuts)
    ensures (forall i :: 0 <= i < |cuts| - 1 ==> BufferWhole(es, cuts, i)) <==>
            (forall i :: 0 <= i < |cuts| ==> EndsRecord(es, cuts[i]))
  {
    assert Size(es[..0]) == 0 && EndsRecord(es, 0);
    if forall i :: 0 <= i < |cuts| - 1 ==> BufferWhole(es, cuts, i) {
      forall i | 0 <= i < |cuts| ensures EndsRecord(es, cuts[i]) { EndsByWhole(es, cuts, i); }
    }
    if forall i :: 0 <= i < |cuts| ==> EndsRecord(es, cuts[i]) {
      forall i | 0 <= i < |cuts| - 1 ensures BufferWhole(es, cuts, i) { NextCutIff(es, cuts[i], cuts[i + 1]); }
    }
  }

  lemma {:induction false} EndsByWhole(es: seq<Entry>, cuts: seq<nat>, i: nat)
    requires AllEncodable(es) && Positions(es, cuts) && i < |cuts|
    requires forall k :: 0 <= k < i ==> BufferWhole(es, cuts, k)
    ensures EndsRecord(es, cuts[i])
  {
    if i == 0 {
      assert Size(es[..0]) == 0;
    } else {
      EndsByWhole(es, cuts, i - 1);
      assert BufferWhole(es, cuts, i - 1);
      NextCutIff(es, cuts[i - 1], cuts[i]);
    }
  }

  // ----- the directory stream -----

  /** What a descriptor number is: past 32 bits, nothing, not a file, or a file, maybe a directory with a known path. */
  datatype Slot = BadNumber | Closed | NotFile | File(isDir: bool, hasPath: bool)

  class DirStream {
    const slot: Slot
    var pos: nat
    var cache: Option<seq<byte>>
    var memory: seq<byte>
    /** The entries behind the cache, and all bytes handed out since the start or the last rewind. */
    ghost var entries: seq<Entry>
    ghost var got: seq<byte>

    /** What was handed out is the beginning of the listing, up to the position. */
    ghost predicate Valid()
      reads this
    {
      && |got| == pos && (cache.None? ==> pos == 0)
      && (cache.Some? ==> cache.value == Listing(entries, 0) && got <= cache.value)
    }

    constructor (slot: Slot, memory: seq<byte>)
      ensures Valid() && this.slot == slot && this.memory == memory && cache == None && got == []
    {
      this.slot, this.memory, pos, cache, got := slot, memory, 0, None, [];
    }

    predicate InMemory(ptr: int, len: int)
      reads this`memory
    {
      0 <= ptr && 0 <= len && ptr + len <= |memory|
    }

    /**
     `getdents64`. `host` is the sorted directory, read only if nothing is cached yet. The bytes handed
     out continue the listing, and 0 means that all of it was handed out.
     */
    method Getdents64(ptr: int, len: int, host: Result<seq<Entry>>) returns (r: int)
      requires Valid()
      modifies this`pos, this`cache, this`memory, this`entries, this`got
      ensures Valid()
      ensures slot.BadNumber? ==> r == -EBADF
      ensures !slot.BadNumber? && !old(InMemory(ptr, len)) ==> r == -EFAULT
      ensures !slot.BadNumber? && old(InMemory(ptr, len)) && len == 0 ==> r == -EINVAL
      ensures old(InMemory(ptr, len)) && len > 0 && (slot.Closed? || slot == File(true, false)) ==> r == -EBADF
      ensures old(InMemory(ptr, len)) && len > 0 && (slot.NotFile? || (slot.File? && !slot.isDir)) ==> r == -ENOTDIR
      ensures slot == File(true, true) && old(InMemory(ptr, len)) && len > 0 && old(cache).None? && host.Err? ==>
                r == host.errno
      ensures !(slot == File(true, true) && old(InMemory(ptr, len)) && len > 0 && (old(cache).Some? || host.Ok?)) ==>
                got == old(got) && cache == old(cache) && memory == old(memory)
      ensures slot == File(true, true) && old(InMemory(ptr, len)) && len > 0 && (old(cache).Some? || host.Ok?) ==>
                && entries == (if old(cache).Some? then old(entries) else host.value)
                && cache == Some(Listing(entries, 0))
                && 0 <= r <= len && |got| == |old(got)| + r && old(got) <= got <= Listing(entries, 0)
                && memory == Splice(old(memory), ptr, got[|old(got)|..])
                && (r == 0 <==> old(got) == Listing(entries, 0)) && (r < len ==> got == Listing(entries, 0))
    {
      if slot.BadNumber? {
        return -EBADF;
      }
      if !InMemory(ptr, len) {
        return -EFAULT;
      }
      if len == 0 {
        return -EINVAL;
      }
      match slot {
        case BadNumber =>
        case Closed => return -EBADF;
        case NotFile => return -ENOTDIR;
        case File(isDir, hasPath) =>
          if !isDir {
            return -ENOTDIR;
          }
          if !hasPath {
            return -EBADF;
          }
      }
      if cache.None? {
        if host.Err? {
          return host.errno;
        }
        var filled := ReaddirAll(host.value);
        cache := Some(filled);
        entries := host.value;
      }
      ghost var before := got;
      var all, start := cache.value, pos;
      if start >= |all| {
        assert got == all;
        assert got[|before|..] == [];
        SpliceSame(memory, ptr, []);
        return 0;
      }
      var end := if start + len < |all| then start + len else |all|;
      var slice := all[start..end];
      pos := end;
      got := all[..end];
      assert got[|before|..] == slice && before == all[..start];
      memory := Splice(memory, ptr, slice);
      return |slice|;
    }

    /** `lseek` on a directory: only a rewind is accepted, and the listing starts over from the same cache. */
    method Lseek(offset: int, setWhence: bool) returns (r: int)
      requires Valid() && (slot.File? ==> slot.isDir)
      modifies this`pos, this`got
      ensures Valid()
      ensures slot.File? && setWhence && offset == 0 ==> r == 0 && got == []
      ensures !(slot.File? && setWhence && offset == 0) ==>
                r == (if slot.BadNumber? || slot.Closed? then -EBADF else -ESPIPE) && got == old(got)
    {
      if slot.BadNumber? || slot.Closed? {
        return -EBADF;
      }
      if slot.NotFile? {
        return -ESPIPE;
      }
      if setWhence && offset == 0 {
        pos, got := 0, [];
        return 0;
      }
      return -ESPIPE;
    }
  }

  /** A buffer of one byte cuts the first record, whatever the entry. */
  method CutBuffer(memory: seq<byte>, ptr: nat, e: Entry) returns (d: DirStream, r: int)
    requires ptr < |memory| && Encodable(e)
    ensures r == 1 && |d.memory| == |memory| && d.memory[ptr..ptr + 1] == d.got && !Whole(d.got)
  {
    d := new DirStream(File(true, true), memory);
    OneRecord(e);
    r := d.Getdents64(ptr, 1, Ok([e]));
    assert d.got == Listing([e], 0)[..1] && d.got[0..] == d.got;
    WholeRecordsIff([e], 0, 1);
  }

  lemma OneRecord(e: Entry)
    requires Encodable(e)
    ensures |Listing([e], 0)| == RecLen(e.name) && !EndsRecord([e], 1)
  {
    ListingSplit([e], 0);
    assert [e][1..] == [];
    assert [e][..0] == [] && [e][..1] == [e];
    assert Size([e]) == RecLen(e.name);
  }
}
