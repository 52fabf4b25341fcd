/** Fixed-width little-endian integers and slice writes. */
module Bytes {
  import opened Base

  function Pow256(n: nat): (p: nat)
    ensures p > 0
  {
    if n == 0 then 1 else 256 * Pow256(n - 1)
  }

  /** The low `n` bytes of `x`, least significant first. */
  function LE(x: nat, n: nat): (bs: seq<byte>)
    ensures |bs| == n
  {
    if n == 0 then [] else [x % 256] + LE(x / 256, n - 1)
  }

  /** Byte `k` is the `k`-th digit to base 256, the lowest first. */
  lemma {:induction false} LEAt(x: nat, n: nat, k: nat)
    requires k < n
    ensures LE(x, n)[k] == x / Pow256(k) % 256
  {
    if k > 0 {
      LEAt(x / 256, n - 1, k - 1);
      assert LE(x, n)[k] == LE(x / 256, n - 1)[k - 1];
      DivTwice(x, Pow256(k - 1));
    }
  }

  lemma DivTwice(x: nat, m: nat)
    requires m > 0
    ensures x / (256 * m) == x / 256 / m
  {
    var q, r := x / 256 / m, x / 256 % m;
    assert x / 256 == m * q + r;
    assert x == 256 * (m * q + r) + x % 256;
    assert x == (256 * m) * q + (256 * r + x % 256);
    assert 0 <= 256 * r + x % 256 < 256 * m;
    Quotient(x, 256 * m, q, 256 * r + x % 256);
  }

  lemma Quotient(x: nat, m: nat, q: nat, r: nat)
    requires x == m * q + r && r < m
    ensures x / m == q
  {
    var d := x / m - q;
    assert x == m * (x / m) + x % m;
    assert m * d == r - x % m;
    assert d >= 1 ==> m * d >= m;
    assert d <= -1 ==> m * d + m <= 0;
  }

  function FromLE(bs: seq<byte>): nat {
    if bs == [] then 0 else bs[0] + 256 * FromLE(bs[1..])
  }

  lemma {:induction false} FromLEOfLE(x: nat, n: nat)
    requires x < Pow256(n)
    ensures FromLE(LE(x, n)) == x
  {
    if n > 0 {
      assert LE(x, n)[1..] == LE(x / 256, n - 1);
      FromLEOfLE(x / 256, n - 1);
    }
  }

  lemma Pow256Values()
    ensures Pow256(2) == 0x1_0000 && Pow256(4) == U32 && Pow256(8) == 0x1_0000_0000_0000_0000
  {
    assert Pow256(3) == 0x100_0000;
    assert Pow256(4) == U32;
    assert Pow256(6) == 0x1_0000_0000_0000;
  }

  /** A 16-bit number, most significant byte first. */
  function BE16(x: nat): (bs: seq<byte>)
    requires x < 0x1_0000
    ensures |bs| == 2
  {
    [x / 256, x % 256]
  }

  /** The same two bytes as little-endian, the other way round. */
  lemma BE16Reversed(x: nat)
    requires x < 0x1_0000
    ensures BE16(x) == [LE(x, 2)[1], LE(x, 2)[0]]
  {
    assert LE(x, 2)[1] == LE(x / 256, 1)[0];
  }

  function FromBE16(hi: int, lo: int): int {
    256 * hi + lo
  }

  function Zeros(n: nat): (bs: seq<byte>)
    ensures |bs| == n
  {
    seq(n, _ => 0)
  }

  /** Overwrite `buf` at `off` with `bs`. */
  function Splice(buf: seq<byte>, off: nat, bs: seq<byte>): (r: seq<byte>)
    requires off + |bs| <= |buf|
    ensures |r| == |buf|
    ensures r[off..off + |bs|] == bs
  {
    buf[..off] + bs + buf[off + |bs|..]
  }

  lemma SpliceElsewhere(buf: seq<byte>, off: nat, bs: seq<byte>, lo: nat, hi: nat)
    requires off + |bs| <= |buf| && lo <= hi <= |buf|
    requires hi <= off || off + |bs| <= lo
    ensures Splice(buf, off, bs)[lo..hi] == buf[lo..hi]
  {
    var r := Splice(buf, off, bs);
    assert forall k :: lo <= k < hi ==> r[k] == buf[k];
  }

  lemma SpliceAt(buf: seq<byte>, off: nat, bs: seq<byte>, a: nat)
    requires off + |bs| <= |buf| && a < |buf|
    ensures Splice(buf, off, bs)[a] == if off <= a < off + |bs| then bs[a - off] else buf[a]
  {
  }

  /** Two adjacent writes are one. */
  lemma SpliceTwice(buf: seq<byte>, off: nat, a: seq<byte>, b: seq<byte>)
    requires off + |a| + |b| <= |buf|
    ensures Splice(Splice(buf, off, a), off + |a|, b) == Splice(buf, off, a + b)
  {
  }

  /** A write inside what was just written. */
  lemma SpliceInside(buf: seq<byte>, off: nat, bs: seq<byte>, i: nat, z: seq<byte>)
    requires off + |bs| <= |buf| && i + |z| <= |bs|
    ensures Splice(Splice(buf, off, bs), off + i, z)[off..off + |bs|] == Splice(bs, i, z)
  {
    var r, s := Splice(Splice(buf, off, bs), off + i, z)[off..off + |bs|], Splice(bs, i, z);
    forall k | 0 <= k < |bs| ensures r[k] == s[k] {
      SpliceAt(buf, off, bs, off + k);
      SpliceAt(Splice(buf, off, bs), off + i, z, off + k);
      SpliceAt(bs, i, z, k);
    }
  }

  /** Writing what is already there changes nothing. */
  lemma SpliceSame(buf: seq<byte>, off: nat, bs: seq<byte>)
    requires off + |bs| <= |buf| && buf[off..off + |bs|] == bs
    ensures Splice(buf, off, bs) == buf
  {
    assert buf == buf[..off] + buf[off..off + |bs|] + buf[off + |bs|..];
  }

  /** `buf` holds `bs` at `off`. */
  ghost predicate Holds(buf: seq<byte>, off: nat, bs: seq<byte>) {
    off + |bs| <= |buf| && buf[off..off + |bs|] == bs
  }

  lemma HoldsKept(buf: seq<byte>, off: nat, bs: seq<byte>, at: nat, x: seq<byte>)
    requires Holds(buf, at, x) && off + |bs| <= |buf| && (off + |bs| <= at || at + |x| <= off)
    ensures Holds(Splice(buf, off, bs), at, x)
  {
    SpliceElsewhere(buf, off, bs, at, at + |x|);
  }

  lemma SubSlice(buf: seq<byte>, lo: nat, hi: nat, i: nat, j: nat)
    requires lo <= hi <= |buf| && i <= j <= hi - lo
    ensures buf[lo..hi][i..j] == buf[lo + i..lo + j]
  {
    var s, t := buf[lo..hi][i..j], buf[lo + i..lo + j];
    assert forall k :: 0 <= k < |s| ==> s[k] == t[k];
  }

  lemma FrontSlice(a: seq<byte>, b: seq<byte>, i: nat, j: nat)
    requires i <= j <= |a|
    ensures (a + b)[i..j] == a[i..j]
  {
  }

  lemma LastSlices(a: seq<byte>, b: seq<byte>, c: seq<byte>)
    ensures var r, i := a + (b + c), |a| + |b|;
            r[|a|..i] == b && r[i..i + |c|] == c
  {
  }
}
