/**
 The getaddrinfo payload: a linked list of `addrinfo` nodes laid out with a variable stride
 (src/sys/resolver.rs; getaddrinfo is section 6.1 and sockaddr_in6 section 3.3 of RFC 3493).
 */
module Resolver {
  import opened Base
  import opened Bytes

  const ADDRINFO_SIZE: nat := 32
  const SOCKADDR_IN_SIZE: nat := 16
  const SOCKADDR_IN6_SIZE: nat := 28
  const MAX_RESOLVER_SCRATCH_BYTES: nat := 4096
  const RESOLVER_SCRATCH_BASE: nat := 8192
  const EAI_NONAME := -2
  const EAI_MEMORY := -10
  const EAI_SYSTEM := -11

  type Octets4 = s: seq<byte> | |s| == 4 witness [0, 0, 0, 0]
  type Octets16 = s: seq<byte> | |s| == 16 witness [0, 0, 0, 0, 0, 0, 0, 0, 0, 0, 0, 0, 0, 0, 0, 0]
  type u16 = x: nat | x < 0x1_0000
  type u32 = x: nat | x < 0x1_0000_0000

  datatype IpAddr = V4(v4: Octets4) | V6(v6: Octets16)

  /** The fields every node of one answer shares; signed ones as their 32-bit pattern. */
  datatype Hints = Hints(flags: u32, socktype: u32, protocol: u32, port: u16)

  function Family(ip: IpAddr): u32 { if ip.V4? then 2 else 10 }

  function SockLen(ip: IpAddr): nat { if ip.V4? then SOCKADDR_IN_SIZE else SOCKADDR_IN6_SIZE }

  // ----- layout -----

  /** Where node `i` starts: the sum of the sizes of the nodes before it. */
  function NodeOff(addrs: seq<IpAddr>, i: nat): nat
    requires i <= |addrs|
  {
    if i == 0 then 0 else NodeOff(addrs, i - 1) + ADDRINFO_SIZE + SockLen(addrs[i - 1])
  }

  lemma {:induction false} NodeOffMonotone(addrs: seq<IpAddr>, i: nat, j: nat)
    requires i < j <= |addrs|
    ensures NodeOff(addrs, i) + ADDRINFO_SIZE + SockLen(addrs[i]) <= NodeOff(addrs, j)
    decreases j
  {
    if i < j - 1 { NodeOffMonotone(addrs, i, j - 1); }
  }

  function NextOff(addrs: seq<IpAddr>, i: nat): nat
    requires i < |addrs|
  {
    if i + 1 < |addrs| then NodeOff(addrs, i + 1) else 0
  }

  function Words(a: nat, b: nat, c: nat, d: nat): (bs: seq<byte>)
    ensures |bs| == 16
  {
    LE(a, 4) + LE(b, 4) + LE(c, 4) + LE(d, 4)
  }

  /** The 32 bytes of `struct addrinfo`. */
  function HeaderOf(ip: IpAddr, h: Hints, sockOff: nat, next: nat): (bs: seq<byte>)
    ensures |bs| == ADDRINFO_SIZE
  {
    Words(h.flags, Family(ip), h.socktype, h.protocol) + Words(SockLen(ip), sockOff, 0, next)
  }

  function Header(addrs: seq<IpAddr>, h: Hints, i: nat): (bs: seq<byte>)
    requires i < |addrs|
    ensures |bs| == ADDRINFO_SIZE
  {
    HeaderOf(addrs[i], h, NodeOff(addrs, i) + ADDRINFO_SIZE, NextOff(addrs, i))
  }

  /** The bytes of `struct sockaddr_in` or `struct sockaddr_in6`. */
  function Sock(ip: IpAddr, port: u16): (bs: seq<byte>)
    ensures |bs| == SockLen(ip)
  {
    match ip
    case V4(o) => LE(2, 2) + BE16(port) + o + Zeros(8)
    case V6(o) => LE(10, 2) + BE16(port) + Zeros(4) + o + Zeros(4)
  }

  ghost function Heads(addrs: seq<IpAddr>, h: Hints): (r: seq<seq<byte>>)
    ensures |r| == |addrs| && forall k {:trigger r[k]} :: 0 <= k < |r| ==> r[k] == Header(addrs, h, k)
  {
    seq(|addrs|, k requires 0 <= k < |addrs| => Header(addrs, h, k))
  }

  ghost function Socks(addrs: seq<IpAddr>, port: u16): (r: seq<seq<byte>>)
    ensures |r| == |addrs| && forall k {:trigger r[k]} :: 0 <= k < |r| ==> r[k] == Sock(addrs[k], port)
  {
    seq(|addrs|, k requires 0 <= k < |addrs| => Sock(addrs[k], port))
  }

  ghost predicate Sized(addrs: seq<IpAddr>, heads: seq<seq<byte>>, socks: seq<seq<byte>>) {
    && |heads| == |socks| == |addrs|
    && (forall k {:trigger heads[k]} :: 0 <= k < |heads| ==> |heads[k]| == ADDRINFO_SIZE)
    && (forall k {:trigger socks[k]} :: 0 <= k < |socks| ==> |socks[k]| == SockLen(addrs[k]))
  }

  /** Where the nodes start. */
  ghost function Places(addrs: seq<IpAddr>): (r: seq<nat>)
    ensures |r| == |addrs| && forall k {:trigger r[k]} :: 0 <= k < |r| ==> r[k] == NodeOff(addrs, k)
  {
    seq(|addrs|, k requires 0 <= k < |addrs| => NodeOff(addrs, k))
  }

  ghost predicate Clear(offs: seq<nat>, heads: seq<seq<byte>>, socks: seq<seq<byte>>, k: nat, l: nat)
    requires k < |offs| == |socks| && l < |offs|
  {
    offs[k] + ADDRINFO_SIZE + |socks[k]| <= offs[l]
  }

  /** Room for a header and a socket address at each offset, without overlap, inside `size` bytes. */
  ghost predicate Frame(offs: seq<nat>, heads: seq<seq<byte>>, socks: seq<seq<byte>>, size: nat) {
    && |heads| == |socks| == |offs|
    && (forall k {:trigger heads[k]} {:trigger socks[k]} :: 0 <= k < |offs| ==>
          |heads[k]| == ADDRINFO_SIZE && offs[k] + ADDRINFO_SIZE + |socks[k]| <= size)
    && (forall k, l {:trigger Clear(offs, heads, socks, k, l)} :: 0 <= k < l < |offs| ==>
          Clear(offs, heads, socks, k, l))
  }

  lemma PlacesFrame(addrs: seq<IpAddr>, heads: seq<seq<byte>>, socks: seq<seq<byte>>)
    requires Sized(addrs, heads, socks)
    ensures Frame(Places(addrs), heads, socks, NodeOff(addrs, |addrs|))
  {
    var offs := Places(addrs);
    forall k | 0 <= k < |addrs|
      ensures |heads[k]| == ADDRINFO_SIZE && offs[k] + ADDRINFO_SIZE + |socks[k]| <= NodeOff(addrs, |addrs|)
    {
      assert |socks[k]| == SockLen(addrs[k]);
      NodeOffMonotone(addrs, k, |addrs|);
    }
    forall k, l | 0 <= k < l < |addrs| ensures Clear(offs, heads, socks, k, l) {
      assert |socks[k]| == SockLen(addrs[k]);
      NodeOffMonotone(addrs, k, l);
    }
  }

  /** `out` holds the headers before `i` and the sockets before `j`; socket space from `j` on is zero. */
  ghost predicate Laid(out: seq<byte>, offs: seq<nat>, heads: seq<seq<byte>>, socks: seq<seq<byte>>, i: nat, j: nat) {
    && Frame(offs, heads, socks, |out|)
    && (forall k {:trigger NodeAt(out, offs, heads, socks, k, i, j)} :: 0 <= k < |offs| ==>
          NodeAt(out, offs, heads, socks, k, i, j))
  }

  ghost predicate NodeAt(out: seq<byte>, offs: seq<nat>, heads: seq<seq<byte>>, socks: seq<seq<byte>>, k: nat, i: nat,
                         j: nat)
    requires k < |offs| == |heads| == |socks|
  {
    NodeLaid(out, offs[k], heads[k], socks[k], k < i, k < j)
  }

  /** The node at `o`: its header if that is written, and its socket address or the zeros kept for it. */
  ghost predicate NodeLaid(out: seq<byte>, o: nat, head: seq<byte>, sock: seq<byte>, withHead: bool, withSock: bool) {
    && (withHead ==> Holds(out, o, head))
    && Holds(out, o + ADDRINFO_SIZE, if withSock then sock else Zeros(|sock|))
  }

  lemma NodeUntouched(out: seq<byte>, off: nat, bs: seq<byte>, o: nat, head: seq<byte>, sock: seq<byte>,
                      withHead: bool, withSock: bool)
    requires NodeLaid(out, o, head, sock, withHead, withSock) && off + |bs| <= |out| && |head| == ADDRINFO_SIZE
    requires off + |bs| <= o || o + ADDRINFO_SIZE + |sock| <= off
    ensures NodeLaid(Splice(out, off, bs), o, head, sock, withHead, withSock)
  {
    if withHead { HoldsKept(out, off, bs, o, head); }
    HoldsKept(out, off, bs, o + ADDRINFO_SIZE, if withSock then sock else Zeros(|sock|));
  }

  lemma HeadFilled(out: seq<byte>, o: nat, head: seq<byte>, sock: seq<byte>, withHead: bool, withSock: bool)
    requires NodeLaid(out, o, head, sock, withHead, withSock) && |head| == ADDRINFO_SIZE
    ensures NodeLaid(Splice(out, o, head), o, head, sock, true, withSock)
  {
    HoldsKept(out, o, head, o + ADDRINFO_SIZE, if withSock then sock else Zeros(|sock|));
  }

  lemma SockFilled(out: seq<byte>, o: nat, head: seq<byte>, sock: seq<byte>, withHead: bool, withSock: bool)
    requires NodeLaid(out, o, head, sock, withHead, withSock) && |head| == ADDRINFO_SIZE
    ensures NodeLaid(Splice(out, o + ADDRINFO_SIZE, sock), o, head, sock, withHead, true)
  {
    if withHead { HoldsKept(out, o + ADDRINFO_SIZE, sock, o, head); }
  }

  // ----- the marshaller -----

  /** Write four little-endian words one after the other. */
  method WriteWords(buf: seq<byte>, off: nat, a: nat, b: nat, c: nat, d: nat) returns (out: seq<byte>)
    requires off + 16 <= |buf|
    ensures out == Splice(buf, off, Words(a, b, c, d))
  {
    out := Splice(buf, off, LE(a, 4));
    out := Splice(out, off + 4, LE(b, 4));
    SpliceTwice(buf, off, LE(a, 4), LE(b, 4));
    out := Splice(out, off + 8, LE(c, 4));
    SpliceTwice(buf, off, LE(a, 4) + LE(b, 4), LE(c, 4));
    out := Splice(out, off + 12, LE(d, 4));
    SpliceTwice(buf, off, LE(a, 4) + LE(b, 4) + LE(c, 4), LE(d, 4));
  }

  /** Write the eight fields of a header. */
  method WriteHeader(buf: seq<byte>, off: nat, ip: IpAddr, h: Hints, sockOff: nat, next: nat) returns (out: seq<byte>)
    requires off + ADDRINFO_SIZE <= |buf|
    ensures out == Splice(buf, off, HeaderOf(ip, h, sockOff, next))
  {
    out := WriteWords(buf, off, h.flags, Family(ip), h.socktype, h.protocol);
    out := WriteWords(out, off + 16, SockLen(ip), sockOff, 0, next);
    SpliceTwice(buf, off, Words(h.flags, Family(ip), h.socktype, h.protocol), Words(SockLen(ip), sockOff, 0, next));
  }

  lemma ZerosSlice()
    ensures Zeros(16)[8..16] == Zeros(8)
  {
  }

  /** Write one socket address into zeroed space; trailing and reserved zeros are left as they are. */
  method WriteSock(buf: seq<byte>, off: nat, ip: IpAddr, port: u16) returns (out: seq<byte>)
    requires off + SockLen(ip) <= |buf|
    ensures |out| == |buf|
    ensures Holds(buf, off, Zeros(SockLen(ip))) ==> out == Splice(buf, off, Sock(ip, port))
  {
    hide Splice, LE, BE16;
    match ip
    case V4(o) =>
      out := Splice(buf, off, LE(2, 2));
      out := Splice(out, off + 2, BE16(port));
      SpliceTwice(buf, off, LE(2, 2), BE16(port));
      out := Splice(out, off + 4, o);
      SpliceTwice(buf, off, LE(2, 2) + BE16(port), o);
      if buf[off..off + 16] == Zeros(16) {
        SpliceTwice(buf, off, LE(2, 2) + BE16(port) + o, Zeros(8));
        SubSlice(buf, off, off + 16, 8, 16);
        SpliceElsewhere(buf, off, LE(2, 2) + BE16(port) + o, off + 8, off + 16);
        ZerosSlice();
        SpliceSame(out, off + 8, Zeros(8));
      }
    case V6(o) =>
      out := Splice(buf, off, LE(10, 2));
      out := Splice(out, off + 2, BE16(port));
      SpliceTwice(buf, off, LE(10, 2), BE16(port));
      out := Splice(out, off + 4, Zeros(4));
      SpliceTwice(buf, off, LE(10, 2) + BE16(port), Zeros(4));
      out := Splice(out, off + 8, o);
      SpliceTwice(buf, off, LE(10, 2) + BE16(port) + Zeros(4), o);
      out := Splice(out, off + 24, Zeros(4));
      SpliceTwice(buf, off, LE(10, 2) + BE16(port) + Zeros(4) + o, Zeros(4));
  }

  lemma HeaderLaid(out: seq<byte>, out': seq<byte>, offs: seq<nat>, heads: seq<seq<byte>>, socks: seq<seq<byte>>,
                   i: nat)
    requires i < |offs| && Laid(out, offs, heads, socks, i, 0)
    requires offs[i] + |heads[i]| <= |out| && out' == Splice(out, offs[i], heads[i])
    ensures Laid(out', offs, heads, socks, i + 1, 0)
  {
    var i' := i + 1;
    forall k | 0 <= k < |offs| ensures NodeAt(out', offs, heads, socks, k, i', 0) {
      assert NodeAt(out, offs, heads, socks, k, i, 0);
      if k == i {
        HeadFilled(out, offs[i], heads[i], socks[k], false, false);
      } else {
        assert Clear(offs, heads, socks, if k < i then k else i, if k < i then i else k);
        NodeUntouched(out, offs[i], heads[i], offs[k], heads[k], socks[k], k < i, false);
      }
    }
    assert |out'| == |out|;
  }

  lemma SockLaid(out: seq<byte>, out': seq<byte>, offs: seq<nat>, heads: seq<seq<byte>>, socks: seq<seq<byte>>,
                 i: nat, j: nat)
    requires j < |offs| && Laid(out, offs, heads, socks, i, j)
    requires offs[j] + ADDRINFO_SIZE + |socks[j]| <= |out| && out' == Splice(out, offs[j] + ADDRINFO_SIZE, socks[j])
    ensures Laid(out', offs, heads, socks, i, j + 1)
  {
    var o, j' := offs[j] + ADDRINFO_SIZE, j + 1;
    forall k | 0 <= k < |offs| ensures NodeAt(out', offs, heads, socks, k, i, j') {
      assert NodeAt(out, offs, heads, socks, k, i, j);
      if k == j {
        SockFilled(out, offs[k], heads[k], socks[j], k < i, false);
      } else {
        assert Clear(offs, heads, socks, if k < j then k else j, if k < j then j else k);
        NodeUntouched(out, o, socks[j], offs[k], heads[k], socks[k], k < i, k < j);
      }
    }
    assert |out'| == |out|;
  }

  lemma ZeroLaid(addrs: seq<IpAddr>, heads: seq<seq<byte>>, socks: seq<seq<byte>>)
    requires Sized(addrs, heads, socks)
    ensures Laid(Zeros(NodeOff(addrs, |addrs|)), Places(addrs), heads, socks, 0, 0)
  {
    var out, offs := Zeros(NodeOff(addrs, |addrs|)), Places(addrs);
    PlacesFrame(addrs, heads, socks);
    forall k | 0 <= k < |offs| ensures NodeAt(out, offs, heads, socks, k, 0, 0) {
      assert Holds(out, offs[k] + ADDRINFO_SIZE, Zeros(|socks[k]|));
    }
  }

  /** The finished payload: every node's header and socket address in place, nothing else. */
  ghost predicate Marshalled(out: seq<byte>, addrs: seq<IpAddr>, h: Hints) {
    && |out| == NodeOff(addrs, |addrs|)
    && Laid(out, Places(addrs), Heads(addrs, h), Socks(addrs, h.port), |addrs|, |addrs|)
  }

  ghost predicate OffsetsOf(addrs: seq<IpAddr>, nodeOff: seq<nat>, sockOff: seq<nat>) {
    && |nodeOff| == |sockOff| <= |addrs|
    && forall k {:trigger nodeOff[k]} {:trigger sockOff[k]} :: 0 <= k < |nodeOff| ==>
          nodeOff[k] == NodeOff(addrs, k) && sockOff[k] == NodeOff(addrs, k) + ADDRINFO_SIZE
  }

  /** First pass: where each node and its socket address start. */
  method Offsets(addrs: seq<IpAddr>) returns (nodeOff: seq<nat>, sockOff: seq<nat>, cursor: nat)
    ensures OffsetsOf(addrs, nodeOff, sockOff) && |nodeOff| == |addrs|
    ensures cursor == NodeOff(addrs, |addrs|)
  {
    nodeOff, sockOff, cursor := [], [], 0;
    for i := 0 to |addrs|
      invariant OffsetsOf(addrs, nodeOff, sockOff) && |nodeOff| == i && cursor == NodeOff(addrs, i)
    {
      nodeOff := nodeOff + [cursor];
      cursor := cursor + ADDRINFO_SIZE;
      sockOff := sockOff + [cursor];
      cursor := cursor + if addrs[i].V4? then SOCKADDR_IN_SIZE else SOCKADDR_IN6_SIZE;
    }
  }

  /** Second pass: headers, each with the offset of the next node (0 for the last), cut to 32 bits. */
  method WriteHeaders(buf: seq<byte>, addrs: seq<IpAddr>, h: Hints, nodeOff: seq<nat>, sockOff: seq<nat>)
    returns (out: seq<byte>)
    requires OffsetsOf(addrs, nodeOff, sockOff) && |nodeOff| == |addrs| && |buf| == NodeOff(addrs, |addrs|)
    requires Laid(buf, Places(addrs), Heads(addrs, h), Socks(addrs, h.port), 0, 0)
    ensures |out| == |buf|
    ensures |buf| <= U32 ==> Laid(out, Places(addrs), Heads(addrs, h), Socks(addrs, h.port), |addrs|, 0)
  {
    hide Laid, Splice, Words, HeaderOf;
    out := buf;
    ghost var offs, heads, socks := Places(addrs), Heads(addrs, h), Socks(addrs, h.port);
    for i := 0 to |addrs|
      invariant |out| == |buf|
      invariant |buf| <= U32 ==> Laid(out, offs, heads, socks, i, 0)
    {
      NodeOffMonotone(addrs, i, |addrs|);
      if |buf| <= U32 { OffsetsFit(addrs, i); }
      ghost var before := out;
      var next := if i + 1 < |addrs| then nodeOff[i + 1] else 0;
      var so32, next32 := sockOff[i] % U32, next % U32;
      assert |buf| <= U32 ==> so32 == NodeOff(addrs, i) + ADDRINFO_SIZE && next32 == NextOff(addrs, i);
      out := WriteHeader(out, nodeOff[i], addrs[i], h, so32, next32);
      if |buf| <= U32 {
        assert HeaderOf(addrs[i], h, so32, next32) == Header(addrs, h, i);
        HeaderWritten(before, out, addrs, h, i);
      }
    }
  }

  lemma HeaderWritten(before: seq<byte>, out: seq<byte>, addrs: seq<IpAddr>, h: Hints, i: nat)
    requires i < |addrs| && Laid(before, Places(addrs), Heads(addrs, h), Socks(addrs, h.port), i, 0)
    requires NodeOff(addrs, i) + ADDRINFO_SIZE <= |before| &&
               out == Splice(before, NodeOff(addrs, i), Header(addrs, h, i))
    ensures Laid(out, Places(addrs), Heads(addrs, h), Socks(addrs, h.port), i + 1, 0)
  {
    assert Heads(addrs, h)[i] == Header(addrs, h, i) && Places(addrs)[i] == NodeOff(addrs, i);
    HeaderLaid(before, out, Places(addrs), Heads(addrs, h), Socks(addrs, h.port), i);
  }

  /** Third pass: socket addresses. */
  method WriteSocks(buf: seq<byte>, addrs: seq<IpAddr>, h: Hints, ghost nodeOff: seq<nat>, sockOff: seq<nat>)
    returns (out: seq<byte>)
    requires OffsetsOf(addrs, nodeOff, sockOff) && |nodeOff| == |addrs| && |buf| == NodeOff(addrs, |addrs|)
    ensures |out| == |buf|
    ensures Laid(buf, Places(addrs), Heads(addrs, h), Socks(addrs, h.port), |addrs|, 0) ==> Marshalled(out, addrs, h)
  {
    hide Laid, Splice, Sock;
    out := buf;
    ghost var offs, heads, socks := Places(addrs), Heads(addrs, h), Socks(addrs, h.port);
    ghost var laid := Laid(buf, offs, heads, socks, |addrs|, 0);
    for i := 0 to |addrs|
      invariant |out| == |buf|
      invariant laid ==> Laid(out, offs, heads, socks, |addrs|, i)
    {
      NodeOffMonotone(addrs, i, |addrs|);
      ghost var before := out;
      if laid { NodeRaw(out, addrs, heads, socks, |addrs|, i, i); }
      out := WriteSock(out, sockOff[i], addrs[i], h.port);
      if laid {
        assert out == Splice(before, offs[i] + ADDRINFO_SIZE, socks[i]);
        SockLaid(before, out, offs, heads, socks, |addrs|, i);
      }
    }
  }

  /** Headers and socket addresses, alternating, of the first `i` nodes. */
  ghost function Glue(heads: seq<seq<byte>>, socks: seq<seq<byte>>, i: nat): seq<byte>
    requires i <= |heads| == |socks|
  {
    if i == 0 then [] else Glue(heads, socks, i - 1) + (heads[i - 1] + socks[i - 1])
  }

  lemma {:induction false} GlueSize(addrs: seq<IpAddr>, heads: seq<seq<byte>>, socks: seq<seq<byte>>, i: nat)
    requires Sized(addrs, heads, socks) && i <= |addrs|
    ensures |Glue(heads, socks, i)| == NodeOff(addrs, i)
  {
    if i > 0 { GlueSize(addrs, heads, socks, i - 1); }
  }

  /** A finished payload is its nodes one after the other: nothing lies between or after them. */
  lemma {:induction false} LaidIsGlue(out: seq<byte>, addrs: seq<IpAddr>, heads: seq<seq<byte>>,
                                      socks: seq<seq<byte>>, i: nat)
    requires Sized(addrs, heads, socks) && Laid(out, Places(addrs), heads, socks, |addrs|, |addrs|) && i <= |addrs|
    ensures NodeOff(addrs, i) <= |out| && out[..NodeOff(addrs, i)] == Glue(heads, socks, i)
  {
    hide Laid;
    if i > 0 {
      var o := NodeOff(addrs, i - 1);
      LaidIsGlue(out, addrs, heads, socks, i - 1);
      NodeRaw(out, addrs, heads, socks, |addrs|, |addrs|, i - 1);
      JoinSlices(out, o, o + 32, o + 32 + SockLen(addrs[i - 1]));
    }
  }

  lemma {:induction false} GlueSlices(addrs: seq<IpAddr>, heads: seq<seq<byte>>, socks: seq<seq<byte>>, i: nat, k: nat)
    requires Sized(addrs, heads, socks) && k < i <= |addrs|
    ensures var bs, o := Glue(heads, socks, i), NodeOff(addrs, k);
            && o + 32 + SockLen(addrs[k]) <= |bs|
            && bs[o..o + 32] == heads[k] && bs[o + 32..o + 32 + SockLen(addrs[k])] == socks[k]
  {
    var o, n, node := NodeOff(addrs, k), SockLen(addrs[k]), heads[i - 1] + socks[i - 1];
    var front := Glue(heads, socks, i - 1);
    GlueSize(addrs, heads, socks, i - 1);
    if k < i - 1 {
      GlueSlices(addrs, heads, socks, i - 1, k);
      FrontSlice(front, node, o, o + 32);
      FrontSlice(front, node, o + 32, o + 32 + n);
    } else {
      LastSlices(front, heads[k], socks[k]);
    }
  }

  /** The payload of an answer, as one run of bytes. */
  ghost function Image(addrs: seq<IpAddr>, h: Hints): (bs: seq<byte>)
    ensures |bs| == NodeOff(addrs, |addrs|)
  {
    GlueSize(addrs, Heads(addrs, h), Socks(addrs, h.port), |addrs|);
    Glue(Heads(addrs, h), Socks(addrs, h.port), |addrs|)
  }

  lemma MarshalledIsImage(out: seq<byte>, addrs: seq<IpAddr>, h: Hints)
    requires Marshalled(out, addrs, h)
    ensures out == Image(addrs, h)
  {
    LaidIsGlue(out, addrs, Heads(addrs, h), Socks(addrs, h.port), |addrs|);
    assert out[..|out|] == out;
  }

  lemma ImageIsMarshalled(addrs: seq<IpAddr>, h: Hints)
    ensures Marshalled(Image(addrs, h), addrs, h)
  {
    var out, heads, socks, n := Image(addrs, h), Heads(addrs, h), Socks(addrs, h.port), |addrs|;
    var offs := Places(addrs);
    PlacesFrame(addrs, heads, socks);
    forall k | 0 <= k < |offs| ensures NodeAt(out, offs, heads, socks, k, n, n) {
      assert |heads[k]| == ADDRINFO_SIZE && |socks[k]| == SockLen(addrs[k]);
      GlueSlices(addrs, heads, socks, |addrs|, k);
    }
  }

  lemma JoinSlices(out: seq<byte>, a: nat, b: nat, c: nat)
    requires a <= b <= c <= |out|
    ensures out[..c] == out[..a] + (out[a..b] + out[b..c])
  {
  }

  /** The payload and the head offset, which is always 0. */
  method MarshalAddrinfo(addrs: seq<IpAddr>, h: Hints) returns (out: seq<byte>, head: nat)
    ensures head == 0 && |out| == NodeOff(addrs, |addrs|)
    ensures |out| <= U32 ==> Marshalled(out, addrs, h) && out == Image(addrs, h)
  {
    if |addrs| == 0 {
      return [], 0;
    }
    var nodeOff, sockOff, cursor := Offsets(addrs);
    out := Zeros(cursor);
    ZeroLaid(addrs, Heads(addrs, h), Socks(addrs, h.port));
    out := WriteHeaders(out, addrs, h, nodeOff, sockOff);
    out := WriteSocks(out, addrs, h, nodeOff, sockOff);
    if |out| <= U32 {
      MarshalledIsImage(out, addrs, h);
    }
    head := nodeOff[0];
  }

  // ----- the reader -----

  /** One decoded node: where it was, and what it says. */
  datatype Node = Node(
    at: nat, family: nat, flags: nat, socktype: nat, protocol: nat, canonname: nat, addr: IpAddr, port: nat)

  function Word(bs: seq<byte>, off: nat): nat
    requires off + 4 <= |bs|
  {
    FromLE(bs[off..off + 4])
  }

  /**
   Read a socket address of the length its family asks for. It must name the same family, and its
   reserved parts (padding of IPv4, flow information and scope of IPv6) must be zero.
   */
  function ReadSock(bs: seq<byte>, off: nat, len: nat, family: nat): Option<(IpAddr, nat)>
    requires off + len <= |bs|
  {
    if family == 2 && len == SOCKADDR_IN_SIZE && FromLE(bs[off..off + 2]) == 2 && bs[off + 8..off + 16] == Zeros(8) then
      Some((V4(bs[off + 4..off + 8]), FromBE16(bs[off + 2], bs[off + 3])))
    else if family == 10 && len == SOCKADDR_IN6_SIZE && FromLE(bs[off..off + 2]) == 10
            && bs[off + 4..off + 8] == Zeros(4) && bs[off + 24..off + 28] == Zeros(4) then
      Some((V6(bs[off + 8..off + 24]), FromBE16(bs[off + 2], bs[off + 3])))
    else None
  }

  function ReadNode(bs: seq<byte>, off: nat): Option<Node>
    requires off + ADDRINFO_SIZE <= |bs|
  {
    var len, sockOff, family := Word(bs, off + 16), Word(bs, off + 20), Word(bs, off + 4);
    if sockOff + len > |bs| then None
    else
      var s := ReadSock(bs, sockOff, len, family);
      if s.None? then None
      else
        var (ip, port) := s.value;
        Some(Node(off, family, Word(bs, off), Word(bs, off + 8), Word(bs, off + 12), Word(bs, off + 24), ip, port))
  }

  /** Start at `off`, follow `ai_next`, stop when it is 0; anything out of bounds or backwards is an error. */
  function Walk(bs: seq<byte>, off: nat): Option<seq<Node>>
    decreases |bs| - off
  {
    if off + ADDRINFO_SIZE > |bs| then None
    else
      var node, next := ReadNode(bs, off), Word(bs, off + 28);
      if node.None? then None
      else if next == 0 then Some([node.value])
      else if next <= off then None
      else
        var rest := Walk(bs, next);
        if rest.None? then None else Some([node.value] + rest.value)
  }

  ghost function NodeOf(addrs: seq<IpAddr>, h: Hints, i: nat): Node
    requires i < |addrs|
  {
    var family := if addrs[i].V4? then 2 else 10;
    Node(NodeOff(addrs, i), family, h.flags, h.socktype, h.protocol, 0, addrs[i], h.port)
  }

  ghost function NodesFrom(addrs: seq<IpAddr>, h: Hints, i: nat): (r: seq<Node>)
    requires i <= |addrs|
    ensures |r| == |addrs| - i
    decreases |addrs| - i
  {
    if i == |addrs| then [] else [NodeOf(addrs, h, i)] + NodesFrom(addrs, h, i + 1)
  }

  lemma {:induction false} NodesFromAt(addrs: seq<IpAddr>, h: Hints, i: nat, k: nat)
    requires i <= k < |addrs|
    ensures NodesFrom(addrs, h, i)[k - i] == NodeOf(addrs, h, k)
    decreases k - i
  {
    if i < k { NodesFromAt(addrs, h, i + 1, k); }
  }

  lemma WordsRead(a: u32, b: u32, c: u32, d: u32)
    ensures var w := Words(a, b, c, d);
            FromLE(w[0..4]) == a && FromLE(w[4..8]) == b && FromLE(w[8..12]) == c && FromLE(w[12..16]) == d
  {
    var w := Words(a, b, c, d);
    assert w[0..4] == LE(a, 4) && w[4..8] == LE(b, 4) && w[8..12] == LE(c, 4) && w[12..16] == LE(d, 4);
    WordBack(a);
    WordBack(b);
    WordBack(c);
    WordBack(d);
  }

  lemma WordBack(x: u32)
    ensures FromLE(LE(x, 4)) == x
  {
    Pow256Values();
    FromLEOfLE(x, 4);
  }

  /** Reading four words back from where they lie in a buffer. */
  lemma WordsAt(bs: seq<byte>, off: nat, a: u32, b: u32, c: u32, d: u32)
    requires Holds(bs, off, Words(a, b, c, d))
    ensures Word(bs, off) == a && Word(bs, off + 4) == b && Word(bs, off + 8) == c && Word(bs, off + 12) == d
  {
    WordsRead(a, b, c, d);
    SubSlice(bs, off, off + 16, 0, 4);
    SubSlice(bs, off, off + 16, 4, 8);
    SubSlice(bs, off, off + 16, 8, 12);
    SubSlice(bs, off, off + 16, 12, 16);
  }

  /** The parts of a socket address: family, port in network order, address, and zeros elsewhere. */
  lemma SockLayout(ip: IpAddr, port: u16)
    ensures var s := Sock(ip, port);
            && FromLE(s[0..2]) == (if ip.V4? then 2 else 10)
            && FromBE16(s[2], s[3]) == port
            && (ip.V4? ==> s[4..8] == ip.v4 && s[8..16] == Zeros(8))
            && (ip.V6? ==> s[4..8] == Zeros(4) && s[8..24] == ip.v6 && s[24..28] == Zeros(4))
  {
    var s := Sock(ip, port);
    Pow256Values();
    FromLEOfLE(if ip.V4? then 2 else 10, 2);
    assert s[0..2] == LE(if ip.V4? then 2 else 10, 2);
    assert s[2] == port / 256 && s[3] == port % 256;
    match ip
    case V4(o) => assert s[4..8] == o && s[8..16] == Zeros(8);
    case V6(o) => assert s[4..8] == Zeros(4) && s[8..24] == o && s[24..28] == Zeros(4);
  }

  lemma SockRead(bs: seq<byte>, off: nat, ip: IpAddr, port: u16)
    requires Holds(bs, off, Sock(ip, port))
    ensures ReadSock(bs, off, SockLen(ip), Family(ip)) == Some((ip, port))
  {
    hide LE, BE16;
    var s, n := Sock(ip, port), SockLen(ip);
    SockLayout(ip, port);
    assert bs[off + 2] == s[2] && bs[off + 3] == s[3];
    SubSlice(bs, off, off + n, 0, 2);
    SubSlice(bs, off, off + n, 4, 8);
    match ip
    case V4(o) =>
      SubSlice(bs, off, off + n, 8, 16);
    case V6(o) =>
      SubSlice(bs, off, off + n, 8, 24);
      SubSlice(bs, off, off + n, 24, 28);
  }

  lemma NodeRawAt(out: seq<byte>, offs: seq<nat>, heads: seq<seq<byte>>, socks: seq<seq<byte>>, i: nat, j: nat, k: nat)
    requires Laid(out, offs, heads, socks, i, j) && k < |offs|
    ensures k < i ==> Holds(out, offs[k], heads[k])
    ensures Holds(out, offs[k] + ADDRINFO_SIZE, if k < j then socks[k] else Zeros(|socks[k]|))
  {
    assert NodeAt(out, offs, heads, socks, k, i, j);
  }

  lemma NodeRaw(out: seq<byte>, addrs: seq<IpAddr>, heads: seq<seq<byte>>, socks: seq<seq<byte>>, i: nat, j: nat,
                k: nat)
    requires Sized(addrs, heads, socks) && Laid(out, Places(addrs), heads, socks, i, j) && k < |addrs|
    ensures |heads[k]| == ADDRINFO_SIZE && |socks[k]| == SockLen(addrs[k])
    ensures k < i ==> Holds(out, NodeOff(addrs, k), heads[k])
    ensures Holds(out, NodeOff(addrs, k) + ADDRINFO_SIZE, if k < j then socks[k] else Zeros(|socks[k]|))
  {
    assert Places(addrs)[k] == NodeOff(addrs, k);
    NodeRawAt(out, Places(addrs), heads, socks, i, j, k);
  }

  lemma OffsetsFit(addrs: seq<IpAddr>, i: nat)
    requires i < |addrs| && NodeOff(addrs, |addrs|) <= U32
    ensures NodeOff(addrs, i) + ADDRINFO_SIZE < U32 && NextOff(addrs, i) < U32
    ensures i + 1 < |addrs| ==> NextOff(addrs, i) > NodeOff(addrs, i)
  {
    NodeOffMonotone(addrs, i, |addrs|);
    if i + 1 < |addrs| { NodeOffMonotone(addrs, i + 1, |addrs|); }
  }

  /** The header of a finished node. */
  lemma NodeHead(out: seq<byte>, addrs: seq<IpAddr>, h: Hints, i: nat)
    requires Marshalled(out, addrs, h) && i < |addrs|
    ensures Holds(out, NodeOff(addrs, i), Header(addrs, h, i))
  {
    hide Laid, Header, NodeOff;
    assert Heads(addrs, h)[i] == Header(addrs, h, i);
    NodeRaw(out, addrs, Heads(addrs, h), Socks(addrs, h.port), |addrs|, |addrs|, i);
  }

  /** The socket address of a finished node. */
  lemma NodeSock(out: seq<byte>, addrs: seq<IpAddr>, h: Hints, i: nat)
    requires Marshalled(out, addrs, h) && i < |addrs|
    ensures Holds(out, NodeOff(addrs, i) + ADDRINFO_SIZE, Sock(addrs[i], h.port))
  {
    hide Laid, Sock, NodeOff;
    assert Socks(addrs, h.port)[i] == Sock(addrs[i], h.port);
    NodeRaw(out, addrs, Heads(addrs, h), Socks(addrs, h.port), |addrs|, |addrs|, i);
  }

  /** The three parts of a finished node. */
  lemma NodeSlices(out: seq<byte>, addrs: seq<IpAddr>, h: Hints, i: nat)
    requires Marshalled(out, addrs, h) && i < |addrs| && |out| <= U32
    ensures var o, ip := NodeOff(addrs, i), addrs[i];
            && NextOff(addrs, i) < U32
            && Holds(out, o, Words(h.flags, Family(ip), h.socktype, h.protocol))
            && Holds(out, o + 16, Words(SockLen(ip), o + ADDRINFO_SIZE, 0, NextOff(addrs, i)))
            && Holds(out, o + 32, Sock(ip, h.port))
  {
    hide Words, Sock, Holds, NodeOff, Laid;
    var o, ip := NodeOff(addrs, i), addrs[i];
    OffsetsFit(addrs, i);
    NodeHead(out, addrs, h, i);
    NodeSock(out, addrs, h, i);
    Halves(out, o, Words(h.flags, Family(ip), h.socktype, h.protocol),
        Words(SockLen(ip), o + ADDRINFO_SIZE, 0, NextOff(addrs, i)));
  }

  lemma Halves(bs: seq<byte>, off: nat, a: seq<byte>, b: seq<byte>)
    requires |a| == |b| == 16 && Holds(bs, off, a + b)
    ensures Holds(bs, off, a) && Holds(bs, off + 16, b)
  {
    SubSlice(bs, off, off + 32, 0, 16);
    SubSlice(bs, off, off + 32, 16, 32);
  }

  /** A node decodes from its three parts. */
  lemma NodeFromParts(bs: seq<byte>, o: nat, ip: IpAddr, h: Hints, next: u32)
    requires |bs| <= U32
    requires Holds(bs, o, Words(h.flags, Family(ip), h.socktype, h.protocol))
    requires Holds(bs, o + 16, Words(SockLen(ip), o + ADDRINFO_SIZE, 0, next))
    requires Holds(bs, o + 32, Sock(ip, h.port))
    ensures o + ADDRINFO_SIZE + SockLen(ip) <= |bs|
    ensures ReadNode(bs, o) == Some(Node(o, Family(ip), h.flags, h.socktype, h.protocol, 0, ip, h.port))
    ensures Word(bs, o + 28) == next
  {
    WordsAt(bs, o, h.flags, Family(ip), h.socktype, h.protocol);
    WordsAt(bs, o + 16, SockLen(ip), o + ADDRINFO_SIZE, 0, next);
    SockRead(bs, o + ADDRINFO_SIZE, ip, h.port);
  }

  ghost predicate ReadsAt(bs: seq<byte>, addrs: seq<IpAddr>, h: Hints, i: nat)
    requires i < |addrs|
  {
    var o := NodeOff(addrs, i);
    && o + ADDRINFO_SIZE <= |bs|
    && ReadNode(bs, o) == Some(NodeOf(addrs, h, i))
    && Word(bs, o + 28) == NextOff(addrs, i)
  }

  lemma NodeReads(out: seq<byte>, addrs: seq<IpAddr>, h: Hints, i: nat)
    requires Marshalled(out, addrs, h) && i < |addrs| && |out| <= U32
    ensures ReadsAt(out, addrs, h, i)
  {
    hide Words, Sock, Holds, Laid;
    NodeSlices(out, addrs, h, i);
    NodeFromParts(out, NodeOff(addrs, i), addrs[i], h, NextOff(addrs, i));
  }

  lemma WalkStep(bs: seq<byte>, off: nat, node: Node, next: nat)
    requires off + ADDRINFO_SIZE <= |bs| && ReadNode(bs, off) == Some(node) && Word(bs, off + 28) == next
    ensures next == 0 ==> Walk(bs, off) == Some([node])
    ensures next > off && Walk(bs, next).Some? ==> Walk(bs, off) == Some([node] + Walk(bs, next).value)
  {
  }

  lemma WalkAt(bs: seq<byte>, addrs: seq<IpAddr>, h: Hints, i: nat)
    requires i < |addrs| && ReadsAt(bs, addrs, h, i)
    ensures i + 1 == |addrs| ==> Walk(bs, NodeOff(addrs, i)) == Some([NodeOf(addrs, h, i)])
    ensures i + 1 < |addrs| && Walk(bs, NodeOff(addrs, i + 1)).Some? ==>
              Walk(bs, NodeOff(addrs, i)) == Some([NodeOf(addrs, h, i)] + Walk(bs, NodeOff(addrs, i + 1)).value)
  {
    WalkStep(bs, NodeOff(addrs, i), NodeOf(addrs, h, i), NextOff(addrs, i));
    if i + 1 < |addrs| { NodeOffMonotone(addrs, i, i + 1); }
  }

  lemma {:induction false} WalkFrom(bs: seq<byte>, addrs: seq<IpAddr>, h: Hints, i: nat)
    requires i < |addrs| && forall k {:trigger ReadsAt(bs, addrs, h, k)} :: i <= k < |addrs| ==>
               ReadsAt(bs, addrs, h, k)
    ensures Walk(bs, NodeOff(addrs, i)) == Some(NodesFrom(addrs, h, i))
    decreases |addrs| - i
  {
    WalkAt(bs, addrs, h, i);
    if i + 1 < |addrs| {
      WalkFrom(bs, addrs, h, i + 1);
      assert NodesFrom(addrs, h, i) == [NodeOf(addrs, h, i)] + NodesFrom(addrs, h, i + 1);
    } else {
      assert NodesFrom(addrs, h, i) == [NodeOf(addrs, h, i)];
    }
  }

  /**
   Marshalling then walking from the head gives the input back: every address, family, port and hint
   in order, on nodes that follow one another without gap or overlap; the size is 48 bytes per IPv4
   and 60 per IPv6 address.
   */
  lemma RoundTrip(out: seq<byte>, addrs: seq<IpAddr>, h: Hints)
    requires Marshalled(out, addrs, h) && addrs != [] && |out| <= U32
    ensures Walk(out, 0) == Some(NodesFrom(addrs, h, 0))
    ensures forall i :: 0 <= i < |addrs| ==> NodesFrom(addrs, h, 0)[i] == NodeOf(addrs, h, i)
    ensures |out| == NodeOff(addrs, |addrs|)
    ensures forall i :: 0 <= i < |addrs| ==>
              NodeOff(addrs, i) + (if addrs[i].V4? then 48 else 60) == NodeOff(addrs, i + 1)
  {
    forall k | 0 <= k < |addrs| ensures ReadsAt(out, addrs, h, k) { NodeReads(out, addrs, h, k); }
    WalkFrom(out, addrs, h, 0);
    forall i | 0 <= i < |addrs| ensures NodesFrom(addrs, h, 0)[i] == NodeOf(addrs, h, i) {
      NodesFromAt(addrs, h, 0, i);
    }
  }

  lemma WordsCut(bs: seq<byte>, off: nat, a: nat, b: nat, c: nat, d: nat)
    requires Holds(bs, off, Words(a, b, c, d))
    ensures Holds(Splice(bs, off + 12, LE(0, 4)), off, Words(a, b, c, 0))
  {
    var r := Splice(bs, off + 12, LE(0, 4));
    SubSlice(bs, off, off + 16, 0, 12);
    SpliceElsewhere(bs, off + 12, LE(0, 4), off, off + 12);
    assert r[off..off + 16] == r[off..off + 12] + r[off + 12..off + 16];
    assert Words(a, b, c, d)[0..12] == LE(a, 4) + LE(b, 4) + LE(c, 4);
  }

  /** A zero written over the first node's `ai_next` ends the list after one node. */
  lemma CutAfterFirst(out: seq<byte>, addrs: seq<IpAddr>, h: Hints)
    requires Marshalled(out, addrs, h) && addrs != [] && 32 <= |out| <= U32
    ensures Walk(Splice(out, 28, LE(0, 4)), 0) == Some([NodeOf(addrs, h, 0)])
  {
    hide Words, Sock, Holds, Laid, Splice, LE;
    var r, ip := Splice(out, 28, LE(0, 4)), addrs[0];
    NodeSlices(out, addrs, h, 0);
    HoldsKept(out, 28, LE(0, 4), 0, Words(h.flags, Family(ip), h.socktype, h.protocol));
    WordsCut(out, 16, SockLen(ip), ADDRINFO_SIZE, 0, NextOff(addrs, 0));
    HoldsKept(out, 28, LE(0, 4), 32, Sock(ip, h.port));
    NodeFromParts(r, 0, ip, h, 0);
    WalkStep(r, 0, NodeOf(addrs, h, 0), 0);
  }
}
