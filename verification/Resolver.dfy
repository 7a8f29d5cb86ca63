/** IPv4 socket addresses in network byte order, and the walk over a getaddrinfo result list. */
module Resolver {
  import opened Errors
  import opened Octets

  type u32 = n: nat | n < 0x1_0000_0000

  datatype SocketAddrV4 = SocketAddrV4(ip: u32, port: u16)

  datatype SocketAddr = V4(v4: SocketAddrV4) | V6(segments: seq<u16>, port6: u16)

  const AF_INET := 2
  const SOCKADDR_IN_LEN := 16

  /** A `sockaddr_in`, its port and address as the integers a little-endian machine sees. */
  datatype SockaddrIn = SockaddrIn(len: nat, family: int, port: u16, addr: u32)

  function Swap16(n: u16): u16 {
    n % 0x100 * 0x100 + n / 0x100
  }

  function Swap32(n: u32): u32 {
    Swap16(n % 0x1_0000) * 0x1_0000 + Swap16(n / 0x1_0000)
  }

  lemma Swap16Twice(n: u16)
    ensures Swap16(Swap16(n)) == n
  {
    var lo, hi := n % 0x100, n / 0x100;
    assert Swap16(n) == lo * 0x100 + hi;
  }

  lemma Swap32Twice(m: u32)
    ensures Swap32(Swap32(m)) == m
  {
    var lo, hi := m % 0x1_0000, m / 0x1_0000;
    Swap16Twice(lo);
    Swap16Twice(hi);
    HalvesOf(Swap16(lo), Swap16(hi));
  }

  lemma HalvesOf(hi: u16, lo: u16)
    ensures (hi * 0x1_0000 + lo) % 0x1_0000 == lo && (hi * 0x1_0000 + lo) / 0x1_0000 == hi
  {
  }

  function ToSockaddrIn(a: SocketAddrV4): SockaddrIn {
    SockaddrIn(SOCKADDR_IN_LEN, AF_INET, Swap16(a.port), Swap32(a.ip))
  }

  function FromSockaddrIn(sa: SockaddrIn): SocketAddrV4 {
    SocketAddrV4(Swap32(sa.addr), Swap16(sa.port))
  }

  /** Encoding is injective and decoding undoes it, in both directions, for every address and port. */
  lemma SockaddrRoundTrip(a: SocketAddrV4, sa: SockaddrIn)
    ensures FromSockaddrIn(ToSockaddrIn(a)) == a
    ensures sa.len == SOCKADDR_IN_LEN && sa.family == AF_INET ==> ToSockaddrIn(FromSockaddrIn(sa)) == sa
  {
    Swap16Twice(a.port);
    Swap32Twice(a.ip);
    Swap16Twice(sa.port);
    Swap32Twice(sa.addr);
  }

  /** The bytes of an integer in the memory of a little-endian machine. */
  function Memory16(n: u16): seq<nat> {
    [n % 0x100, n / 0x100]
  }

  function Memory32(n: u32): seq<nat> {
    Memory16(n % 0x1_0000) + Memory16(n / 0x1_0000)
  }

  lemma Swap16InMemory(n: u16)
    ensures Memory16(Swap16(n)) == [n / 0x100, n % 0x100]
  {
  }

  /** In memory, port and address are in network byte order: the most significant byte first. */
  lemma NetworkOrder(a: SocketAddrV4)
    ensures Memory16(ToSockaddrIn(a).port) == [a.port / 0x100, a.port % 0x100]
    ensures Memory32(ToSockaddrIn(a).addr)
            == [a.ip / 0x1_0000 / 0x100, a.ip / 0x1_0000 % 0x100, a.ip % 0x1_0000 / 0x100, a.ip % 0x1_0000 % 0x100]
    ensures ToSockaddrIn(a).len == 16 && ToSockaddrIn(a).family == 2
  {
    var lo, hi := a.ip % 0x1_0000, a.ip / 0x1_0000;
    Swap16InMemory(a.port);
    Swap16InMemory(lo);
    Swap16InMemory(hi);
    HalvesOf(Swap16(lo), Swap16(hi));
  }

  /** The linked list getaddrinfo returns; an address may be null or of any family. */
  datatype AddrInfo = Null | Node(family: int, addr: Option<SockaddrIn>, next: AddrInfo)

  predicate Wanted(n: AddrInfo) {
    n.Node? && n.family == AF_INET && n.addr.Some?
  }

  function Nodes(list: AddrInfo): seq<AddrInfo> {
    if list.Null? then [] else [list] + Nodes(list.next)
  }

  /** The family and address of a node. */
  datatype Entry = Entry(family: int, addr: Option<SockaddrIn>)

  /** The list with these entries. */
  function ListOf(entries: seq<Entry>): AddrInfo {
    if entries == [] then Null else Node(entries[0].family, entries[0].addr, ListOf(entries[1..]))
  }

  /** The walk visits every node, in list order. */
  lemma {:induction false} NodesExact(entries: seq<Entry>)
    ensures var nodes := Nodes(ListOf(entries));
            && |nodes| == |entries|
            && forall i :: 0 <= i < |entries| ==>
                 nodes[i].Node? && nodes[i].family == entries[i].family && nodes[i].addr == entries[i].addr
  {
    if entries != [] {
      NodesExact(entries[1..]);
    }
  }

  /** The entry is an IPv4 address that is there. */
  predicate Usable(e: Entry) {
    e.family == 2 && e.addr.Some?
  }

  /** How many of the first `k` entries are usable. */
  function UsableBefore(entries: seq<Entry>, k: nat): nat
    requires k <= |entries|
  {
    if k == 0 then 0
    else UsableBefore(entries, k - 1) + if Usable(entries[k - 1]) then 1 else 0
  }

  /** The first `k` entries' addresses are in `found`, each at its place. */
  predicate Placed(entries: seq<Entry>, found: seq<SocketAddr>, k: nat)
    requires k <= |entries|
  {
    forall i :: 0 <= i < k && Usable(entries[i]) ==>
      UsableBefore(entries, i) < |found|
      && found[UsableBefore(entries, i)] == V4(FromSockaddrIn(entries[i].addr.value))
  }

  lemma PlacedNext(entries: seq<Entry>, found: seq<SocketAddr>, more: seq<SocketAddr>, k: nat)
    requires k < |entries| && Placed(entries, found, k) && |found| == UsableBefore(entries, k)
    requires more == if Usable(entries[k]) then [V4(FromSockaddrIn(entries[k].addr.value))] else []
    ensures Placed(entries, found + more, k + 1) && |found + more| == UsableBefore(entries, k + 1)
  {
  }

  lemma {:induction false} DecodedPrefix(entries: seq<Entry>, nodes: seq<AddrInfo>, k: nat)
    requires |nodes| == |entries| && k <= |entries|
    requires forall i :: 0 <= i < |entries| ==>
               nodes[i].Node? && nodes[i].family == entries[i].family && nodes[i].addr == entries[i].addr
    ensures |Decoded(nodes[..k])| == UsableBefore(entries, k) && Placed(entries, Decoded(nodes[..k]), k)
  {
    if k > 0 {
      DecodedPrefix(entries, nodes, k - 1);
      assert nodes[..k] == nodes[..k - 1] + [nodes[k - 1]];
      DecodedSnoc(nodes[..k - 1], nodes[k - 1]);
      DecodedOne(entries[k - 1], nodes[k - 1]);
      PlacedNext(entries, Decoded(nodes[..k - 1]), DecodedNode(nodes[k - 1]), k - 1);
    }
  }

  lemma DecodedOne(e: Entry, n: AddrInfo)
    requires n.Node? && n.family == e.family && n.addr == e.addr
    ensures DecodedNode(n) == if Usable(e) then [V4(FromSockaddrIn(e.addr.value))] else []
  {
  }

  /**
   What a list of any entries resolves to: each IPv4 entry with an address, decoded, at its place among
   those, and nothing for the others.
   */
  lemma ListExact(entries: seq<Entry>)
    ensures var found := Decoded(Nodes(ListOf(entries)));
            && |found| == UsableBefore(entries, |entries|)
            && forall i :: 0 <= i < |entries| && entries[i].family == 2 && entries[i].addr.Some? ==>
                 UsableBefore(entries, i) < |found|
                 && found[UsableBefore(entries, i)] == V4(FromSockaddrIn(entries[i].addr.value))
  {
    NodesExact(entries);
    var nodes := Nodes(ListOf(entries));
    DecodedPrefix(entries, nodes, |entries|);
    assert nodes[..|entries|] == nodes;
  }

  lemma NodesStep(seen: seq<AddrInfo>, list: AddrInfo)
    requires list.Node?
    ensures seen + Nodes(list) == seen + [list] + Nodes(list.next)
  {
  }

  function DecodedNode(n: AddrInfo): seq<SocketAddr> {
    if Wanted(n) then [V4(FromSockaddrIn(n.addr.value))] else []
  }

  /** The addresses of the wanted nodes, in list order. */
  function Decoded(nodes: seq<AddrInfo>): seq<SocketAddr> {
    if nodes == [] then [] else Decoded(nodes[..|nodes| - 1]) + DecodedNode(nodes[|nodes| - 1])
  }

  lemma DecodedSnoc(nodes: seq<AddrInfo>, n: AddrInfo)
    ensures Decoded(nodes + [n]) == Decoded(nodes) + DecodedNode(n)
  {
    assert (nodes + [n])[..|nodes|] == nodes;
  }

  /** The resolver library: what it answers to each question, and the lists it has handed out and got back. */
  class Libc {
    const answers: (Bytes, Bytes) -> Result<AddrInfo>
    var handedOut: seq<AddrInfo>
    var freed: seq<AddrInfo>

    constructor (answers: (Bytes, Bytes) -> Result<AddrInfo>)
      ensures this.answers == answers && handedOut == freed == []
    {
      this.answers, this.handedOut, this.freed := answers, [], [];
    }

    method GetAddrInfo(host: Bytes, service: Bytes) returns (r: Result<AddrInfo>)
      requires CString(host) && CString(service)
      modifies this`handedOut
      ensures r == answers(host, service)
      ensures handedOut == old(handedOut) + if r.Ok? then [r.value] else []
    {
      r := answers(host, service);
      if r.Ok? {
        handedOut := handedOut + [r.value];
      }
    }

    method FreeAddrInfo(list: AddrInfo)
      modifies this`freed
      ensures freed == old(freed) + [list]
    {
      freed := freed + [list];
    }
  }

  /** A printed port has no NUL. */
  lemma PortIsCString(port: u16)
    ensures CString(Decimal(port))
  {
    assert forall i :: 0 <= i < |Decimal(port)| ==> IsDigit(Decimal(port)[i]);
  }

  /** Ask for the host and the printed port, walk the list once, keep the IPv4 addresses, free that list once. */
  method LookupHost(libc: Libc, host: Bytes, port: u16) returns (r: Result<seq<SocketAddr>>)
    modifies libc
    ensures !CString(host) ==>
              r == Err(BAD_STRING) && libc.handedOut == old(libc.handedOut) && libc.freed == old(libc.freed)
    ensures CString(host) ==>
              match libc.answers(host, Decimal(port))
              case Err(e) => r == Err(e) && libc.handedOut == old(libc.handedOut) && libc.freed == old(libc.freed)
              case Ok(list) =>
                && r == Ok(Decoded(Nodes(list)))
                && libc.handedOut == old(libc.handedOut) + [list] && libc.freed == old(libc.freed) + [list]
  {
    if !CString(host) {
      return Err(BAD_STRING);
    }
    PortIsCString(port);
    var res := libc.GetAddrInfo(host, Decimal(port));
    match res
    case Err(e) =>
      return Err(e);
    case Ok(list) =>
      var out := Walk(list);
      libc.FreeAddrInfo(list);
      return Ok(out);
  }

  method Walk(list: AddrInfo) returns (out: seq<SocketAddr>)
    ensures out == Decoded(Nodes(list))
  {
    out := [];
    var cur := list;
    ghost var seen: seq<AddrInfo> := [];
    while cur.Node?
      invariant Nodes(list) == seen + Nodes(cur)
      invariant out == Decoded(seen)
      decreases cur
    {
      DecodedSnoc(seen, cur);
      NodesStep(seen, cur);
      if cur.family == AF_INET && cur.addr.Some? {
        out := out + [V4(FromSockaddrIn(cur.addr.value))];
      }
      seen := seen + [cur];
      cur := cur.next;
    }
    assert seen + [] == seen;
  }

  /** Resolving a list of encoded addresses gives the addresses back, in order. */
  lemma {:induction false} DecodedEncodings(nodes: seq<AddrInfo>, addrs: seq<SocketAddrV4>)
    requires |nodes| == |addrs|
    requires forall i :: 0 <= i < |nodes| ==>
               nodes[i].Node? && nodes[i].family == AF_INET && nodes[i].addr == Some(ToSockaddrIn(addrs[i]))
    ensures |Decoded(nodes)| == |addrs| && forall i :: 0 <= i < |addrs| ==> Decoded(nodes)[i] == V4(addrs[i])
  {
    if nodes != [] {
      var k := |nodes| - 1;
      DecodedEncodings(nodes[..k], addrs[..k]);
      SockaddrRoundTrip(addrs[k], nodes[k].addr.value);
    }
  }
}
