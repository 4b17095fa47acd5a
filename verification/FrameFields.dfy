/** Frames byte by byte: every field of a built frame, and where the parser finds each field of any input
    (c_core/packet.c, tftp/session.py). */
module FrameFields {
  import opened Blocks
  import opened Protocol
  import opened Wrappers
  import opened Checksum
  import opened Frames

  // ---- Built frames --------------------------------------------------

  /** The fields of the IPv4 header before its checksum: version and length, no service type, total length,
      identification, do not fragment, 64 hops, UDP. */
  lemma RawFields(p: Path, total: word, id: word)
    requires p.Valid()
    ensures var h := RawIpHeader(p, total, id);
            && h[..10] == [0x45, 0, Hi(total), Lo(total), Hi(id), Lo(id), 0x40, 0x00, 64, 17]
            && h[12..16] == p.srcIp && h[16..] == p.dstIp
  {
    hide Hi, Lo;
    HiLo4000();
    var h := RawIpHeader(p, total, id);
    assert h[..10] == [0x45, 0, Hi(total), Lo(total), Hi(id), Lo(id), Hi(0x4000), Lo(0x4000), 64, PROTO_UDP];
    assert h[12..16] == p.srcIp && h[16..] == p.dstIp;
  }

  lemma HiLo4000()
    ensures Hi(0x4000) == 0x40 && Lo(0x4000) == 0x00
  {
  }

  /** Every field of a built frame behind its addresses: the IPv4 header with a checksum that verifies, and the UDP
      header with its ports, its length and no checksum. */
  lemma BuiltFields(p: Path, id: word, payload: seq<byte>)
    requires p.Valid() && |payload| <= 65507
    ensures var f, off := UdpFrame(p, id, payload), p.EthLen();
            var total, length := 28 + |payload|, 8 + |payload|;
            && |f| == off + total
            && f[..12] == p.dstMac + p.srcMac
            && f[off..off + 10] == [0x45, 0, Hi(total), Lo(total), Hi(id), Lo(id), 0x40, 0x00, 64, 17]
            && f[off + 12..off + 20] == p.srcIp + p.dstIp
            && f[off + 20..off + 28] ==
               [Hi(p.srcPort), Lo(p.srcPort), Hi(p.dstPort), Lo(p.dstPort), Hi(length), Lo(length), 0, 0]
            && f[off + 28..] == payload
            && Csum(f[off..off + 20]) == 0
  {
    hide Hi, Lo, Csum, EthHeader, UdpHeader, RawIpHeader, Patched;
    var f, off := UdpFrame(p, id, payload), p.EthLen();
    var raw, ip := RawIpHeader(p, 28 + |payload|, id), IpHeader(p, 28 + |payload|, id);
    FrameHeaderVerifies(p, id, payload);
    RawFields(p, 28 + |payload|, id);
    PatchKeeps(raw, 10, Csum(raw));
    assert f[off..off + 20] == ip;
    assert f[off..off + 10] == ip[..10] == raw[..10];
    assert f[off + 12..off + 20] == ip[12..20] == raw[12..20] == raw[12..16] + raw[16..];
    EthAndUdp(p, 8 + |payload|);
    assert f[..12] == EthHeader(p)[..12];
    assert f[off + 20..off + 28] == UdpHeader(p, 8 + |payload|);
  }

  lemma EthAndUdp(p: Path, length: word)
    requires p.Valid()
    ensures EthHeader(p)[..12] == p.dstMac + p.srcMac
    ensures UdpHeader(p, length) ==
            [Hi(p.srcPort), Lo(p.srcPort), Hi(p.dstPort), Lo(p.dstPort), Hi(length), Lo(length), 0, 0]
  {
    assert Hi(0) == 0 && Lo(0) == 0;
  }

  /** The type and tag of the Ethernet header. */
  lemma EthTypeIs(p: Path)
    requires p.Valid()
    ensures var h := EthHeader(p);
            if p.tci.None? then h[12..] == [0x08, 0x00]
            else h[12..] == [0x81, 0x00, Hi(p.tci.value), Lo(p.tci.value), 0x08, 0x00]
  {
    assert Put16(ETH_IP) == [0x08, 0x00] && Put16(ETH_VLAN) == [0x81, 0x00];
  }

  // ---- Parsed frames -------------------------------------------------

  /** The number at a place of the input. */
  function At(buf: seq<byte>, i: nat): int
    requires i + 2 <= |buf|
  {
    Number(buf[i], buf[i + 1])
  }

  lemma AtIs(buf: seq<byte>, i: nat)
    requires i + 2 <= |buf|
    ensures At16(buf, i) == At(buf, i)
  {
    Get16Is(buf[i], buf[i + 1]);
  }

  /** Where the packet starts behind the Ethernet header. */
  function Start(buf: seq<byte>): nat
    requires |buf| >= 14
  {
    if At(buf, 12) == 0x8100 then 18 else 14
  }

  function HeaderLen(buf: seq<byte>, off: nat): nat
    requires off < |buf|
  {
    var b: int := buf[off];
    b % 16 * 4
  }

  /** What belongs to the packet: as much as it announces, if that is all there and holds its header, and otherwise
      everything there is. */
  function Extent(buf: seq<byte>, off: nat): nat
    requires off + 20 <= |buf|
  {
    var n := At(buf, off + 2);
    if HeaderLen(buf, off) <= n && off + n <= |buf| then n else |buf| - off
  }

  lemma IpExact(buf: seq<byte>, off: nat)
    requires off + 20 <= |buf|
    ensures var ihl := HeaderLen(buf, off);
            var l3 := ParseIp(buf, off);
            if ihl < 20 || off + ihl > |buf| then l3.None?
            else if (buf[off + 9] == 17 || buf[off + 9] == 1) && Extent(buf, off) - ihl < 8 then l3.None?
            else
              && l3.Some? && l3.value.Ip? && l3.value.proto == buf[off + 9] && l3.value.headerLen == ihl
              && l3.value.srcIp == buf[off + 12..off + 16] && l3.value.dstIp == buf[off + 16..off + 20]
              && ihl <= Extent(buf, off) <= |buf| - off
              && L4Exact(buf, buf[off + 9], off + ihl, Extent(buf, off) - ihl, l3.value.l4)
  {
    hide At16, At;
    AtIs(buf, off + 2);
    var ihl := HeaderLen(buf, off);
    if ihl >= 20 && off + ihl <= |buf| {
      L4Is(buf, buf[off + 9], off + ihl, Extent(buf, off) - ihl);
    }
  }

  /** Ports, place and length of a datagram; kind, code, place and size of an ICMP message. */
  predicate L4Exact(buf: seq<byte>, proto: byte, at: nat, avail: nat, l4: L4) {
    if proto == 17 then
      && avail >= 8 && at + avail <= |buf| && l4.Udp? && l4.offset == at + 8
      && l4.srcPort == At(buf, at) && l4.dstPort == At(buf, at + 2)
      && l4.length == (if 8 <= At(buf, at + 4) <= avail then At(buf, at + 4) else avail % 65536) - 8
    else if proto == 1 then
      avail >= 8 && at + avail <= |buf| && l4 == Icmp(buf[at], buf[at + 1], at, avail)
    else l4 == OtherL4
  }

  lemma L4Is(buf: seq<byte>, proto: byte, at: nat, avail: nat)
    requires at + avail <= |buf|
    ensures var l4 := ParseL4(buf, proto, at, avail);
            if (proto == 17 || proto == 1) && avail < 8 then l4.None?
            else l4.Some? && L4Exact(buf, proto, at, avail, l4.value)
  {
    hide At16, At;
    if avail >= 8 {
      AtIs(buf, at);
      AtIs(buf, at + 2);
      AtIs(buf, at + 4);
    }
  }

  lemma ArpExact(buf: seq<byte>, off: nat)
    requires off <= |buf|
    ensures var l3 := ParseL3(buf, ETH_ARP, off);
            if |buf| < off + 28 then l3.None?
            else l3 == Some(Arp(At(buf, off + 6), buf[off + 8..off + 14], buf[off + 14..off + 18],
                                buf[off + 18..off + 24], buf[off + 24..off + 28]))
  {
    hide At16, At;
    if |buf| >= off + 28 {
      AtIs(buf, off + 6);
    }
  }

  /** The parser on any input. It needs an Ethernet header, and a tag behind the type 0x8100; it takes addresses,
      tag id and priority from their places; and it takes ARP (0x0806) and IPv4 (0x0800) packets apart as `ArpExact`
      and `IpExact` say, and other types not at all. */
  lemma ParseExact(buf: seq<byte>)
    ensures var v := PktParse(buf);
            if |buf| < 14 || |buf| < Start(buf) then v.None?
            else
              var off, kind := Start(buf), At(buf, Start(buf) - 2);
              && (kind == 0x0806 ==> (v.None? <==> |buf| < off + 28))
              && (kind == 0x0800 ==> (v.None? <==> ParseIp(buf, off).None?))
              && (kind != 0x0806 && kind != 0x0800 ==> v.Some? && v.value.l3 == OtherL3)
              && (v.Some? ==>
                    && v.value.dstMac == buf[..6] && v.value.srcMac == buf[6..12] && v.value.etherType == kind
                    && v.value.vlan == (if off == 14 then None else Some((At(buf, 14) % 4096, At(buf, 14) / 8192)))
                    && Some(v.value.l3) == ParseL3(buf, kind, off))
  {
    hide At16, At, ParseIp;
    if |buf| >= 14 {
      AtIs(buf, 12);
      if |buf| >= 18 {
        AtIs(buf, 14);
        AtIs(buf, 16);
      }
      if |buf| >= Start(buf) {
        ArpExact(buf, Start(buf));
      }
    }
  }
}
