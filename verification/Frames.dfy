/** Ethernet, IPv4 and UDP frames: the builders of both engines and the C parser
    (c_core/packet.c, tftp/session.py). */
module Frames {
  import opened Blocks
  import opened Protocol
  import opened Wrappers
  import opened Checksum

  const ETH_IP: word := 0x0800
  const ETH_ARP: word := 0x0806
  const ETH_VLAN: word := 0x8100
  const PROTO_ICMP: byte := 1
  const PROTO_UDP: byte := 17

  /** Who talks to whom. `tci` is the 802.1Q tag control field of a tagged frame. */
  datatype Path = Path(
    dstMac: seq<byte>, srcMac: seq<byte>, tci: Option<word>,
    srcIp: seq<byte>, dstIp: seq<byte>, srcPort: word, dstPort: word)
  {
    predicate Valid() {
      |dstMac| == 6 && |srcMac| == 6 && |srcIp| == 4 && |dstIp| == 4
    }

    function EthLen(): nat {
      if tci.Some? then 18 else 14
    }
  }

  function EthHeader(p: Path): (s: seq<byte>)
    requires p.Valid()
    ensures |s| == p.EthLen()
  {
    p.dstMac + p.srcMac + (if p.tci.Some? then Put16(ETH_VLAN) + Put16(p.tci.value) else []) + Put16(ETH_IP)
  }

  /** The IPv4 header with its checksum field still zero. */
  function RawIpHeader(p: Path, total: word, id: word): (s: seq<byte>)
    requires p.Valid()
    ensures |s| == 20 && s[10] == 0 && s[11] == 0
  {
    [0x45, 0] + Put16(total) + Put16(id) + Put16(0x4000) + [64, PROTO_UDP] + [0, 0] + p.srcIp + p.dstIp
  }

  function IpHeader(p: Path, total: word, id: word): (s: seq<byte>)
    requires p.Valid()
    ensures |s| == 20
  {
    var raw := RawIpHeader(p, total, id);
    Patched(raw, 10, Csum(raw))
  }

  function UdpHeader(p: Path, length: word): (s: seq<byte>)
    ensures |s| == 8
  {
    Put16(p.srcPort) + Put16(p.dstPort) + Put16(length) + Put16(0)
  }

  /** The whole frame, for a payload that fits an IPv4 packet. */
  function UdpFrame(p: Path, id: word, payload: seq<byte>): seq<byte>
    requires p.Valid() && |payload| <= 65507
  {
    EthHeader(p) + IpHeader(p, 28 + |payload|, id) + UdpHeader(p, 8 + |payload|) + payload
  }

  // ---- Parsing -----------------------------------------------------------

  datatype L4 = Udp(srcPort: word, dstPort: word, offset: nat, length: int)
              | Icmp(kind: byte, code: byte, at: nat, size: int)
              | OtherL4

  datatype L3 = Ip(proto: byte, srcIp: seq<byte>, dstIp: seq<byte>, headerLen: nat, l4: L4)
              | Arp(oper: word, sha: seq<byte>, spa: seq<byte>, tha: seq<byte>, tpa: seq<byte>)
              | OtherL3

  /** `vlan` is the tag's id and priority. */
  datatype View = View(dstMac: seq<byte>, srcMac: seq<byte>, vlan: Option<(nat, nat)>, etherType: word, l3: L3)

  function At16(buf: seq<byte>, i: nat): word
    requires i + 2 <= |buf|
  {
    Get16(buf[i], buf[i + 1])
  }

  /** The length the parser settles on for a datagram of `avail` bytes that announces `announced`:
      an announcement out of range is replaced by the low 16 bits of what there is. */
  function UdpLength(announced: word, avail: nat): word {
    if announced < 8 || announced > avail then avail % 65536 else announced
  }

  /** The transport header at `at`, of which `avail` bytes belong to the packet. */
  function ParseL4(buf: seq<byte>, proto: byte, at: nat, avail: nat): Option<L4>
    requires at + avail <= |buf|
  {
    if proto == PROTO_UDP then
      if avail < 8 then None
      else
        Some(Udp(At16(buf, at), At16(buf, at + 2), at + 8, UdpLength(At16(buf, at + 4), avail) - 8))
    else if proto == PROTO_ICMP then
      if avail < 8 then None else Some(Icmp(buf[at], buf[at + 1], at, avail))
    else Some(OtherL4)
  }

  function ParseIp(buf: seq<byte>, off: nat): Option<L3>
    requires off <= |buf|
  {
    if |buf| < off + 20 then None
    else
      var ihl: nat := buf[off] % 16 * 4;
      if ihl < 20 || |buf| < off + ihl then None
      else
        var announced := At16(buf, off + 2);
        var total := if announced < ihl || |buf| < off + announced then |buf| - off else announced;
        var l4 := ParseL4(buf, buf[off + 9], off + ihl, total - ihl);
        if l4.None? then None
        else Some(Ip(buf[off + 9], buf[off + 12..off + 16], buf[off + 16..off + 20], ihl, l4.value))
  }

  function ParseL3(buf: seq<byte>, etherType: word, off: nat): Option<L3>
    requires off <= |buf|
  {
    if etherType == ETH_ARP then
      if |buf| < off + 28 then None
      else
        Some(Arp(At16(buf, off + 6), buf[off + 8..off + 14], buf[off + 14..off + 18],
                 buf[off + 18..off + 24], buf[off + 24..off + 28]))
    else if etherType != ETH_IP then Some(OtherL3)
    else ParseIp(buf, off)
  }

  function PktParse(buf: seq<byte>): Option<View> {
    if |buf| < 14 then None
    else if At16(buf, 12) == ETH_VLAN then
      if |buf| < 18 then None
      else
        var tci, et := At16(buf, 14), At16(buf, 16);
        var l3 := ParseL3(buf, et, 18);
        if l3.None? then None else Some(View(buf[..6], buf[6..12], Some((tci % 4096, tci / 8192)), et, l3.value))
    else
      var et := At16(buf, 12);
      var l3 := ParseL3(buf, et, 14);
      if l3.None? then None else Some(View(buf[..6], buf[6..12], None, et, l3.value))
  }

  predicate L4Inside(l4: L4, size: nat) {
    match l4
    case Udp(_, _, offset, length) => 0 <= length && offset + length <= size
    case Icmp(_, _, at, length) => 8 <= length && at + length <= size
    case OtherL4 => true
  }

  lemma UdpLengthFits(announced: word, avail: nat)
    ensures UdpLength(announced, avail) <= avail
    ensures UdpLength(announced, avail) >= 8 <==> 8 <= announced <= avail || avail % 65536 >= 8
  {
  }

  /** The transport view lies inside the input unless the length is taken from what there is and its
      low 16 bits are below 8; no input of less than 65536 bytes is like that. */
  lemma L4InsideIff(buf: seq<byte>, proto: byte, at: nat, avail: nat)
    requires at + avail <= |buf|
    ensures var l4 := ParseL4(buf, proto, at, avail);
            l4.Some? ==>
              (L4Inside(l4.value, |buf|) <==>
               (proto == PROTO_UDP ==> 8 <= At16(buf, at + 4) <= avail || avail % 65536 >= 8))
  {
    hide At16;
    if proto == PROTO_UDP && avail >= 8 {
      UdpLengthFits(At16(buf, at + 4), avail);
    }
  }

  lemma L4StaysInside(buf: seq<byte>, proto: byte, at: nat, avail: nat)
    requires at + avail <= |buf| <= 65535
    ensures var l4 := ParseL4(buf, proto, at, avail); l4.Some? ==> L4Inside(l4.value, |buf|)
  {
    hide At16, L4Inside, UdpLength;
    L4InsideIff(buf, proto, at, avail);
  }

  lemma IpStaysInside(buf: seq<byte>, off: nat)
    requires off <= |buf| <= 65535
    ensures var l3 := ParseIp(buf, off); l3.Some? ==> l3.value.Ip? && L4Inside(l3.value.l4, |buf|)
  {
    hide ParseL4, Get16, L4Inside;
    if |buf| >= off + 20 {
      var ihl: nat := buf[off] % 16 * 4;
      if 20 <= ihl && off + ihl <= |buf| {
        var announced := At16(buf, off + 2);
        var total := if announced < ihl || |buf| < off + announced then |buf| - off else announced;
        L4StaysInside(buf, buf[off + 9], off + ihl, total - ihl);
      }
    }
  }

  /** An untagged UDP packet that announces no lengths, with n bytes behind its IPv4 header. */
  function BareUdp(n: nat): (buf: seq<byte>)
    ensures |buf| == 34 + n
    ensures forall i | 0 <= i < |buf| :: buf[i] == BareByte(i)
  {
    seq(34 + n, i => BareByte(i))
  }

  function BareByte(i: int): byte {
    if i == 12 then 0x08 else if i == 14 then 0x45 else if i == 23 then PROTO_UDP else 0
  }

  lemma BareWord(buf: seq<byte>, i: nat)
    requires i + 2 <= |buf| && (buf[i] == 8 || buf[i] == 0) && buf[i + 1] == 0
    ensures At16(buf, i) == if buf[i] == 8 then ETH_IP else 0
  {
  }

  /** As a function on inputs of any length, the parser gives this packet a payload of negative length
      exactly when n is a multiple of 65536 or up to 7 more, which first happens at 65570 bytes. */
  lemma BareUdpLength(n: nat)
    requires n >= 8
    ensures var v := PktParse(BareUdp(n));
            && v.Some? && v.value.l3.Ip? && v.value.l3.l4.Udp?
            && v.value.l3.l4.length == n % 65536 - 8
            && (L4Inside(v.value.l3.l4, 34 + n) <==> n % 65536 >= 8)
  {
    hide At16, BareUdp;
    var buf := BareUdp(n);
    BareWord(buf, 12);
    BareWord(buf, 16);
    BareWord(buf, 38);
    assert ParseL4(buf, PROTO_UDP, 34, n).value.length == n % 65536 - 8;
    assert ParseIp(buf, 14).value.l4 == ParseL4(buf, PROTO_UDP, 34, n).value;
  }

  /** For every input of at most 65535 bytes the payload the parser points at lies inside it. */
  lemma ViewStaysInside(buf: seq<byte>)
    requires |buf| <= 65535
    ensures var v := PktParse(buf); v.Some? && v.value.l3.Ip? ==> L4Inside(v.value.l3.l4, |buf|)
  {
    hide ParseIp, Get16;
    if |buf| >= 14 {
      IpStaysInside(buf, 14);
    }
    if |buf| >= 18 {
      IpStaysInside(buf, 18);
    }
  }

  // ---- Round trip --------------------------------------------------------

  /** A UDP header that announces `length` payload bytes, of which the input may hold fewer. */
  lemma UdpParses(buf: seq<byte>, p: Path, at: nat, length: nat, avail: nat)
    requires 8 + length < 65536 && 8 <= avail && at + avail <= |buf| && avail <= 8 + length
    requires buf[at..at + 8] == UdpHeader(p, 8 + length)
    ensures ParseL4(buf, PROTO_UDP, at, avail) == Some(Udp(p.srcPort, p.dstPort, at + 8, avail - 8))
  {
    hide Get16, Hi, Lo;
    var h := UdpHeader(p, 8 + length);
    assert forall i | 0 <= i < 8 :: buf[at + i] == h[i];
    WordAt(buf, at, p.srcPort);
    WordAt(buf, at + 2, p.dstPort);
    WordAt(buf, at + 4, 8 + length);
  }

  /** A big-endian field reads back. */
  lemma WordAt(buf: seq<byte>, i: nat, w: word)
    requires i + 2 <= |buf| && buf[i] == Hi(w) && buf[i + 1] == Lo(w)
    ensures At16(buf, i) == w
  {
  }

  lemma IpHeaderFields(p: Path, total: word, id: word)
    requires p.Valid()
    ensures var h := IpHeader(p, total, id);
            && h[0] == 0x45 && h[2] == Hi(total) && h[3] == Lo(total) && h[9] == PROTO_UDP
            && h[12..16] == p.srcIp && h[16..20] == p.dstIp
  {
    hide Hi, Lo, Csum;
    var raw := RawIpHeader(p, total, id);
    assert raw[0] == 0x45 && raw[2] == Hi(total) && raw[3] == Lo(total) && raw[9] == PROTO_UDP;
    assert raw[12..16] == p.srcIp && raw[16..20] == p.dstIp;
    PatchKeeps(raw, 10, Csum(raw));
  }

  /** Patching a field leaves the rest of a buffer alone. */
  lemma PatchKeeps(s: seq<byte>, at: nat, w: word)
    requires at + 2 <= |s|
    ensures var t := Patched(s, at, w);
            |t| == |s| && t[..at] == s[..at] && t[at + 2..] == s[at + 2..]
            && (forall i | 0 <= i < |s| && i != at && i != at + 1 :: t[i] == s[i])
            && (forall i, j | at + 2 <= i <= j <= |s| :: t[i..j] == s[i..j])
  {
    hide Put16;
    var t := Patched(s, at, w);
    forall i, j | at + 2 <= i <= j <= |s| ensures t[i..j] == s[i..j] {
      assert t[at + 2..][i - at - 2..j - at - 2] == t[i..j];
      assert s[at + 2..][i - at - 2..j - at - 2] == s[i..j];
    }
  }

  lemma IpParses(buf: seq<byte>, p: Path, id: word, off: nat, length: nat)
    requires p.Valid() && length <= 65507 && off + 28 <= |buf|
    requires buf[off..off + 20] == IpHeader(p, 28 + length, id) && buf[off + 20..off + 28] == UdpHeader(p, 8 + length)
    ensures ParseIp(buf, off) ==
            Some(Ip(PROTO_UDP, p.srcIp, p.dstIp, 20,
                    Udp(p.srcPort, p.dstPort, off + 28, Min(length, |buf| - off - 28))))
  {
    hide IpHeader, UdpHeader, ParseL4, Get16, Hi, Lo;
    var h := IpHeader(p, 28 + length, id);
    IpHeaderFields(p, 28 + length, id);
    assert forall i | 0 <= i < 20 :: buf[off + i] == h[i];
    assert buf[off + 12..off + 16] == h[12..16] && buf[off + 16..off + 20] == h[16..20];
    WordAt(buf, off + 2, 28 + length);
    UdpParses(buf, p, off + 20, length, Min(8 + length, |buf| - off - 20));
  }

  lemma EthFields(p: Path, rest: seq<byte>)
    requires p.Valid()
    ensures var buf := EthHeader(p) + rest;
            && buf[..6] == p.dstMac && buf[6..12] == p.srcMac
            && (p.tci.None? ==> At16(buf, 12) == ETH_IP)
            && (p.tci.Some? ==> At16(buf, 12) == ETH_VLAN && At16(buf, 14) == p.tci.value && At16(buf, 16) == ETH_IP)
  {
    hide Get16, Hi, Lo;
    var buf := EthHeader(p) + rest;
    assert buf[..6] == p.dstMac && buf[6..12] == p.srcMac;
    if p.tci.Some? {
      WordAt(buf, 12, ETH_VLAN);
      WordAt(buf, 14, p.tci.value);
      WordAt(buf, 16, ETH_IP);
    } else {
      WordAt(buf, 12, ETH_IP);
    }
  }

  /** What the parser sees of a frame whose payload runs to `length` bytes. */
  function ViewOf(p: Path, length: int): View {
    View(p.dstMac, p.srcMac, if p.tci.Some? then Some((p.tci.value % 4096, p.tci.value / 8192)) else None, ETH_IP,
         Ip(PROTO_UDP, p.srcIp, p.dstIp, 20, Udp(p.srcPort, p.dstPort, p.EthLen() + 28, length)))
  }

  /** Any input that starts with a built frame's headers is parsed as that frame; the payload is as long
      as the headers announce, or as the input holds when that is less. */
  lemma CaptureParses(p: Path, id: word, payload: seq<byte>, buf: seq<byte>)
    requires p.Valid() && |payload| <= 65507 && p.EthLen() + 28 <= |buf|
    requires buf[..p.EthLen() + 28] == UdpFrame(p, id, payload)[..p.EthLen() + 28]
    ensures PktParse(buf) == Some(ViewOf(p, Min(|payload|, |buf| - p.EthLen() - 28)))
  {
    hide EthHeader, IpHeader, UdpHeader, ParseIp, At16;
    var f, off := UdpFrame(p, id, payload), p.EthLen();
    var ip, udp := IpHeader(p, 28 + |payload|, id), UdpHeader(p, 8 + |payload|);
    assert f[..off + 28] == EthHeader(p) + ip + udp;
    var head := buf[..off + 28];
    assert buf == head + buf[off + 28..];
    assert head[..off] == EthHeader(p) && head[off..off + 20] == ip && head[off + 20..off + 28] == udp;
    assert buf == EthHeader(p) + buf[off..];
    EthFields(p, buf[off..]);
    assert buf[off..off + 20] == ip && buf[off + 20..off + 28] == udp;
    IpParses(buf, p, id, off, |payload|);
  }

  /** Parsing a built frame recovers the addresses, the ports, the tag's id and priority, and a view
      that is exactly the payload. */
  lemma FrameRoundTrip(p: Path, id: word, payload: seq<byte>)
    requires p.Valid() && |payload| <= 65507
    ensures var f := UdpFrame(p, id, payload);
            var at := p.EthLen() + 28;
            PktParse(f) == Some(ViewOf(p, |payload|)) && f[at..at + |payload|] == payload
  {
    hide EthHeader, IpHeader, UdpHeader, PktParse;
    CaptureParses(p, id, payload, UdpFrame(p, id, payload));
  }

  /** Every frame's IPv4 header verifies. */
  lemma FrameHeaderVerifies(p: Path, id: word, payload: seq<byte>)
    requires p.Valid() && |payload| <= 65507
    ensures Csum(UdpFrame(p, id, payload)[p.EthLen()..p.EthLen() + 20]) == 0
  {
    hide EthHeader, RawIpHeader, UdpHeader, Csum;
    var f, off := UdpFrame(p, id, payload), p.EthLen();
    var raw := RawIpHeader(p, 28 + |payload|, id);
    assert f[off..off + 20] == Patched(raw, 10, Csum(raw));
    ChecksumSelfVerifies(raw, 10);
  }

  // ---- The two builders ----------------------------------------------------

  /** The tag the C engine writes: the id only, and none for the id 0xFFFF. */
  function CTag(vlanId: word): Option<word> {
    if vlanId == 0xFFFF then None else Some(vlanId % 4096)
  }

  /** The tag the Python engine writes: priority, drop bit and id. */
  function PyTag(vlan: Option<(nat, nat, nat)>): Option<word> {
    match vlan
    case None => None
    case Some((pcp, dei, vid)) => Some(pcp % 8 * 8192 + dei % 2 * 4096 + vid % 4096)
  }

  /** The id and priority put into a Python tag are the ones the C parser reads, with the drop bit between them. */
  lemma PyTagReadsBack(pcp: nat, dei: nat, vid: nat)
    requires pcp < 8 && dei < 2 && vid < 4096
    ensures var t := PyTag(Some((pcp, dei, vid)));
            t.Some? && t.value % 4096 == vid && t.value / 8192 == pcp && t.value / 4096 % 2 == dei
  {
  }

  /** Copies bytes into a buffer behind what is there already. */
  method CopyInto(buf: array<byte>, at: nat, s: seq<byte>)
    requires at + |s| <= buf.Length
    modifies buf
    ensures buf[..at + |s|] == old(buf[..at]) + s
    ensures buf[at + |s|..] == old(buf[at + |s|..])
  {
    forall i | 0 <= i < |s| {
      buf[at + i] := s[i];
    }
  }

  /** The C engine's builder, with its counter for the IPv4 identification field. */
  class PacketBuilder {
    var ipId: nat

    constructor ()
      ensures ipId == 0
    {
      ipId := 0;
    }

    /** Fills the front of `buf` with a frame and returns its length, or 0 when the buffer is too
        small for a tagged frame of this payload. */
    method BuildUdp4(buf: array<byte>, p: Path, vlanId: word, payload: seq<byte>) returns (n: nat)
      requires p.Valid() && p.tci == CTag(vlanId) && |payload| <= 65507 && ipId < 65536
      modifies this, buf
      ensures n == 0 <==> 46 + |payload| > buf.Length
      ensures n == 0 ==> buf[..] == old(buf[..]) && ipId == old(ipId)
      ensures n > 0 ==> ipId == (old(ipId) + 1) % 65536 && n <= buf.Length
                        && buf[..n] == UdpFrame(p, ipId, payload) && buf[n..] == old(buf[n..])
    {
      if 46 + |payload| > buf.Length {
        return 0;
      }
      hide EthHeader, IpHeader, UdpHeader;
      var off := p.EthLen();
      ghost var before := buf[..];
      CopyInto(buf, 0, EthHeader(p));
      assert buf[..off] == EthHeader(p) && buf[off..][20..] == before[off + 20..];
      WriteIpHeader(buf, off, p, 28 + |payload|);
      ghost var headers := EthHeader(p) + IpHeader(p, 28 + |payload|, ipId);
      assert buf[..off + 20] == headers && buf[off + 20..][8..] == before[off + 28..];
      CopyInto(buf, off + 20, UdpHeader(p, 8 + |payload|));
      headers := headers + UdpHeader(p, 8 + |payload|);
      n := off + 28 + |payload|;
      assert buf[..off + 28] == headers && buf[off + 28..][|payload|..] == before[n..];
      CopyInto(buf, off + 28, payload);
    }

    /** The IPv4 header: written with a zero checksum, summed in place, then patched. */
    method WriteIpHeader(buf: array<byte>, off: nat, p: Path, total: word)
      requires p.Valid() && off + 20 <= buf.Length && ipId < 65536
      modifies this, buf
      ensures ipId == (old(ipId) + 1) % 65536
      ensures buf[..off + 20] == old(buf[..off]) + IpHeader(p, total, ipId)
      ensures buf[off + 20..] == old(buf[off + 20..])
    {
      hide RawIpHeader, Csum, Put16;
      ipId := (ipId + 1) % 65536;
      var raw := RawIpHeader(p, total, ipId);
      ghost var front := buf[..off];
      CopyInto(buf, off, raw);
      assert buf[off..off + 20] == raw;
      var c := InetCsum(buf[off..off + 20]);
      ghost var tail := buf[off + 12..];
      assert tail[..8] == buf[off..off + 20][12..] && tail[8..] == buf[off + 20..];
      assert buf[..off + 10] == front + raw[..10];
      CopyInto(buf, off + 10, Put16(c));
      assert buf[off + 12..] == tail;
      assert buf[off + 20..] == tail[8..] && buf[..off + 20] == buf[..off + 12] + tail[..8];
      assert IpHeader(p, total, ipId) == raw[..10] + Put16(c) + raw[12..];
    }
  }

  /** The Python engine's builder. */
  method BuildFrameFast(p: Path, vlan: Option<(nat, nat, nat)>, payload: seq<byte>) returns (frame: seq<byte>)
    requires p.Valid() && p.tci == PyTag(vlan) && |payload| <= 65507
    ensures frame == UdpFrame(p, 0, payload)
  {
    hide EthHeader, RawIpHeader, UdpHeader, Csum;
    var header := RawIpHeader(p, 28 + |payload|, 0);
    var csum := PyChecksum(header);
    header := header[..10] + Put16(csum) + header[12..];
    frame := EthHeader(p) + header + UdpHeader(p, 8 + |payload|) + payload;
  }
}
