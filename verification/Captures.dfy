/** What an upload makes of captured frames: the parser of `Frames` in front of the handler of
    `UploadEngine`. A frame that was cut off, by the capture length (c_core/pcap_io.c) or in transit,
    gets its UDP length replaced by what is there (c_core/packet.c), so a full block reads as short. */
module Captures {
  import opened Blocks
  import opened Protocol
  import opened Wrappers
  import opened Frames
  import opened UE = UploadEngine
  import RE = ReadEngine

  /** The most a capture holds of a frame. */
  const SNAPLEN := 2048

  /** The UDP payload the parser points at. */
  function PayloadOf(buf: seq<byte>): Option<seq<byte>> {
    match PktParse(buf)
    case Some(View(_, _, _, _, Ip(_, _, _, _, Udp(_, _, offset, length)))) =>
      if 0 <= length && offset + length <= |buf| then Some(buf[offset..offset + length]) else None
    case _ => None
  }

  /** A captured frame of the client: what was sent is a DATA packet of block `block`. */
  datatype Arrival = Arrival(path: Path, id: word, block: nat, buf: seq<byte>)

  function Sent(p: Policy, data: seq<byte>, a: Arrival): seq<byte>
    requires p.blksize > 0 && a.block > 0
  {
    PackData(Wire(a.block), Slice(data, p.blksize, a.block))
  }

  /** The capture is the frame, perhaps padded, or its front with all headers in it. */
  predicate Carries(p: Policy, data: seq<byte>, a: Arrival) {
    && 0 < p.blksize <= 65464 && a.path.Valid()
    && 1 <= a.block <= BlockCount(|data|, p.blksize)
    && |Sent(p, data, a)| <= 65507
    && a.path.EthLen() + 32 <= |a.buf|
    && (UdpFrame(a.path, a.id, Sent(p, data, a)) <= a.buf || a.buf <= UdpFrame(a.path, a.id, Sent(p, data, a)))
  }

  /** All that the frame's headers announce was captured. */
  predicate Whole(p: Policy, data: seq<byte>, a: Arrival)
    requires Carries(p, data, a)
  {
    UdpFrame(a.path, a.id, Sent(p, data, a)) <= a.buf
  }

  lemma CaptureGives(path: Path, id: word, payload: seq<byte>, buf: seq<byte>)
    requires path.Valid() && |payload| <= 65507 && path.EthLen() + 28 <= |buf|
    requires UdpFrame(path, id, payload) <= buf || buf <= UdpFrame(path, id, payload)
    ensures PayloadOf(buf) == Some(payload[..Min(|payload|, |buf| - path.EthLen() - 28)])
  {
    hide EthHeader, IpHeader, UdpHeader, PktParse;
    var f, at := UdpFrame(path, id, payload), path.EthLen() + 28;
    var n := Min(|payload|, |buf| - at);
    assert f[at..] == payload;
    assert buf[..at] == f[..at];
    CaptureParses(path, id, payload, buf);
    assert buf[at..at + n] == f[at..at + n] == payload[..n];
  }

  /** The DATA packet the server hears, by number and payload. */
  function Heard(buf: seq<byte>): Option<(word, seq<byte>)> {
    match PayloadOf(buf)
    case None => None
    case Some(pkt) =>
      match Decode(pkt)
      case Data(block, payload) => Some((block, payload))
      case _ => None
  }

  /** Its payload is the block's, cut to what was captured. */
  lemma HeardIsCut(p: Policy, data: seq<byte>, a: Arrival)
    requires Carries(p, data, a)
    ensures var slice := Slice(data, p.blksize, a.block);
            Heard(a.buf) == Some((Wire(a.block), slice[..Min(|slice|, |a.buf| - a.path.EthLen() - 32)]))
  {
    hide BlockCount, Slice, UdpFrame, PayloadOf, Decode, Hi, Lo;
    var slice, pkt := Slice(data, p.blksize, a.block), Sent(p, data, a);
    CaptureGives(a.path, a.id, pkt, a.buf);
    var n := Min(|slice|, |a.buf| - a.path.EthLen() - 32);
    assert pkt[..Min(|pkt|, |a.buf| - a.path.EthLen() - 28)] == PackData(Wire(a.block), slice[..n]);
    DecodeData(Wire(a.block), slice[..n]);
  }

  /** With nothing cut off, the server hears exactly the block. */
  lemma WholeIsHeard(p: Policy, data: seq<byte>, a: Arrival)
    requires Carries(p, data, a)
    ensures Whole(p, data, a) <==> a.path.EthLen() + 32 + |Slice(data, p.blksize, a.block)| <= |a.buf|
    ensures Whole(p, data, a) ==> Heard(a.buf) == Some((Wire(a.block), Slice(data, p.blksize, a.block)))
  {
    hide BlockCount, Slice, Heard;
    HeardIsCut(p, data, a);
    FrameLength(a.path, a.id, Sent(p, data, a));
    var slice := Slice(data, p.blksize, a.block);
    assert slice[..|slice|] == slice;
  }

  lemma FrameLength(path: Path, id: word, payload: seq<byte>)
    requires path.Valid() && |payload| <= 65507
    ensures |UdpFrame(path, id, payload)| == path.EthLen() + 28 + |payload|
  {
    hide EthHeader, IpHeader, UdpHeader;
  }

  /** Every DATA packet a receiving upload hears comes from a whole capture of a block of the data, less
      than a full cycle of numbers away from the block that is due. */
  ghost predicate HeardWhole(p: Policy, data: seq<byte>, run: UE.Run) {
    run.Then? ==>
      && HeardWhole(p, data, run.before)
      && var u := UE.Exec(p, run.before);
         run.ev.Block? && u.state == UE.Receiving ==>
           exists a :: IsHeard(p, data, run.ev, a) && Near(|u.accepted| + 1, a.block)
  }

  predicate IsHeard(p: Policy, data: seq<byte>, ev: UE.Event, a: Arrival)
    requires ev.Block?
  {
    Carries(p, data, a) && Whole(p, data, a) && Heard(a.buf) == Some((ev.block, ev.payload))
  }

  lemma {:induction false} HeardIsNear(p: Policy, data: seq<byte>, run: UE.Run)
    requires p.blksize > 0 && HeardWhole(p, data, run)
    ensures NearFromFile(p, data, run)
  {
    hide BlockCount, Slice, Heard, Whole, UE.Step;
    if run.Then? {
      HeardIsNear(p, data, run.before);
      var u := UE.Exec(p, run.before);
      if run.ev.Block? && u.state == UE.Receiving {
        var a :| IsHeard(p, data, run.ev, a) && Near(|u.accepted| + 1, a.block);
        WholeIsHeard(p, data, a);
        assert IsBlock(p, data, run.ev, a.block);
      }
    }
  }

  /** An upload that hears only whole captures holds a leading part of the data, and a committed one
      holds all of it. */
  lemma WholeCapturesUpload(p: Policy, data: seq<byte>, run: UE.Run)
    requires p.blksize > 0 && HeardWhole(p, data, run)
    ensures HoldsPrefix(p, data, UE.Exec(p, run))
  {
    HeardIsNear(p, data, run);
    UploadIsPrefix(p, data, run);
  }

  /** A cut-off frame of the block that is due commits the upload short of the data. */
  lemma CutFrameCommits(p: Policy, data: seq<byte>, n: nat, a: Arrival)
    requires Carries(p, data, a) && !Whole(p, data, a) && a.block == n + 1
    requires p.maxSize == 0 && n < BlockCount(|data|, p.blksize) && n + 65537 < RE.TWO32
    ensures Heard(a.buf).Some?
    ensures var (block, payload) := Heard(a.buf).value;
            var u := UE.Exec(p, UE.Run.Then(InOrder(p, data, n), UE.Block(block, payload, true, true)));
            u.result == Committed && u.file < data
  {
    hide BlockCount, Slice, Prefix, Heard, Whole, OnData, UE.Exec, NearFromFile, InOrder;
    HeardIsCut(p, data, a);
    WholeIsHeard(p, data, a);
    InOrderRuns(p, data, n);
    var (block, payload) := Heard(a.buf).value;
    BlockThen(p, InOrder(p, data, n), block, payload);
    DataExact(p, UE.Exec(p, InOrder(p, data, n)), block, payload, true, true);
    OnlyLastIsShort(data, p.blksize, n + 1);
    CutIsShorter(data, p.blksize, n, |a.buf| - a.path.EthLen() - 32);
  }

  lemma CutIsShorter(data: seq<byte>, blksize: nat, n: nat, cut: nat)
    requires blksize > 0 && cut < |Slice(data, blksize, n + 1)|
    ensures Prefix(data, blksize, n) + Slice(data, blksize, n + 1)[..cut] < data
  {
    PrefixStep(data, blksize, n + 1);
    hide Slice;
    var w, s := Prefix(data, blksize, n), Slice(data, blksize, n + 1);
    assert w + s == Prefix(data, blksize, n + 1) <= data;
    assert w + s[..cut] == (w + s)[..|w| + cut];
  }

  /** A capture takes in a whole frame exactly when headers and block fit the capture length, so with
      larger blocks the first full one commits the upload. */
  lemma CaptureLimit(p: Policy, data: seq<byte>, a: Arrival)
    requires Carries(p, data, a)
    requires var f := UdpFrame(a.path, a.id, Sent(p, data, a)); a.buf == f[..Min(SNAPLEN, |f|)]
    ensures Whole(p, data, a) <==> a.path.EthLen() + 32 + |Slice(data, p.blksize, a.block)| <= SNAPLEN
  {
    hide BlockCount, Slice, UdpFrame, Whole;
    FrameLength(a.path, a.id, Sent(p, data, a));
    WholeIsHeard(p, data, a);
  }
}
