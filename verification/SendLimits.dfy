/** The numbers behind a C download: which blocks fit a packet buffer, how many frames fit a send queue, and how
    long a session waits for its client (c_core/session.c, c_core/packet.c, c_core/pcap_io.c). */
module SendLimits {
  import opened Blocks
  import opened Protocol
  import opened Wrappers
  import opened Frames
  import opened ReadEngine
  import opened ReadRefinement
  import opened DownloadWindow
  import opened Overrun

  // ---- What fits a packet --------------------------------------------

  /** One block made into a frame in a buffer of 2048 bytes, as the fill does it; 0 when it does not fit. */
  method BuildDataFrame(b: PacketBuilder, frame: array<byte>, p: Path, vlanId: word, block: nat, chunk: seq<byte>)
    returns (n: nat)
    requires frame.Length == 2048 && p.Valid() && p.tci == CTag(vlanId) && b.ipId < 65536
    modifies b, frame
    ensures n == 0 <==> |chunk| > 1998
    ensures n > 0 ==> b.ipId == (old(b.ipId) + 1) % 65536 && n == p.EthLen() + 32 + |chunk|
                      && frame[..n] == UdpFrame(p, b.ipId, PackData(Wire(block), chunk))
    ensures n > 0 ==> PktParse(frame[..n]) == Some(ViewOf(p, 4 + |chunk|))
  {
    hide UdpFrame, PktParse, ViewOf, PackData, CTag;
    if 2048 < 4 + |chunk| {
      return 0;
    }
    var pkt := PackData(Wire(block), chunk);
    PacketLength(Wire(block), chunk);
    n := b.BuildUdp4(frame, p, vlanId, pkt);
    if n > 0 {
      FrameRoundTrip(p, b.ipId, pkt);
      FrameSize(p, b.ipId, pkt);
    }
  }

  lemma FrameSize(p: Path, id: word, payload: seq<byte>)
    requires p.Valid() && |payload| <= 65507
    ensures |UdpFrame(p, id, payload)| == p.EthLen() + 28 + |payload|
  {
    hide EthHeader, IpHeader, UdpHeader;
  }

  /** The fill gives up on a block exactly when that frame cannot be built. */
  lemma ChunkFitsIff(c: Config, q: seq<Frame>, last: nat, block: nat, offset: nat, left: nat, readable: nat)
    requires left > 0 && readable > 0
    ensures var chunk := ReadAt(c, offset);
            |chunk| > 1998 ==> Fill(c, q, last, block, offset, left, readable) == Filled(q, last, false, false)
    ensures var chunk := ReadAt(c, offset);
            |chunk| <= 1998 && left == 1 ==> Fill(c, q, last, block, offset, left, readable).ok
  {
    hide ReadAt, QueueBytes, PackData;
  }

  // ---- What fits a queue ---------------------------------------------

  /** A queued frame takes its own length and 16 bytes more. */
  lemma CostIs(c: Config, p: Path, id: word, f: Frame)
    requires p.Valid() && |f.pkt| <= 65507 && c.headerLen == p.EthLen() + 28
    ensures Cost(c, f) == 16 + |UdpFrame(p, id, f.pkt)|
  {
    hide UdpFrame;
    FrameSize(p, id, f.pkt);
  }

  /** How many full blocks of a window one queue of 131072 bytes takes. */
  lemma SpanIs(c: Config)
    requires c.Valid()
    ensures Span(c) == Min(c.windowsize, 131072 / (20 + c.headerLen + c.blksize))
  {
    hide Times;
    var cost := 20 + c.headerLen + c.blksize;
    var n := 131072 / cost;
    DivMod(131072, cost);
    OneLess(n, cost);
    TimesIs(131072, cost, n);
    TimesIs(131072, cost, n + 1);
  }

  /** The first window of a long enough download is that many blocks, in order. */
  lemma FirstWindowIs(c: Config)
    requires c.Valid() && c.hasPrebuilt && c.blksize <= 1998 && 2 * c.windowsize < c.Total()
    ensures var n := Min(c.windowsize, 131072 / (20 + c.headerLen + c.blksize));
            var s := Begin(c, 0, c.windowsize, c.windowsize);
            s.state == SendRrq && s.windowLast == n && s.wire == FramesOf(c, 1, n)
  {
    hide BlockCount, SendWindow, FramesOf, QueueBytes, FullCost, Room, Span;
    SpanIs(c);
    EmptyFits(c);
    SendsSo(c, Unsent(0), 0);
    assert [] + FramesOf(c, 1, Span(c)) == FramesOf(c, 1, Span(c));
  }

  /** A window of 64 blocks of 1468 bytes fits, tagged or not. */
  lemma LargestWindowFits(c: Config)
    requires c.Valid() && c.windowsize == 64 && c.blksize == 1468
    ensures Span(c) == 64
  {
    SpanIs(c);
    assert 131072 / (20 + c.headerLen + c.blksize) >= 64 by {
      DivMod(131072, 20 + c.headerLen + c.blksize);
    }
  }

  // ---- Patience ------------------------------------------------------

  /** k timeouts in a row with working reads. */
  function Expiries(c: Config, s: Session, k: nat): Session {
    if k == 0 then s else Step(c, Expiries(c, s, k - 1), Expire(c.windowsize, c.windowsize))
  }

  function Repeat(fs: seq<Frame>, k: nat): seq<Frame> {
    if k == 0 then [] else Repeat(fs, k - 1) + fs
  }

  /** The window that starts at the session's next block. */
  function WindowOf(c: Config, s: Session): Filled {
    FillWindow(c, [], s.nextBlock, s.windowFirstOffset, c.windowsize)
  }

  lemma ResendStep(c: Config, s: Session)
    requires c.blksize <= 1998 && s.state == SendRrq
    ensures var s' := Step(c, s, Expire(c.windowsize, c.windowsize));
            if s.retrans < 5 then
              && s'.state == SendRrq && s'.retrans == s.retrans + 1 && s'.wire == s.wire + WindowOf(c, s).queue
              && s'.nextBlock == s.nextBlock && s'.windowFirstOffset == s.windowFirstOffset
            else s'.state == Free && s'.wire == s.wire
  {
    hide FillWindow, PrebuildNext;
    FillWindowOk(c, [], s.nextBlock, s.windowFirstOffset, c.windowsize);
    var r := WindowOf(c, s);
    var t := s.(retrans := s.retrans + 1, preValid := false, wire := s.wire + r.queue,
                windowLast := r.last, eof := r.eof);
    PrebuildIsInvisible(c, t, c.windowsize);
  }

  /** A sending session endures five timeouts in a row, sends the window of its next block again for each, and is let go
      on the sixth. */
  lemma {:induction false} DownloadPatience(c: Config, s: Session, k: nat)
    requires c.blksize <= 1998 && s.state == SendRrq && s.retrans + k <= 6 && s.retrans <= 5
    ensures var s' := Expiries(c, s, k);
            if s.retrans + k <= 5 then
              && s'.state == SendRrq && s'.retrans == s.retrans + k
              && s'.wire == s.wire + Repeat(WindowOf(c, s).queue, k)
              && s'.nextBlock == s.nextBlock && s'.windowFirstOffset == s.windowFirstOffset
            else s'.state == Free && s'.wire == s.wire + Repeat(WindowOf(c, s).queue, k - 1)
  {
    hide Step, FillWindow;
    var w := WindowOf(c, s).queue;
    if k == 0 {
      assert s.wire + [] == s.wire;
    } else {
      DownloadPatience(c, s, k - 1);
      ResendStep(c, Expiries(c, s, k - 1));
      assert s.wire + Repeat(w, k - 1) + w == s.wire + (Repeat(w, k - 1) + w);
    }
  }

  /** And an ACK that moves it on gives it all of them again. */
  lemma AckGivesRetriesBack(c: Config, s: Session, ack: word, readable: nat, preReadable: nat)
    requires s.state == SendRrq && MapAck(s.windowLast, ack) >= s.nextBlock
    ensures var s' := OnAck(c, s, ack, readable, preReadable); s'.state == SendRrq ==> s'.retrans == 0
  {
    hide MapAck, FillWindow, PrebuildNext, U32;
    var cand := MapAck(s.windowLast, ack);
    var s' := Credit(c, s, cand);
    PrebuildIsInvisible(
      c,
      s'.(windowLast := s'.preLast, eof := s'.preEof, wire := s'.wire + s'.prebuilt, prebuilt := [], preValid := false),
      preReadable);
    var r := FillWindow(c, [], s'.nextBlock, s'.windowFirstOffset, readable);
    PrebuildIsInvisible(c, AfterFill(s', r), preReadable);
  }
}
