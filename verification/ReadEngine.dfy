/** Downloads in the C engine: windows filled from disk or from the prebuilt queue
    (c_core/session.c). A session is a record here; `ReadSession` below updates one in place. */
module ReadEngine {
  import opened Blocks
  import opened Protocol

  const MAX_RETRANS := 5

  /** Bytes a send queue holds, and the record header it keeps per frame. */
  const QUEUE_CAP := 131072
  const RECORD_HEADER := 16

  /** Largest block whose UDP frame still fits the 2048-byte packet buffers. */
  const MAX_CHUNK := 1998

  const TWO32 := 0x1_0000_0000

  /** Unsigned 32-bit arithmetic. */
  function U32(n: int): (r: nat)
    ensures r < TWO32
    ensures 0 <= n < TWO32 ==> r == n
  {
    n % 0x1_0000_0000
  }

  /** `headerLen` counts the Ethernet, IPv4 and UDP headers; `hasPrebuilt` is false when the
      prebuild queue could not be allocated. */
  datatype Config = Config(file: seq<byte>, blksize: nat, windowsize: nat, headerLen: nat, hasPrebuilt: bool) {
    /** The last clause is what the ACK mapping needs of its 32-bit arithmetic (`CounterBound`). */
    predicate Valid() {
      && 0 < blksize < 65536
      && 0 < windowsize < 256
      && headerLen <= 46
      && BlockCount(|file|, blksize) + 65536 < TWO32
    }

    function Total(): (n: nat)
      requires blksize > 0
      ensures n > 0
    {
      BlockCount(|file|, blksize)
    }
  }

  /** A queued DATA frame: the 32-bit block it was built for and its TFTP bytes. */
  datatype Frame = Frame(block: nat, pkt: seq<byte>)

  function FrameOf(c: Config, b: nat): Frame
    requires c.blksize > 0 && b > 0
  {
    Frame(b, PackData(Wire(b), Slice(c.file, c.blksize, b)))
  }

  function FramesOf(c: Config, lo: nat, hi: int): (fs: seq<Frame>)
    requires c.blksize > 0 && lo > 0
    ensures |fs| == if hi < lo then 0 else hi - lo + 1
    ensures forall i | 0 <= i < |fs| :: fs[i] == FrameOf(c, lo + i)
    decreases hi - lo
  {
    if hi < lo then [] else [FrameOf(c, lo)] + FramesOf(c, lo + 1, hi)
  }

  function QueueBytes(c: Config, q: seq<Frame>): nat {
    if q == [] then 0
    else QueueBytes(c, q[..|q| - 1]) + Cost(c, q[|q| - 1])
  }

  function Cost(c: Config, f: Frame): nat {
    RECORD_HEADER + c.headerLen + |f.pkt|
  }

  /** Seek to `offset` and read up to one block. */
  function ReadAt(c: Config, offset: nat): seq<byte> {
    var lo := Min(offset, |c.file|);
    c.file[lo..Min(lo + c.blksize, |c.file|)]
  }

  // ---- Filling a window ----------------------------------------------

  datatype Filled = Filled(queue: seq<Frame>, last: nat, eof: bool, ok: bool)

  /** Queues up to `left` blocks from `block` on. Stops early at end of file, when the queue is
      full, and (not ok) on a block too large for a packet or when no read is left to succeed (`readable`). */
  function Fill(c: Config, q: seq<Frame>, last: nat, block: nat, offset: nat, left: nat, readable: nat): Filled
    decreases left
  {
    if left == 0 then Filled(q, last, false, true)
    else if readable == 0 then Filled(q, last, false, false)
    else
      var chunk := ReadAt(c, offset);
      if |chunk| > MAX_CHUNK then Filled(q, last, false, false)
      else
        var f := Frame(block, PackData(Wire(block), chunk));
        if QueueBytes(c, q) + Cost(c, f) > QUEUE_CAP then Filled(q, last, false, true)
        else if |chunk| < c.blksize then Filled(q + [f], block, true, true)
        else Fill(c, q + [f], block, U32(block + 1), offset + |chunk|, left - 1, readable - 1)
  }

  function FillWindow(c: Config, q: seq<Frame>, first: nat, offset: nat, readable: nat): Filled {
    Fill(c, q, if first > 0 then first - 1 else 0, first, offset, c.windowsize, readable)
  }

  lemma NextOffset(c: Config, b: nat)
    requires c.Valid() && 1 <= b <= c.Total()
    ensures ReadAt(c, (b - 1) * c.blksize) == Slice(c.file, c.blksize, b)
    ensures |Slice(c.file, c.blksize, b)| < c.blksize <==> b == c.Total()
    ensures b < c.Total() ==> (b - 1) * c.blksize + |Slice(c.file, c.blksize, b)| == b * c.blksize
  {
    OnlyLastIsShort(c.file, c.blksize, b);
  }

  /** A fill that is at a block of the file takes that block, or stops in one of the five ways it can. */
  lemma FillBlock(c: Config, q: seq<Frame>, b: nat, offset: nat, left: nat, readable: nat)
    requires c.Valid() && 1 <= b <= c.Total() && offset == (b - 1) * c.blksize
    ensures var q' := q + [FrameOf(c, b)];
            Fill(c, q, b - 1, b, offset, left, readable) ==
            if left == 0 then Filled(q, b - 1, false, true)
            else if readable == 0 || !Fits(c, b) then Filled(q, b - 1, false, false)
            else if QueueBytes(c, q) + Cost(c, FrameOf(c, b)) > QUEUE_CAP then Filled(q, b - 1, false, true)
            else if b == c.Total() then Filled(q', b, true, true)
            else Fill(c, q', b, b + 1, b * c.blksize, left - 1, readable - 1)
  {
    hide Slice, ReadAt, BlockCount, QueueBytes, PackData, Cost;
    NextOffset(c, b);
  }

  /** Started at a block of the file and at that block's offset, a fill queues exactly the true
      frames of consecutive blocks, and reports end of file exactly when it queued the last. */
  lemma {:induction false} FillIsTrue(c: Config, q: seq<Frame>, b: nat, offset: nat, left: nat, readable: nat)
    requires c.Valid() && 1 <= b <= c.Total() && offset == (b - 1) * c.blksize
    ensures var r := Fill(c, q, b - 1, b, offset, left, readable);
            && b - 1 <= r.last <= Min(b + left - 1, c.Total())
            && r.queue == q + FramesOf(c, b, r.last)
            && (forall k | b <= k <= r.last :: Fits(c, k))
            && (r.ok ==> (r.eof <==> r.last == c.Total()))
    decreases left
  {
    hide Fill, FrameOf, BlockCount, QueueBytes, Cost, Fits;
    FillBlock(c, q, b, offset, left, readable);
    assert q + [] == q;
    assert FramesOf(c, b, b) == [FrameOf(c, b)];
    var f := FrameOf(c, b);
    if b < c.Total() && left > 0 && readable > 0 {
      var rest := Fill(c, q + [f], b, b + 1, b * c.blksize, left - 1, readable - 1);
      FillIsTrue(c, q + [f], b + 1, b * c.blksize, left - 1, readable - 1);
      assert q + [f] + FramesOf(c, b + 1, rest.last) == q + FramesOf(c, b, rest.last);
    }
  }

  /** A fill that succeeded does the same whenever all of its reads succeed. */
  lemma {:induction false} FillAgain(c: Config, q: seq<Frame>, last: nat, block: nat, offset: nat, left: nat,
      readable: nat, more: nat)
    requires Fill(c, q, last, block, offset, left, readable).ok && more >= left
    ensures Fill(c, q, last, block, offset, left, more) == Fill(c, q, last, block, offset, left, readable)
    decreases left
  {
    hide ReadAt, QueueBytes, PackData;
    var chunk := ReadAt(c, offset);
    var f := Frame(block, PackData(Wire(block), chunk));
    if left > 0 && |chunk| <= MAX_CHUNK && QueueBytes(c, q) + Cost(c, f) <= QUEUE_CAP && |chunk| >= c.blksize {
      FillAgain(c, q + [f], block, U32(block + 1), offset + |chunk|, left - 1, readable - 1, more - 1);
    }
  }

  // ---- Sessions ------------------------------------------------------

  datatype SessionState = SendRrq | Done | Free

  /** `wire` lists every frame transmitted so far; the other fields are the session's own. */
  datatype Session = Session(
    state: SessionState, completed: bool,
    nextBlock: nat, windowLast: nat, eof: bool, windowFirstOffset: nat, bytesDone: nat, retrans: nat,
    prebuilt: seq<Frame>, preFirst: nat, preLast: nat, preFirstOffset: nat, preEof: bool, preValid: bool,
    wire: seq<Frame>)

  /** Prebuild the window after the current one. Frames already queued stay queued. */
  function PrebuildNext(c: Config, s: Session, readable: nat): Session {
    if s.eof || !c.hasPrebuilt then s
    else
      var first := U32(s.windowLast + 1);
      var offset := s.windowFirstOffset + U32(s.windowLast + 1 - s.nextBlock) * c.blksize;
      var r := FillWindow(c, s.prebuilt, first, offset, readable);
      if !r.ok then s.(prebuilt := r.queue, preValid := false)
      else
        s.(prebuilt := r.queue, preFirst := first, preLast := r.last, preFirstOffset := offset, preEof := r.eof,
           preValid := true)
  }

  /** Transmit the current window from disk, then prebuild the next. */
  function SendWindow(c: Config, s: Session, readable: nat, preReadable: nat): Session {
    var r := FillWindow(c, [], s.nextBlock, s.windowFirstOffset, readable);
    var s' := s.(preValid := false, wire := s.wire + r.queue);
    if !r.ok then s'.(state := Done)
    else PrebuildNext(c, s'.(windowLast := r.last, eof := r.eof), preReadable)
  }

  /** The 32-bit block an ACK is taken for. */
  function MapAck(windowLast: nat, ack: word): nat {
    var cand := windowLast / 65536 * 65536 + ack;
    if cand > windowLast then U32(cand - 65536)
    else if U32(cand + 65536) <= windowLast then U32(cand + 65536)
    else cand
  }

  /** The session after the ACK was credited and before the next window goes out. */
  function Credit(c: Config, s: Session, cand: nat): Session {
    var bytesDone := Min(s.windowFirstOffset + U32(cand + 1 - s.nextBlock) * c.blksize, |c.file|);
    if s.eof && cand >= s.windowLast then s.(bytesDone := bytesDone, completed := true, state := Done)
    else s.(bytesDone := bytesDone, nextBlock := U32(cand + 1), windowFirstOffset := bytesDone, retrans := 0)
  }

  function FlushPrebuilt(c: Config, s: Session, preReadable: nat): Session {
    PrebuildNext(
      c,
      s.(windowLast := s.preLast, eof := s.preEof, wire := s.wire + s.prebuilt, prebuilt := [], preValid := false),
      preReadable)
  }

  function OnAck(c: Config, s: Session, ack: word, readable: nat, preReadable: nat): Session {
    var cand := MapAck(s.windowLast, ack);
    if cand < s.nextBlock then s
    else
      var s' := Credit(c, s, cand);
      if s'.state == Done then s'
      else if s.preValid && s.preFirst == s'.nextBlock && cand == s.windowLast then FlushPrebuilt(c, s', preReadable)
      else SendWindow(c, s'.(preValid := false), readable, preReadable)
  }

  /** The retransmission timer of a sending session has run out. */
  function OnTimeout(c: Config, s: Session, readable: nat, preReadable: nat): Session {
    var s' := s.(retrans := s.retrans + 1);
    if s'.retrans > MAX_RETRANS then s'.(state := Free, prebuilt := [], preValid := false)
    else SendWindow(c, s'.(preValid := false), readable, preReadable)
  }

  /** The transfer proper starts: at once, or on the ACK 0 that answers the OACK. */
  function Begin(c: Config, retrans: nat, readable: nat, preReadable: nat): Session {
    SendWindow(c, Unsent(retrans), readable, preReadable)
  }

  /** Before the first window; retries spent on the OACK are not given back. */
  function Unsent(retrans: nat): Session {
    Session(SendRrq, false, 1, 0, false, 0, 0, retrans, [], 0, 0, 0, false, false, [])
  }

  // ---- The invariant -------------------------------------------------

  /** Block b fits the packet buffers. */
  predicate Fits(c: Config, b: nat)
    requires c.blksize > 0 && b > 0
  {
    |Slice(c.file, c.blksize, b)| <= MAX_CHUNK
  }

  /** Every frame is the DATA packet of a block of the file. */
  predicate AllTrue(c: Config, fs: seq<Frame>)
    requires c.blksize > 0
  {
    forall i | 0 <= i < |fs| ::
      1 <= fs[i].block <= c.Total() && Fits(c, fs[i].block) && fs[i] == FrameOf(c, fs[i].block)
  }

  /** The window position: offset of the first unacknowledged block, extent, end of file. */
  predicate Positioned(c: Config, s: Session)
    requires c.blksize > 0
  {
    && 1 <= s.nextBlock <= c.Total()
    && s.windowFirstOffset == s.bytesDone == (s.nextBlock - 1) * c.blksize
    && s.nextBlock - 1 <= s.windowLast < s.nextBlock + c.windowsize
    && s.windowLast <= c.Total()
    && (s.eof <==> s.windowLast == c.Total())
  }

  /** Frames that were in the prebuilt queue before the last prebuild. */
  function Leftover(s: Session): seq<Frame> {
    var added := s.preLast - s.windowLast;
    if 0 <= added <= |s.prebuilt| then s.prebuilt[..|s.prebuilt| - added] else []
  }

  /** A valid prebuild is what a fill of the next window makes of the leftover queue. */
  predicate PrebuiltAgrees(c: Config, s: Session)
    requires c.blksize > 0
  {
    s.preValid ==>
      && !s.eof && s.preFirst == s.windowLast + 1
      && s.preFirstOffset == s.windowLast * c.blksize
      && s.windowLast <= s.preLast && s.preLast - s.windowLast <= |s.prebuilt|
      && FillWindow(c, Leftover(s), s.windowLast + 1, s.windowLast * c.blksize, c.windowsize)
         == Filled(s.prebuilt, s.preLast, s.preEof, true)
  }

  /** Every block up to the last one sent has been transmitted. */
  predicate AllSent(c: Config, wire: seq<Frame>, upTo: nat)
    requires c.blksize > 0
  {
    forall b | 1 <= b <= upTo :: FrameOf(c, b) in wire
  }

  predicate Inv(c: Config, s: Session)
    requires c.blksize > 0
  {
    && AllTrue(c, s.wire)
    && AllTrue(c, s.prebuilt)
    && (s.state == SendRrq ==>
          Positioned(c, s) && PrebuiltAgrees(c, s) && AllSent(c, s.wire, s.windowLast) && !s.completed)
    && (s.completed ==> AllSent(c, s.wire, c.Total()) && s.bytesDone == |c.file|)
  }

  // ---- Reading ACK numbers back --------------------------------------

  /** An ACK is credited to a transmitted block, the latest one with that number, exactly when its
      value does not exceed the last block sent; otherwise the subtraction wraps in 32 bits. */
  lemma MapAckExact(windowLast: nat, ack: word)
    requires windowLast + 65536 < TWO32
    ensures ack <= windowLast ==>
              var b := MapAck(windowLast, ack); b <= windowLast < b + 65536 && Wire(b) == ack
    ensures ack > windowLast ==> MapAck(windowLast, ack) == TWO32 - 65536 + ack
    ensures MapAck(windowLast, ack) <= windowLast <==> ack <= windowLast
  {
  }

  /** A block sent at most 65535 blocks ago is recovered from its 16-bit ACK. */
  lemma MapAckInverts(windowLast: nat, b: nat)
    requires windowLast + 65536 < TWO32 && b <= windowLast
    ensures MapAck(windowLast, Wire(b)) == b <==> windowLast < b + 65536
  {
    MapAckExact(windowLast, Wire(b));
    var m := MapAck(windowLast, Wire(b));
    if m != b {
      Congruent(m, b);
    }
  }

  /** The ACK of the block just sent is recognised exactly while that block is more than 65536 below
      2^32: beyond, adding a cycle wraps and the ACK is taken for a block of the first cycle. */
  lemma CounterBound(windowLast: nat)
    requires windowLast < TWO32
    ensures MapAck(windowLast, Wire(windowLast)) == windowLast <==> windowLast + 65536 < TWO32
  {
  }

  // ---- Every step keeps the invariant --------------------------------

  lemma FramesAreTrue(c: Config, q: seq<Frame>, lo: nat, hi: int)
    requires c.blksize > 0 && 1 <= lo && hi <= c.Total() && AllTrue(c, q)
    requires forall k | lo <= k <= hi :: Fits(c, k)
    ensures AllTrue(c, q + FramesOf(c, lo, hi))
  {
    hide BlockCount, Slice, PackData;
  }

  lemma FillWindowTrue(c: Config, q: seq<Frame>, b: nat, offset: nat, readable: nat)
    requires c.Valid() && 1 <= b <= c.Total() && offset == (b - 1) * c.blksize && AllTrue(c, q)
    ensures var r := FillWindow(c, q, b, offset, readable);
            && b - 1 <= r.last <= Min(b + c.windowsize - 1, c.Total())
            && r.queue == q + FramesOf(c, b, r.last)
            && AllTrue(c, r.queue)
            && (r.ok ==> (r.eof <==> r.last == c.Total()))
            && (r.ok ==> FillWindow(c, q, b, offset, c.windowsize) == r)
  {
    hide BlockCount, Slice, PackData, ReadAt, QueueBytes;
    FillIsTrue(c, q, b, offset, c.windowsize, readable);
    var r := FillWindow(c, q, b, offset, readable);
    FramesAreTrue(c, q, b, r.last);
    if r.ok {
      FillAgain(c, q, b - 1, b, offset, c.windowsize, readable, c.windowsize);
    }
  }

  lemma OffsetsAdd(nextBlock: nat, upTo: nat, blksize: nat)
    requires 1 <= nextBlock <= upTo + 1
    ensures (nextBlock - 1) * blksize + (upTo + 1 - nextBlock) * blksize == upTo * blksize
  {
  }

  /** The session is sending and no prebuild is valid: what a prebuild starts from. */
  predicate ReadyToPrebuild(c: Config, s: Session)
    requires c.blksize > 0
  {
    && s.state == SendRrq && !s.completed && !s.preValid
    && AllTrue(c, s.wire) && AllTrue(c, s.prebuilt)
    && Positioned(c, s) && AllSent(c, s.wire, s.windowLast)
  }

  lemma PrebuildKeeps(c: Config, s: Session, readable: nat)
    requires c.Valid() && ReadyToPrebuild(c, s)
    ensures Inv(c, PrebuildNext(c, s, readable))
    ensures PrebuildNext(c, s, readable).preValid ==> Leftover(PrebuildNext(c, s, readable)) == s.prebuilt
  {
    hide BlockCount, Slice, PackData, FillWindow, FrameOf, AllTrue, AllSent;
    if !s.eof && c.hasPrebuilt {
      var first := s.windowLast + 1;
      var offset := s.windowLast * c.blksize;
      OffsetsAdd(s.nextBlock, s.windowLast, c.blksize);
      FillWindowTrue(c, s.prebuilt, first, offset, readable);
      var r := FillWindow(c, s.prebuilt, first, offset, readable);
      assert r.queue[..|s.prebuilt|] == s.prebuilt;
    }
  }

  /** The next unacknowledged block and its offset are right and everything before was sent:
      what a transmission from disk starts from. */
  predicate ReadyToSend(c: Config, s: Session)
    requires c.blksize > 0
  {
    && s.state == SendRrq && !s.completed
    && AllTrue(c, s.wire) && AllTrue(c, s.prebuilt)
    && 1 <= s.nextBlock <= c.Total()
    && s.windowFirstOffset == s.bytesDone == (s.nextBlock - 1) * c.blksize
    && AllSent(c, s.wire, s.nextBlock - 1)
  }

  lemma SentAfter(c: Config, s: Session, s': Session, more: seq<Frame>, lo: nat, hi: nat)
    requires c.blksize > 0 && 1 <= lo <= hi + 1 && AllSent(c, s.wire, lo - 1)
    requires s'.wire == s.wire + more
    requires |FramesOf(c, lo, hi)| <= |more| && more[|more| - |FramesOf(c, lo, hi)|..] == FramesOf(c, lo, hi)
    ensures AllSent(c, s'.wire, hi)
  {
    hide BlockCount, Slice, PackData;
    var fs := FramesOf(c, lo, hi);
    forall b | 1 <= b <= hi ensures FrameOf(c, b) in s'.wire {
      if b >= lo {
        assert fs[b - lo] == FrameOf(c, b) && more[|more| - |fs|..][b - lo] == FrameOf(c, b);
        assert FrameOf(c, b) in more;
      }
    }
  }

  lemma NothingIsTrue(c: Config)
    requires c.blksize > 0
    ensures AllTrue(c, [])
  {
  }

  lemma BothTrue(c: Config, fs: seq<Frame>, gs: seq<Frame>)
    requires c.blksize > 0 && AllTrue(c, fs) && AllTrue(c, gs)
    ensures AllTrue(c, fs + gs)
  {
  }

  function AfterFill(s: Session, r: Filled): Session {
    s.(preValid := false, wire := s.wire + r.queue, windowLast := r.last, eof := r.eof)
  }

  /** Transmitting the window that starts at the next block leaves a well-placed session. */
  lemma AfterFillKeeps(c: Config, s: Session, readable: nat)
    requires c.Valid() && ReadyToSend(c, s)
    ensures var r := FillWindow(c, [], s.nextBlock, s.windowFirstOffset, readable);
            && AllTrue(c, s.wire + r.queue)
            && (r.ok ==> ReadyToPrebuild(c, AfterFill(s, r)))
  {
    hide BlockCount, Slice, PackData, FillWindow, FrameOf, AllTrue, AllSent;
    NothingIsTrue(c);
    FillWindowTrue(c, [], s.nextBlock, s.windowFirstOffset, readable);
    var r := FillWindow(c, [], s.nextBlock, s.windowFirstOffset, readable);
    BothTrue(c, s.wire, r.queue);
    var fs := FramesOf(c, s.nextBlock, r.last);
    assert r.queue == fs && r.queue[|r.queue| - |fs|..] == fs;
    SentAfter(c, s, AfterFill(s, r), r.queue, s.nextBlock, r.last);
  }

  lemma SendWindowKeeps(c: Config, s: Session, readable: nat, preReadable: nat)
    requires c.Valid() && ReadyToSend(c, s)
    ensures Inv(c, SendWindow(c, s, readable, preReadable))
    ensures var s' := SendWindow(c, s, readable, preReadable); s'.preValid ==> Leftover(s') == s.prebuilt
  {
    hide BlockCount, Slice, PackData, FillWindow, PrebuildNext, Leftover, FrameOf, AllTrue, AllSent;
    AfterFillKeeps(c, s, readable);
    var r := FillWindow(c, [], s.nextBlock, s.windowFirstOffset, readable);
    if r.ok {
      PrebuildKeeps(c, AfterFill(s, r), preReadable);
    }
  }

  lemma CreditKeeps(c: Config, s: Session, cand: nat)
    requires c.Valid() && Inv(c, s) && s.state == SendRrq && s.nextBlock <= cand <= s.windowLast
    ensures var s' := Credit(c, s, cand);
            && (s'.completed <==> cand == c.Total())
            && (s'.completed ==> Inv(c, s') && s'.state == Done)
            && (!s'.completed ==> ReadyToSend(c, s') && s'.nextBlock == cand + 1)
  {
    hide Slice, PackData, FillWindow, FrameOf;
    OffsetsAdd(s.nextBlock, cand, c.blksize);
    FullBlocks(|c.file|, c.blksize, cand);
  }

  /** The prebuilt queue is the leftover frames followed by the frames of the next window. */
  lemma PrebuiltContents(c: Config, s: Session)
    requires c.Valid() && Inv(c, s) && s.state == SendRrq && s.preValid
    ensures s.prebuilt == Leftover(s) + FramesOf(c, s.windowLast + 1, s.preLast)
    ensures s.windowLast <= s.preLast <= Min(s.windowLast + c.windowsize, c.Total())
    ensures s.preEof <==> s.preLast == c.Total()
    ensures AllTrue(c, Leftover(s))
  {
    hide BlockCount, Slice, PackData, FillWindow, FrameOf;
    FillWindowTrue(c, Leftover(s), s.windowLast + 1, s.windowLast * c.blksize, c.windowsize);
  }

  lemma FlushKeeps(c: Config, s: Session, preReadable: nat)
    requires c.Valid() && Inv(c, s) && s.state == SendRrq && s.preValid
    ensures var s' := Credit(c, s, s.windowLast);
            s'.state == SendRrq && Inv(c, FlushPrebuilt(c, s', preReadable))
  {
    hide BlockCount, Slice, PackData, FillWindow, PrebuildNext, Credit, Leftover, FrameOf, AllTrue, AllSent;
    CreditBeforeFlush(c, s);
    PrebuiltContents(c, s);
    NothingIsTrue(c);
    BothTrue(c, s.wire, s.prebuilt);
    var s', q := Credit(c, s, s.windowLast), Leftover(s);
    var s'' := s'.(windowLast := s.preLast, eof := s.preEof, wire := s'.wire + s.prebuilt,
                   prebuilt := [], preValid := false);
    assert s.prebuilt[|q|..] == FramesOf(c, s.windowLast + 1, s.preLast);
    SentAfter(c, s', s'', s.prebuilt, s.windowLast + 1, s.preLast);
    PrebuildKeeps(c, s'', preReadable);
  }

  lemma CreditBeforeFlush(c: Config, s: Session)
    requires c.Valid() && Inv(c, s) && s.state == SendRrq && s.preValid
    ensures var s' := Credit(c, s, s.windowLast);
            && ReadyToSend(c, s')
            && s' == s.(nextBlock := s.windowLast + 1, windowFirstOffset := s.windowLast * c.blksize,
                        bytesDone := s.windowLast * c.blksize, retrans := 0)
  {
    hide Slice, PackData, FillWindow, FrameOf;
    OffsetsAdd(s.nextBlock, s.windowLast, c.blksize);
    FullBlocks(|c.file|, c.blksize, s.windowLast);
  }

  /** An ACK of a transmitted block keeps the invariant, and completes the session exactly when it
      is the ACK of the final block. */
  lemma OnAckKeeps(c: Config, s: Session, ack: word, readable: nat, preReadable: nat)
    requires c.Valid() && Inv(c, s) && s.state == SendRrq && ack <= s.windowLast
    ensures var s' := OnAck(c, s, ack, readable, preReadable);
            && Inv(c, s')
            && (s'.completed <==> MapAck(s.windowLast, ack) == c.Total())
  {
    hide BlockCount, Slice, PackData, FillWindow, PrebuildNext, Credit, MapAck, AllTrue, AllSent;
    MapAckExact(s.windowLast, ack);
    var cand := MapAck(s.windowLast, ack);
    if cand >= s.nextBlock {
      CreditKeeps(c, s, cand);
      var s' := Credit(c, s, cand);
      CreditFrame(c, s, cand);
      if !s'.completed {
        if s.preValid && s.preFirst == s'.nextBlock && cand == s.windowLast {
          FlushKeeps(c, s, preReadable);
          FlushFrame(c, s', preReadable);
        } else {
          SendWindowKeeps(c, s'.(preValid := false), readable, preReadable);
          SendFrame(c, s'.(preValid := false), readable, preReadable);
        }
      }
    }
  }

  lemma CreditFrame(c: Config, s: Session, cand: nat)
    ensures var s' := Credit(c, s, cand);
            && s'.state == (if s.eof && cand >= s.windowLast then Done else s.state)
            && s'.completed == (s.completed || (s.eof && cand >= s.windowLast))
            && s'.preValid == s.preValid && s'.preFirst == s.preFirst && s'.prebuilt == s.prebuilt && s'.wire == s.wire
  {
  }

  /** Transmitting never completes a session, and transmits by appending. */
  lemma SendFrame(c: Config, s: Session, readable: nat, preReadable: nat)
    ensures SendWindow(c, s, readable, preReadable).completed == s.completed
    ensures s.wire <= SendWindow(c, s, readable, preReadable).wire
  {
    hide FillWindow;
  }

  lemma FlushFrame(c: Config, s: Session, preReadable: nat)
    ensures FlushPrebuilt(c, s, preReadable).completed == s.completed
    ensures FlushPrebuilt(c, s, preReadable).wire == s.wire + s.prebuilt
  {
    hide FillWindow;
  }

  lemma OnTimeoutKeeps(c: Config, s: Session, readable: nat, preReadable: nat)
    requires c.Valid() && Inv(c, s) && s.state == SendRrq
    ensures Inv(c, OnTimeout(c, s, readable, preReadable)) && !OnTimeout(c, s, readable, preReadable).completed
  {
    hide BlockCount, Slice, PackData, FillWindow, PrebuildNext;
    if s.retrans + 1 <= MAX_RETRANS {
      var s' := s.(retrans := s.retrans + 1, preValid := false);
      SendWindowKeeps(c, s', readable, preReadable);
      SendFrame(c, s', readable, preReadable);
    }
  }

  lemma BeginKeeps(c: Config, retrans: nat, readable: nat, preReadable: nat)
    requires c.Valid()
    ensures Inv(c, Begin(c, retrans, readable, preReadable))
  {
    hide BlockCount, Slice, PackData, FillWindow, PrebuildNext;
    SendWindowKeeps(c, Unsent(retrans), readable, preReadable);
  }

  // ---- Whole runs ----------------------------------------------------

  /** An ACK carries the block it was sent for beside the 16-bit number the session sees. `readable`
      and `preReadable` say how many disk reads succeed while the window and the next one are built. */
  datatype Event =
    | Ack(block: nat, readable: nat, preReadable: nat)
    | Expire(readable: nat, preReadable: nat)
    | ClientError

  datatype Run = Started(retrans: nat, readable: nat, preReadable: nat) | Then(before: Run, ev: Event)

  function Step(c: Config, s: Session, ev: Event): Session {
    match ev
    case Ack(block, readable, preReadable) =>
      if s.state == SendRrq then OnAck(c, s, Wire(block), readable, preReadable) else s
    case Expire(readable, preReadable) =>
      if s.state == SendRrq then OnTimeout(c, s, readable, preReadable)
      else s.(state := Free, prebuilt := [], preValid := false)
    case ClientError => if s.state == Free then s else s.(state := Done)
  }

  function Exec(c: Config, run: Run): Session {
    match run
    case Started(retrans, readable, preReadable) => Begin(c, retrans, readable, preReadable)
    case Then(before, ev) => Step(c, Exec(c, before), ev)
  }

  /** Every ACK that reaches a sending session is of a block up to the last one of its window,
      however old. */
  predicate HonestClient(c: Config, run: Run) {
    run.Then? ==>
      && HonestClient(c, run.before)
      && (run.ev.Ack? && Exec(c, run.before).state == SendRrq ==> run.ev.block <= Exec(c, run.before).windowLast)
  }

  /** Besides, no ACK is older than 65535 blocks when it arrives. */
  predicate RecentClient(c: Config, run: Run) {
    run.Then? ==>
      && RecentClient(c, run.before)
      && (run.ev.Ack? && Exec(c, run.before).state == SendRrq ==>
            run.ev.block <= Exec(c, run.before).windowLast < run.ev.block + WRAP)
  }

  lemma {:induction false} RecentIsHonest(c: Config, run: Run)
    requires RecentClient(c, run)
    ensures HonestClient(c, run)
  {
    if run.Then? {
      RecentIsHonest(c, run.before);
    }
  }

  /** No ACK reaches a sending session with a value beyond its window, unless everything is sent. */
  predicate Understood(c: Config, run: Run) {
    run.Then? ==>
      && Understood(c, run.before)
      && var s := Exec(c, run.before);
         run.ev.Ack? && s.state == SendRrq ==> Wire(run.ev.block) <= s.windowLast || s.eof
  }

  lemma {:induction false} HonestIsUnderstood(c: Config, run: Run)
    requires HonestClient(c, run)
    ensures Understood(c, run)
  {
    hide Step, Wire;
    if run.Then? {
      HonestIsUnderstood(c, run.before);
      if run.ev.Ack? {
        WireSmall(run.ev.block);
      }
    }
  }

  lemma RunKeeps(c: Config, run: Run)
    requires c.Valid() && HonestClient(c, run)
    ensures Inv(c, Exec(c, run))
  {
    HonestIsUnderstood(c, run);
    UnderstoodKeeps(c, run);
  }

  /** With everything sent, an ACK beyond the window completes the session and spoils nothing. */
  lemma BelievedCompletes(c: Config, s: Session, ack: word, readable: nat, preReadable: nat)
    requires c.Valid() && Inv(c, s) && s.state == SendRrq && s.eof && ack > s.windowLast
    ensures var s' := OnAck(c, s, ack, readable, preReadable); s'.completed && Inv(c, s')
  {
    hide Slice, PackData, FillWindow, AllTrue, AllSent;
    MapAckExact(s.windowLast, ack);
    FullBlocks(|c.file|, c.blksize, c.Total());
    JumpPastEnd(s.windowFirstOffset, U32(TWO32 - 65536 + ack + 1 - s.nextBlock), c.blksize, c.Total());
  }

  lemma {:induction false} UnderstoodKeeps(c: Config, run: Run)
    requires c.Valid() && Understood(c, run)
    ensures Inv(c, Exec(c, run))
  {
    match run
    case Started(retrans, readable, preReadable) => BeginKeeps(c, retrans, readable, preReadable);
    case Then(before, ev) =>
      hide BlockCount, Slice, PackData, FillWindow, OnAck, OnTimeout, AllSent;
      UnderstoodKeeps(c, before);
      var s := Exec(c, before);
      if s.state == SendRrq {
        match ev
        case Ack(block, readable, preReadable) =>
          if Wire(block) <= s.windowLast {
            OnAckKeeps(c, s, Wire(block), readable, preReadable);
          } else {
            BelievedCompletes(c, s, Wire(block), readable, preReadable);
          }
        case Expire(readable, preReadable) => OnTimeoutKeeps(c, s, readable, preReadable);
        case ClientError =>
      }
  }

  /** In every run with such a client, every frame that goes out, retransmitted or left over from
      an abandoned prebuild, is the DATA packet of its block: the slice the Python engine sends. */
  lemma EveryFrameIsTrue(c: Config, run: Run, i: nat)
    requires c.Valid() && Understood(c, run) && i < |Exec(c, run).wire|
    ensures var f := Exec(c, run).wire[i];
            && 1 <= f.block <= c.Total()
            && Decode(f.pkt) == Data(Wire(f.block), Slice(c.file, c.blksize, f.block))
  {
    hide BlockCount, Slice, PackData, Decode;
    UnderstoodKeeps(c, run);
    var f := Exec(c, run).wire[i];
    DecodeData(Wire(f.block), Slice(c.file, c.blksize, f.block));
  }

  /** The session's position at any time, and what a completed session has achieved. */
  lemma PositionInEveryRun(c: Config, run: Run)
    requires c.Valid() && Understood(c, run)
    ensures var s := Exec(c, run); s.state == SendRrq ==> Positioned(c, s)
    ensures var s := Exec(c, run);
            s.completed ==> s.bytesDone == |c.file| && forall b | 1 <= b <= c.Total() :: FrameOf(c, b) in s.wire
  {
    UnderstoodKeeps(c, run);
  }

  /** What completes a session is an ACK with the final block's number, after the final block was
      sent. It is the ACK of the final block exactly when it is not older than 65535 blocks. */
  lemma CompletedByFinalAck(c: Config, run: Run, ev: Event)
    requires c.Valid() && HonestClient(c, Then(run, ev))
    requires !Exec(c, run).completed && Exec(c, Then(run, ev)).completed
    ensures ev.Ack? && Wire(ev.block) == Wire(c.Total()) && Exec(c, run).windowLast == c.Total()
    ensures ev.block == c.Total() <==> c.Total() < ev.block + WRAP
  {
    hide BlockCount, Slice, PackData, FillWindow, OnAck, OnTimeout, MapAck;
    RunKeeps(c, run);
    var s := Exec(c, run);
    if s.state == SendRrq {
      match ev
      case Ack(block, readable, preReadable) =>
        WireSmall(block);
        OnAckKeeps(c, s, Wire(block), readable, preReadable);
        MapAckExact(s.windowLast, Wire(block));
        if block != c.Total() {
          Congruent(block, c.Total());
        }
      case Expire(readable, preReadable) => OnTimeoutKeeps(c, s, readable, preReadable);
      case ClientError =>
    }
  }

  /** With recent ACKs, a session completes only by the ACK of the final block. */
  lemma CompletedOnlyByFinalAck(c: Config, run: Run, ev: Event)
    requires c.Valid() && RecentClient(c, Then(run, ev))
    requires !Exec(c, run).completed && Exec(c, Then(run, ev)).completed
    ensures ev.Ack? && ev.block == c.Total()
  {
    hide BlockCount, Step;
    RecentIsHonest(c, Then(run, ev));
    CompletedByFinalAck(c, run, ev);
    CompletedWasSending(c, run, ev);
  }

  lemma CompletedWasSending(c: Config, run: Run, ev: Event)
    requires !Exec(c, run).completed && Exec(c, Then(run, ev)).completed
    ensures Exec(c, run).state == SendRrq
  {
    hide OnAck, OnTimeout;
  }

  /** With the file fully sent, the ACK of any block a whole number of cycles before the final one
      completes the session as well. */
  lemma StaleAckCompletes(c: Config, s: Session, block: nat, readable: nat, preReadable: nat)
    requires c.Valid() && Inv(c, s) && s.state == SendRrq && s.eof
    requires block <= c.Total() && Wire(block) == Wire(c.Total())
    ensures OnAck(c, s, Wire(block), readable, preReadable).completed
  {
    hide BlockCount, Slice, PackData, FillWindow, PrebuildNext, MapAck;
    MapAckInverts(s.windowLast, s.windowLast);
  }

  /** An ACK of a block not yet sent is believed: with the file fully sent it completes the session,
      otherwise the session jumps to the end of the file under a block number near 2^32. */
  lemma UntransmittedAckBelieved(c: Config, s: Session, ack: word, readable: nat, preReadable: nat)
    requires c.Valid() && Inv(c, s) && s.state == SendRrq && ack > s.windowLast
    ensures var s' := OnAck(c, s, ack, readable, preReadable);
            if s.eof then s'.completed
            else s'.nextBlock == U32(TWO32 - 65535 + ack) && s'.windowFirstOffset == |c.file| && !Positioned(c, s')
  {
    hide Slice, PackData, FillWindow;
    MapAckExact(s.windowLast, ack);
    assert s.nextBlock <= c.Total() && |c.file| / c.blksize < c.Total();
    assert U32(TWO32 - 65535 + ack) == 0 || U32(TWO32 - 65535 + ack) > c.Total();
    FullBlocks(|c.file|, c.blksize, c.Total());
    JumpPastEnd(s.windowFirstOffset, U32(TWO32 - 65536 + ack + 1 - s.nextBlock), c.blksize, c.Total());
  }

  lemma JumpPastEnd(offset: nat, blocks: nat, blksize: nat, total: nat)
    requires total <= blocks
    ensures offset + blocks * blksize >= total * blksize
  {
    MulMonotone(total, blocks, blksize);
  }

  // ---- The prebuilt path refines the disk path ------------------------

  /** All of a session but its prebuilt queue. */
  datatype Progress = Progress(
    state: SessionState, completed: bool, nextBlock: nat, windowLast: nat, eof: bool, windowFirstOffset: nat,
    bytesDone: nat, retrans: nat, wire: seq<Frame>)

  function ProgressOf(s: Session): Progress {
    Progress(s.state, s.completed, s.nextBlock, s.windowLast, s.eof,
             s.windowFirstOffset, s.bytesDone, s.retrans, s.wire)
  }

  /** A full ACK with the prebuild valid, against the same ACK with the prebuild ignored. */
  lemma FastAgainstSlow(c: Config, s: Session, readable: nat, preReadable: nat)
    requires c.Valid() && Inv(c, s) && s.state == SendRrq && s.preValid && s.nextBlock <= s.windowLast
    requires readable >= c.windowsize
    ensures var p := ProgressOf(Credit(c, s, s.windowLast));
            var r := FillWindow(c, [], s.windowLast + 1, s.windowLast * c.blksize, readable);
            && ProgressOf(OnAck(c, s, Wire(s.windowLast), readable, preReadable))
               == p.(windowLast := s.preLast, eof := s.preEof, wire := s.wire + s.prebuilt)
            && (r.ok ==> ProgressOf(OnAck(c, s.(preValid := false), Wire(s.windowLast), readable, preReadable))
                         == p.(windowLast := r.last, eof := r.eof, wire := s.wire + r.queue))
  {
    hide BlockCount, Slice, PackData, FillWindow, Credit, MapAck;
    MapAckInverts(s.windowLast, s.windowLast);
    var t := s.(preValid := false);
    CreditBeforeFlush(c, s);
    CreditIgnoresPrebuild(c, s, s.windowLast);
    var s' := Credit(c, s, s.windowLast);
    assert OnAck(c, s, Wire(s.windowLast), readable, preReadable) == FlushPrebuilt(c, s', preReadable);
    assert OnAck(c, t, Wire(s.windowLast), readable, preReadable)
        == SendWindow(c, s'.(preValid := false), readable, preReadable);
  }

  lemma CreditIgnoresPrebuild(c: Config, s: Session, cand: nat)
    ensures Credit(c, s.(preValid := false), cand) == Credit(c, s, cand).(preValid := false)
  {
  }

  lemma {:induction false} FillFromEmptyOk(c: Config, q: seq<Frame>, last: nat, block: nat, offset: nat, left: nat,
      readable: nat)
    requires readable >= left && c.blksize <= MAX_CHUNK
    ensures Fill(c, q, last, block, offset, left, readable).ok
    decreases left
  {
    hide PackData, QueueBytes;
    if left > 0 {
      var chunk := ReadAt(c, offset);
      var f := Frame(block, PackData(Wire(block), chunk));
      FillFromEmptyOk(c, q + [f], block, U32(block + 1), offset + |chunk|, left - 1, readable - 1);
    }
  }

  /** Flushing a valid prebuild leaves the same window, end-of-file mark, position and transmitted
      frames as rebuilding it from disk exactly when the queue held nothing before the prebuild. */
  lemma PrebuiltRefinesDisk(c: Config, s: Session, readable: nat, preReadable: nat)
    requires c.Valid() && Inv(c, s) && s.state == SendRrq && s.preValid && s.nextBlock <= s.windowLast
    requires readable >= c.windowsize
    ensures ProgressOf(OnAck(c, s, Wire(s.windowLast), readable, preReadable)) ==
            ProgressOf(OnAck(c, s.(preValid := false), Wire(s.windowLast), readable, preReadable))
            <==> Leftover(s) == []
  {
    hide BlockCount, Slice, PackData, FillWindow, OnAck, Credit, ProgressOf;
    FastAgainstSlow(c, s, readable, preReadable);
    var first, offset := s.windowLast + 1, s.windowLast * c.blksize;
    var r := FillWindow(c, [], first, offset, readable);
    FillWindowTrue(c, [], first, offset, readable);
    FullBlockFits(c, s);
    FillWindowOk(c, [], first, offset, readable);
    PrebuiltContents(c, s);
    assert [] + FramesOf(c, first, r.last) == FramesOf(c, first, r.last);
    var fast := ProgressOf(OnAck(c, s, Wire(s.windowLast), readable, preReadable));
    var slow := ProgressOf(OnAck(c, s.(preValid := false), Wire(s.windowLast), readable, preReadable));
    if fast == slow {
      assert fast.wire == s.wire + s.prebuilt && slow.wire == s.wire + r.queue;
      assert |s.prebuilt| == |r.queue|;
      assert Leftover(s) == [];
    }
  }

  /** A session that has sent a block and has more to send has sent a full block. */
  lemma FullBlockFits(c: Config, s: Session)
    requires c.Valid() && Inv(c, s) && s.state == SendRrq && 1 <= s.windowLast < c.Total()
    ensures c.blksize <= MAX_CHUNK
  {
    hide BlockCount, Slice, PackData, FillWindow;
    OnlyLastIsShort(c.file, c.blksize, 1);
    assert FrameOf(c, 1) in s.wire;
  }

  lemma FillWindowOk(c: Config, q: seq<Frame>, first: nat, offset: nat, readable: nat)
    requires readable >= c.windowsize && c.blksize <= MAX_CHUNK
    ensures FillWindow(c, q, first, offset, readable).ok
  {
    hide Fill;
    FillFromEmptyOk(c, q, if first > 0 then first - 1 else 0, first, offset, c.windowsize, readable);
  }
}
