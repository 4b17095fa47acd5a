/** When the prebuilt queue can and cannot be noticed. Over every run the engine with the queue is
    indistinguishable from the engine without it exactly as long as each flush finds nothing in the
    queue that was there before the prebuild; what is there comes from retransmissions, from ACKs
    that do not flush, and from prebuilds whose reads failed half way. */
module ReadRefinement {
  import opened Blocks
  import opened Protocol
  import opened ReadEngine

  // ---- What leaves frames behind -------------------------------------

  /** A retransmission strands the frames of the prebuild it invalidates. */
  lemma TimeoutLeavesFrames(c: Config, s: Session, readable: nat, preReadable: nat)
    requires c.Valid() && Inv(c, s) && s.state == SendRrq && s.retrans < MAX_RETRANS
    ensures var s' := OnTimeout(c, s, readable, preReadable);
            s'.preValid ==> Leftover(s') == s.prebuilt
  {
    hide BlockCount, Slice, PackData, FillWindow, PrebuildNext, SendWindow, Leftover;
    SendWindowKeeps(c, s.(retrans := s.retrans + 1, preValid := false), readable, preReadable);
  }

  /** So does every ACK that goes on from disk: a partial one, and a full one when no prebuild is
      valid. */
  lemma DiskAckLeavesFrames(c: Config, s: Session, ack: word, readable: nat, preReadable: nat)
    requires c.Valid() && Inv(c, s) && s.state == SendRrq && ack <= s.windowLast
    requires s.nextBlock <= MapAck(s.windowLast, ack) && !Flushes(s, ack)
    ensures var s' := OnAck(c, s, ack, readable, preReadable);
            s'.preValid && s'.state == SendRrq ==> Leftover(s') == s.prebuilt
  {
    hide BlockCount, Slice, PackData, FillWindow, PrebuildNext, SendWindow, Leftover, Credit, MapAck, AllTrue, AllSent;
    var cand := MapAck(s.windowLast, ack);
    MapAckExact(s.windowLast, ack);
    CreditKeeps(c, s, cand);
    CreditFrame(c, s, cand);
    var s' := Credit(c, s, cand);
    if !s'.completed {
      SendWindowKeeps(c, s'.(preValid := false), readable, preReadable);
    }
  }

  /** A prebuild whose reads fail half way is not valid, but what it had queued stays queued. */
  lemma FailedPrebuildLeavesFrames(c: Config, s: Session, readable: nat)
    requires c.Valid() && ReadyToPrebuild(c, s) && !s.eof && c.hasPrebuilt
    requires c.blksize <= MAX_CHUNK && readable < c.windowsize && s.windowLast + readable < c.Total()
    requires QueueBytes(c, s.prebuilt) + (readable + 1) * FullCost(c) <= QUEUE_CAP
    ensures var s' := PrebuildNext(c, s, readable);
            !s'.preValid && s'.prebuilt == s.prebuilt + FramesOf(c, s.windowLast + 1, s.windowLast + readable)
  {
    hide BlockCount, FillWindow, FullCost, AllTrue, AllSent, FramesOf, QueueBytes;
    PrebuildStart(c, s);
    WindowRunsDry(c, s.prebuilt, s.windowLast + 1, s.windowLast * c.blksize, readable);
  }

  /** Where a prebuild starts. */
  lemma PrebuildStart(c: Config, s: Session)
    requires c.Valid() && Positioned(c, s)
    ensures U32(s.windowLast + 1) == s.windowLast + 1
    ensures s.windowFirstOffset + U32(s.windowLast + 1 - s.nextBlock) * c.blksize == s.windowLast * c.blksize
  {
    hide BlockCount;
    OffsetsAdd(s.nextBlock, s.windowLast, c.blksize);
  }

  lemma WindowRunsDry(c: Config, q: seq<Frame>, b: nat, offset: nat, readable: nat)
    requires c.Valid() && c.blksize <= MAX_CHUNK && 1 <= b && b + readable <= c.Total() && offset == (b - 1) * c.blksize
    requires readable < c.windowsize && QueueBytes(c, q) + (readable + 1) * FullCost(c) <= QUEUE_CAP
    ensures FillWindow(c, q, b, offset, readable) ==
            Filled(q + FramesOf(c, b, b + readable - 1), b + readable - 1, false, false)
  {
    hide BlockCount, Fill, FullCost, FramesOf, QueueBytes;
    FillRunsDry(c, q, b, offset, c.windowsize, readable);
  }

  /** What a queued full block costs. */
  function FullCost(c: Config): nat {
    RECORD_HEADER + c.headerLen + 4 + c.blksize
  }

  lemma FullFrame(c: Config, b: nat)
    requires c.Valid() && 1 <= b < c.Total()
    ensures Cost(c, FrameOf(c, b)) == FullCost(c)
  {
    hide BlockCount, Slice, PackData;
    OnlyLastIsShort(c.file, c.blksize, b);
    PacketLength(Wire(b), Slice(c.file, c.blksize, b));
  }

  /** A fill with room for all but too few reads queues one frame for each read. */
  lemma {:induction false} FillRunsDry(c: Config, q: seq<Frame>, b: nat, offset: nat, left: nat, readable: nat)
    requires c.Valid() && c.blksize <= MAX_CHUNK && 1 <= b && b + readable <= c.Total() && offset == (b - 1) * c.blksize
    requires readable < left && QueueBytes(c, q) + (readable + 1) * FullCost(c) <= QUEUE_CAP
    ensures Fill(c, q, b - 1, b, offset, left, readable) ==
            Filled(q + FramesOf(c, b, b + readable - 1), b + readable - 1, false, false)
    decreases left
  {
    hide BlockCount, Fill, FrameOf, QueueBytes, FullCost, Cost;
    FillBlock(c, q, b, offset, left, readable);
    assert q + [] == q;
    if readable > 0 {
      FullFrame(c, b);
      var f := FrameOf(c, b);
      QueueBytesPush(c, q, f);
      OneLess(readable, FullCost(c));
      FillRunsDry(c, q + [f], b + 1, b * c.blksize, left - 1, readable - 1);
      assert q + [f] + FramesOf(c, b + 1, b + readable - 1) == q + FramesOf(c, b, b + readable - 1);
    }
  }

  lemma OneLess(n: nat, cost: nat)
    ensures (n + 1) * cost == cost + n * cost && cost <= (n + 1) * cost
  {
  }

  lemma QueueBytesPush(c: Config, q: seq<Frame>, f: Frame)
    ensures QueueBytes(c, q + [f]) == QueueBytes(c, q) + Cost(c, f)
  {
    assert (q + [f])[..|q|] == q;
  }

  /** A full ACK that flushes the prebuild leaves nothing behind. */
  lemma FlushLeavesNothing(c: Config, s: Session, readable: nat, preReadable: nat)
    requires c.Valid() && Inv(c, s) && s.state == SendRrq && s.preValid && s.nextBlock <= s.windowLast
    ensures var s' := OnAck(c, s, Wire(s.windowLast), readable, preReadable);
            && s'.state == SendRrq
            && s'.nextBlock == s.windowLast + 1 && s'.windowLast == s.preLast
            && (s'.preValid ==> Leftover(s') == [])
            && (!s'.preValid && c.hasPrebuilt && preReadable >= c.windowsize ==> s'.eof)
  {
    hide BlockCount, Slice, PackData, FillWindow, Credit, MapAck, Leftover, FrameOf, PrebuildNext, AllTrue, AllSent;
    MapAckInverts(s.windowLast, s.windowLast);
    CreditBeforeFlush(c, s);
    PrebuiltContents(c, s);
    NothingIsTrue(c);
    BothTrue(c, s.wire, s.prebuilt);
    var s', q := Credit(c, s, s.windowLast), Leftover(s);
    var t := s'.(windowLast := s.preLast, eof := s.preEof, wire := s'.wire + s.prebuilt,
                 prebuilt := [], preValid := false);
    assert s.prebuilt[|q|..] == FramesOf(c, s.windowLast + 1, s.preLast);
    SentAfter(c, s', t, s.prebuilt, s.windowLast + 1, s.preLast);
    PrebuildKeeps(c, t, preReadable);
    FullBlockFits(c, s);
    PrebuildSucceeds(c, t, preReadable);
  }

  lemma PrebuildSucceeds(c: Config, s: Session, readable: nat)
    requires c.blksize <= MAX_CHUNK
    ensures var s' := PrebuildNext(c, s, readable);
            && ProgressOf(s') == ProgressOf(s)
            && (readable >= c.windowsize && !s.eof && c.hasPrebuilt ==> s'.preValid)
  {
    hide FillWindow;
    if readable >= c.windowsize && !s.eof && c.hasPrebuilt {
      var offset := s.windowFirstOffset + U32(s.windowLast + 1 - s.nextBlock) * c.blksize;
      FillWindowOk(c, s.prebuilt, U32(s.windowLast + 1), offset, readable);
    }
  }

  // ---- The same steps in both engines --------------------------------

  lemma {:induction false} QueueBytesSame(c: Config, q: seq<Frame>)
    ensures QueueBytes(c.(hasPrebuilt := false), q) == QueueBytes(c, q)
  {
    if q != [] {
      QueueBytesSame(c, q[..|q| - 1]);
    }
  }

  /** Whether the prebuild queue exists does not change what a fill makes. */
  lemma {:induction false} FillSame(c: Config, q: seq<Frame>, last: nat, block: nat, offset: nat, left: nat,
      readable: nat)
    ensures Fill(c.(hasPrebuilt := false), q, last, block, offset, left, readable)
         == Fill(c, q, last, block, offset, left, readable)
    decreases left
  {
    hide PackData, QueueBytes;
    QueueBytesSame(c, q);
    var chunk := ReadAt(c, offset);
    assert ReadAt(c.(hasPrebuilt := false), offset) == chunk;
    if left > 0 && readable > 0 {
      var f := Frame(block, PackData(Wire(block), chunk));
      FillSame(c, q + [f], block, U32(block + 1), offset + |chunk|, left - 1, readable - 1);
    }
  }

  lemma PrebuildIsInvisible(c: Config, s: Session, readable: nat)
    ensures ProgressOf(PrebuildNext(c, s, readable)) == ProgressOf(s)
    ensures !c.hasPrebuilt && !s.preValid ==> !PrebuildNext(c, s, readable).preValid
  {
    hide FillWindow;
  }

  /** From equal positions the disk path makes equal progress in both engines. */
  lemma SendSame(c: Config, s: Session, t: Session, readable: nat, preReadable: nat)
    requires ProgressOf(s) == ProgressOf(t)
    ensures var t' := SendWindow(c.(hasPrebuilt := false), t, readable, preReadable);
            ProgressOf(SendWindow(c, s, readable, preReadable)) == ProgressOf(t') && !t'.preValid
  {
    hide Fill, PrebuildNext;
    var last := if s.nextBlock > 0 then s.nextBlock - 1 else 0;
    FillSame(c, [], last, s.nextBlock, s.windowFirstOffset, c.windowsize, readable);
    var r := FillWindow(c, [], s.nextBlock, s.windowFirstOffset, readable);
    var d := c.(hasPrebuilt := false);
    assert FillWindow(d, [], t.nextBlock, t.windowFirstOffset, readable) == r;
    var s' := s.(preValid := false, wire := s.wire + r.queue, windowLast := r.last, eof := r.eof);
    var t' := t.(preValid := false, wire := t.wire + r.queue, windowLast := r.last, eof := r.eof);
    PrebuildIsInvisible(c, s', preReadable);
    PrebuildIsInvisible(d, t', preReadable);
  }

  lemma AckSame(c: Config, s: Session, t: Session, ack: word, readable: nat, preReadable: nat)
    requires ProgressOf(s) == ProgressOf(t) && !s.preValid && !t.preValid
    ensures var t' := OnAck(c.(hasPrebuilt := false), t, ack, readable, preReadable);
            ProgressOf(OnAck(c, s, ack, readable, preReadable)) == ProgressOf(t') && !t'.preValid
  {
    hide SendWindow, MapAck;
    var cand := MapAck(s.windowLast, ack);
    SendSame(c, Credit(c, s, cand), Credit(c.(hasPrebuilt := false), t, cand), readable, preReadable);
  }

  // ---- Every run -----------------------------------------------------

  /** The engine that could not allocate the prebuild queue. */
  function WithoutQueue(c: Config): Config {
    c.(hasPrebuilt := false)
  }

  /** The ACK sends the prebuilt window off. */
  predicate Flushes(s: Session, ack: word) {
    s.preValid && s.nextBlock <= s.windowLast == MapAck(s.windowLast, ack)
  }

  predicate FlushEvent(s: Session, ev: ReadEngine.Event) {
    ev.Ack? && s.state == SendRrq && Flushes(s, Wire(ev.block))
  }

  /** The reads that a flush saves would have worked. */
  predicate FlushReadsWork(c: Config, run: Run) {
    run.Then? ==>
      && FlushReadsWork(c, run.before)
      && (FlushEvent(Exec(c, run.before), run.ev) ==> run.ev.readable >= c.windowsize)
  }

  /** No flush found frames from before its prebuild. */
  predicate CleanFlushes(c: Config, run: Run) {
    run.Then? ==>
      && CleanFlushes(c, run.before)
      && (FlushEvent(Exec(c, run.before), run.ev) ==> Leftover(Exec(c, run.before)) == [])
  }

  /** Now and at every earlier point both engines have sent the same frames and stand at the same
      position. */
  predicate AlwaysSame(c: Config, run: Run) {
    && ProgressOf(Exec(c, run)) == ProgressOf(Exec(WithoutQueue(c), run))
    && (run.Then? ==> AlwaysSame(c, run.before))
  }

  lemma {:induction false} NoQueueNoPrebuild(c: Config, run: Run)
    requires !c.hasPrebuilt
    ensures !Exec(c, run).preValid
  {
    hide FillWindow, MapAck, Credit;
    if run.Then? {
      NoQueueNoPrebuild(c, run.before);
      var s := Exec(c, run.before);
      if run.ev.Ack? {
        CreditFrame(c, s, MapAck(s.windowLast, Wire(run.ev.block)));
      }
    }
  }

  /** An ACK that does not flush does not look at the prebuild. */
  lemma PrebuildIgnored(c: Config, s: Session, ack: word, readable: nat, preReadable: nat)
    requires !Flushes(s, ack)
    ensures ProgressOf(OnAck(c, s, ack, readable, preReadable)) ==
            ProgressOf(OnAck(c, s.(preValid := false), ack, readable, preReadable))
  {
    hide SendWindow, FlushPrebuilt, MapAck, Credit;
    var cand := MapAck(s.windowLast, ack);
    CreditIgnoresPrebuild(c, s, cand);
    CreditFrame(c, s, cand);
    ProgressIgnoresPrebuild(Credit(c, s, cand));
  }

  lemma ProgressIgnoresPrebuild(s: Session)
    ensures ProgressOf(s.(preValid := false)) == ProgressOf(s)
  {
  }

  /** One ACK moves both engines alike exactly when it does not flush leftover frames. */
  lemma AckSameIff(c: Config, s: Session, t: Session, block: nat, readable: nat, preReadable: nat)
    requires c.Valid() && Inv(c, s) && s.state == SendRrq && block <= s.windowLast
    requires ProgressOf(s) == ProgressOf(t) && !t.preValid
    requires Flushes(s, Wire(block)) ==> readable >= c.windowsize
    ensures ProgressOf(OnAck(c, s, Wire(block), readable, preReadable)) ==
            ProgressOf(OnAck(WithoutQueue(c), t, Wire(block), readable, preReadable))
            <==> (Flushes(s, Wire(block)) ==> Leftover(s) == [])
  {
    hide BlockCount, Slice, PackData, FillWindow, Leftover, OnAck, MapAck, Inv;
    AckSame(c, s.(preValid := false), t, Wire(block), readable, preReadable);
    if Flushes(s, Wire(block)) {
      WireSmall(block);
      MapAckExact(s.windowLast, Wire(block)) by { WindowBelow(c, s); }
      PrebuiltRefinesDisk(c, s, readable, preReadable);
    } else {
      PrebuildIgnored(c, s, Wire(block), readable, preReadable);
    }
  }

  lemma WindowBelow(c: Config, s: Session)
    requires c.Valid() && Inv(c, s) && s.state == SendRrq
    ensures s.windowLast + 65536 < TWO32
  {
    hide BlockCount, AllTrue, AllSent, PrebuiltAgrees;
  }

  lemma StepSameIff(c: Config, s: Session, t: Session, ev: ReadEngine.Event)
    requires c.Valid() && Inv(c, s) && ProgressOf(s) == ProgressOf(t) && !t.preValid
    requires ev.Ack? && s.state == SendRrq ==> ev.block <= s.windowLast
    requires FlushEvent(s, ev) ==> ev.readable >= c.windowsize
    ensures ProgressOf(Step(c, s, ev)) == ProgressOf(Step(WithoutQueue(c), t, ev))
            <==> (FlushEvent(s, ev) ==> Leftover(s) == [])
  {
    hide BlockCount, OnAck, SendWindow, Leftover, Inv, MapAck;
    if s.state == SendRrq {
      match ev
      case Ack(block, readable, preReadable) => AckSameIff(c, s, t, block, readable, preReadable);
      case Expire(readable, preReadable) =>
        SendSame(c, s.(retrans := s.retrans + 1, preValid := false), t.(retrans := t.retrans + 1, preValid := false),
                 readable, preReadable);
      case ClientError =>
    }
  }

  /** In every run, with timeouts, partial, repeated and old ACKs, client errors and failing reads, the
      engine with the queue stays indistinguishable from the engine that always reads from disk
      exactly as long as every flush is clean. */
  lemma {:induction false} RunRefinesIff(c: Config, run: Run)
    requires c.Valid() && HonestClient(c, run) && FlushReadsWork(c, run)
    ensures AlwaysSame(c, run) <==> CleanFlushes(c, run)
  {
    hide Leftover, SendWindow, ProgressOf, FlushEvent, Step;
    match run
    case Started(retrans, readable, preReadable) =>
      BeginSame(c, retrans, readable, preReadable);
    case Then(before, ev) =>
      RunRefinesIff(c, before);
      if AlwaysSame(c, before) {
        RunKeeps(c, before);
        NoQueueNoPrebuild(WithoutQueue(c), before);
        StepSameIff(c, Exec(c, before), Exec(WithoutQueue(c), before), ev);
      }
  }

  lemma BeginSame(c: Config, retrans: nat, readable: nat, preReadable: nat)
    ensures ProgressOf(Begin(c, retrans, readable, preReadable)) ==
            ProgressOf(Begin(WithoutQueue(c), retrans, readable, preReadable))
  {
    hide SendWindow;
    SendSame(c, Unsent(retrans), Unsent(retrans), readable, preReadable);
  }

  // ---- Lossless downloads --------------------------------------------

  /** The run in which every disk read works and every window is acknowledged in full, after n ACKs. */
  function LosslessRun(c: Config, n: nat): Run {
    if n == 0 then Started(0, c.windowsize, c.windowsize)
    else
      var before := LosslessRun(c, n - 1);
      Then(before, ReadEngine.Ack(Exec(c, before).windowLast, c.windowsize, c.windowsize))
  }

  function Lossless(c: Config, n: nat): Session {
    Exec(c, LosslessRun(c, n))
  }

  /** While sending, some of the window is unacknowledged, and the prebuild is valid and built on an
      empty queue unless there is nothing left to prebuild. */
  predicate Clean(s: Session) {
    s.state == SendRrq ==>
      s.nextBlock <= s.windowLast && if s.preValid then Leftover(s) == [] else s.eof
  }

  /** An empty queue always takes at least one frame. */
  lemma FillProgress(c: Config, b: nat, readable: nat)
    requires c.Valid() && 1 <= b <= c.Total() && readable > 0
    requires FillWindow(c, [], b, (b - 1) * c.blksize, readable).ok
    ensures FillWindow(c, [], b, (b - 1) * c.blksize, readable).last >= b
  {
    hide BlockCount, Slice, PackData, ReadAt, FramesOf;
    NextOffset(c, b);
    var f := FrameOf(c, b);
    PacketLength(Wire(b), Slice(c.file, c.blksize, b));
    assert QueueBytes(c, []) == 0;
    if b < c.Total() {
      FillIsTrue(c, [] + [f], b + 1, b * c.blksize, c.windowsize - 1, readable - 1);
    }
  }

  lemma PacketLength(block: word, payload: seq<byte>)
    ensures |PackData(block, payload)| == 4 + |payload|
  {
  }

  lemma BeginClean(c: Config)
    requires c.Valid() && c.hasPrebuilt
    ensures Clean(Begin(c, 0, c.windowsize, c.windowsize))
  {
    hide BlockCount, Slice, PackData, FillWindow, PrebuildNext, Leftover;
    var s := Unsent(0);
    SendWindowKeeps(c, s, c.windowsize, c.windowsize);
    var r := FillWindow(c, [], 1, 0, c.windowsize);
    if r.ok {
      FillProgress(c, 1, c.windowsize);
      var t := s.(wire := [] + r.queue, windowLast := r.last, eof := r.eof);
      PrebuildIsInvisible(c, t, c.windowsize);
      var b := Begin(c, 0, c.windowsize, c.windowsize);
      assert b == PrebuildNext(c, t, c.windowsize);
      if !b.eof {
        FullBlockFits(c, b);
        PrebuildSucceeds(c, t, c.windowsize);
      }
    }
  }

  lemma FullAckClean(c: Config, s: Session)
    requires c.Valid() && c.hasPrebuilt && Inv(c, s) && Clean(s) && s.state == SendRrq
    ensures Clean(OnAck(c, s, Wire(s.windowLast), c.windowsize, c.windowsize))
  {
    hide BlockCount, Slice, PackData, FillWindow, PrebuildNext, Leftover, OnAck, MapAck;
    if s.preValid {
      FlushLeavesNothing(c, s, c.windowsize, c.windowsize);
      FillProgress(c, s.windowLast + 1, c.windowsize);
    } else {
      OnAckKeeps(c, s, Wire(s.windowLast), c.windowsize, c.windowsize);
      MapAckInverts(s.windowLast, s.windowLast);
      CompletedIsDone(c, s, Wire(s.windowLast), c.windowsize, c.windowsize);
    }
  }

  lemma CompletedIsDone(c: Config, s: Session, ack: word, readable: nat, preReadable: nat)
    requires c.Valid() && Inv(c, s) && s.state == SendRrq && ack <= s.windowLast
    ensures var s' := OnAck(c, s, ack, readable, preReadable); s'.completed ==> s'.state != SendRrq
  {
    hide BlockCount, Slice, PackData, OnAck;
    OnAckKeeps(c, s, ack, readable, preReadable);
  }

  lemma {:induction false} LosslessClean(c: Config, n: nat)
    requires c.Valid() && c.hasPrebuilt
    ensures Inv(c, Lossless(c, n)) && Clean(Lossless(c, n))
    ensures var run := LosslessRun(c, n); HonestClient(c, run) && FlushReadsWork(c, run) && CleanFlushes(c, run)
  {
    hide BlockCount, Slice, PackData, FillWindow, Leftover, OnAck, MapAck, SendWindow, Inv;
    if n == 0 {
      BeginKeeps(c, 0, c.windowsize, c.windowsize);
      BeginClean(c);
    } else {
      LosslessClean(c, n - 1);
      var s := Lossless(c, n - 1);
      if s.state == SendRrq {
        FullAckInv(c, s);
        FullAckClean(c, s);
      }
    }
  }

  /** At every point of a lossless download the engine with the prebuilt queue has sent the same
      frames and stands at the same position as the engine that always reads from disk. */
  lemma {:induction false} LosslessRefines(c: Config, n: nat)
    requires c.Valid() && c.hasPrebuilt
    ensures ProgressOf(Lossless(c, n)) == ProgressOf(Lossless(WithoutQueue(c), n))
    ensures LosslessRun(c, n) == LosslessRun(WithoutQueue(c), n)
  {
    hide Step, Begin;
    LosslessClean(c, n);
    RunRefinesIff(c, LosslessRun(c, n));
    if n > 0 {
      LosslessRefines(c, n - 1);
    }
  }

  lemma FullAckInv(c: Config, s: Session)
    requires c.Valid() && Inv(c, s) && s.state == SendRrq
    ensures Inv(c, OnAck(c, s, Wire(s.windowLast), c.windowsize, c.windowsize))
  {
    hide BlockCount, Slice, PackData, FillWindow, Leftover, OnAck, MapAck;
    OnAckKeeps(c, s, Wire(s.windowLast), c.windowsize, c.windowsize);
  }

  /** While every block fits a packet, each full ACK moves on, so a lossless download completes
      within as many ACKs as the file has blocks. */
  lemma {:induction false} LosslessAdvances(c: Config, n: nat)
    requires c.Valid() && c.hasPrebuilt && c.blksize <= MAX_CHUNK
    ensures var s := Lossless(c, n); s.completed || (s.state == SendRrq && s.nextBlock > n)
  {
    hide BlockCount, Slice, PackData, FillWindow, Leftover, OnAck, MapAck;
    if n == 0 {
      BeginSucceeds(c);
    } else {
      LosslessAdvances(c, n - 1);
      LosslessClean(c, n - 1);
      var s := Lossless(c, n - 1);
      if s.state == SendRrq {
        if s.preValid {
          FlushLeavesNothing(c, s, c.windowsize, c.windowsize);
        } else {
          MapAckInverts(s.windowLast, s.windowLast);
          OnAckKeeps(c, s, Wire(s.windowLast), c.windowsize, c.windowsize);
        }
      }
    }
  }

  lemma BeginSucceeds(c: Config)
    requires c.blksize <= MAX_CHUNK
    ensures Begin(c, 0, c.windowsize, c.windowsize).state == SendRrq
    ensures Begin(c, 0, c.windowsize, c.windowsize).nextBlock == 1
  {
    hide FillWindow, PrebuildNext;
    FillWindowOk(c, [], 1, 0, c.windowsize);
    var r := FillWindow(c, [], 1, 0, c.windowsize);
    var t := Session(SendRrq, false, 1, r.last, r.eof, 0, 0, 0, [], 0, 0, 0, false, false, [] + r.queue);
    PrebuildIsInvisible(c, t, c.windowsize);
  }

  lemma LosslessCompletes(c: Config)
    requires c.Valid() && c.blksize <= MAX_CHUNK
    ensures var s := Lossless(c, c.Total());
            s.completed && s.bytesDone == |c.file| && forall b | 1 <= b <= c.Total() :: FrameOf(c, b) in s.wire
  {
    hide BlockCount, Slice, PackData, FillWindow, Leftover, Lossless;
    var d := c.(hasPrebuilt := true);
    LosslessAdvances(d, c.Total());
    LosslessClean(d, c.Total());
    if !c.hasPrebuilt {
      LosslessRefines(d, c.Total());
      assert WithoutQueue(d) == c;
      forall b | 1 <= b <= c.Total() ensures FrameOf(c, b) in Lossless(c, c.Total()).wire {
        assert FrameOf(c, b) == FrameOf(d, b);
      }
    }
  }

  /** A download whose first block is too large for a packet ends as a read error with nothing sent. */
  lemma TooLargeFails(c: Config, n: nat)
    requires c.Valid() && c.blksize > 1998 && |c.file| > 1998
    ensures Lossless(c, n).state == Done && Lossless(c, n).wire == [] && !Lossless(c, n).completed
  {
    hide BlockCount, Slice, PackData, PrebuildNext;
    assert |ReadAt(c, 0)| > 1998;
    assert FillWindow(c, [], 1, 0, c.windowsize) == Filled([], 0, false, false);
    DoneStays(c, n);
  }

  lemma {:induction false} DoneStays(c: Config, n: nat)
    requires Lossless(c, 0).state == Done
    ensures Lossless(c, n) == Lossless(c, 0)
  {
    hide Begin, OnAck, OnTimeout;
    if n > 0 {
      DoneStays(c, n - 1);
    }
  }

  /** The one frame of a file that is one short block. */
  function OnlyFrame(c: Config): Frame {
    Frame(1, PackData(Wire(1), c.file))
  }

  lemma OneShortFill(c: Config)
    requires c.Valid() && |c.file| < c.blksize && |c.file| <= 1998
    ensures c.Total() == 1 && FillWindow(c, [], 1, 0, c.windowsize) == Filled([OnlyFrame(c)], 1, true, true)
  {
    hide PackData, BlockCount, ReadAt, QueueBytes;
    OneBlock(c);
    PacketLength(Wire(1), c.file);
    assert QueueBytes(c, []) == 0 by { NoBytes(c); }
    assert [] + [OnlyFrame(c)] == [OnlyFrame(c)];
  }

  lemma OneBlock(c: Config)
    requires c.Valid() && |c.file| < c.blksize
    ensures c.Total() == 1 && ReadAt(c, 0) == c.file
  {
    FullBlocks(|c.file|, c.blksize, 1);
    hide BlockCount;
  }

  lemma NoBytes(c: Config)
    ensures QueueBytes(c, []) == 0
  {
  }

  lemma OneShortBegin(c: Config)
    requires c.Valid() && |c.file| < c.blksize && |c.file| <= 1998
    ensures var s := Lossless(c, 0);
            && s.state == SendRrq && !s.completed && s.nextBlock == 1 && s.windowLast == 1 && s.eof
            && s.wire == [OnlyFrame(c)]
  {
    hide PrebuildNext, FillWindow, OnlyFrame, BlockCount;
    OneShortFill(c);
    var s := Unsent(0).(wire := [] + [OnlyFrame(c)], windowLast := 1, eof := true);
    PrebuildIsInvisible(c, s, c.windowsize);
    assert Lossless(c, 0) == PrebuildNext(c, s, c.windowsize);
  }

  /** A file that is one short block of at most 1998 bytes goes through whatever the block size. */
  lemma OneShortBlock(c: Config)
    requires c.Valid() && |c.file| < c.blksize && |c.file| <= 1998
    ensures c.Total() == 1 && Lossless(c, 1).completed
  {
    hide Begin, SendWindow, FlushPrebuilt, BlockCount, Credit, MapAck;
    OneShortFill(c);
    OneShortBegin(c);
    var s := Lossless(c, 0);
    MapAckInverts(1, 1);
    CreditFrame(c, s, 1);
    assert LosslessRun(c, 1) == Then(LosslessRun(c, 0), ReadEngine.Ack(1, c.windowsize, c.windowsize));
  }

  /** A download in which nothing is lost and every read works completes, within as many ACKs as the file has blocks,
      exactly when its blocks are of at most 1998 bytes or the file is. */
  lemma LosslessCompletesIff(c: Config)
    requires c.Valid()
    ensures Lossless(c, c.Total()).completed <==> c.blksize <= 1998 || |c.file| <= 1998
  {
    hide BlockCount, Lossless;
    if c.blksize <= 1998 {
      LosslessCompletes(c);
    } else if |c.file| <= 1998 {
      OneShortBlock(c);
    } else {
      TooLargeFails(c, c.Total());
    }
  }

  // ---- A stale ACK ends a download -----------------------------------

  /** The last n for which the lossless download is not yet complete has everything sent. */
  lemma {:induction false} LosslessReachesEnd(c: Config, n: nat) returns (m: nat)
    requires c.Valid() && c.hasPrebuilt && c.blksize <= MAX_CHUNK && Lossless(c, n).completed
    ensures Lossless(c, m).state == SendRrq && Lossless(c, m).eof
  {
    hide BlockCount, Slice, PackData, FillWindow, Leftover, OnAck, MapAck, Clean;
    if n == 0 {
      BeginSucceeds(c);
      LosslessAdvances(c, 0);
      LosslessClean(c, 0);
    } else if Lossless(c, n - 1).completed {
      m := LosslessReachesEnd(c, n - 1);
    } else {
      m := n - 1;
      LosslessAdvances(c, m);
      LosslessClean(c, m);
      var s := Lossless(c, m);
      MapAckInverts(s.windowLast, s.windowLast);
      OnAckKeeps(c, s, Wire(s.windowLast), c.windowsize, c.windowsize);
    }
  }

  /** Every file of more than 65536 blocks that can be downloaded has a run in which the ACK of a block
      65536 before the final one ends the download as complete. */
  lemma StaleAckEndsDownload(c: Config) returns (run: Run)
    requires c.Valid() && c.hasPrebuilt && c.blksize <= MAX_CHUNK && c.Total() > WRAP
    ensures var late := Then(run, ReadEngine.Ack(c.Total() - WRAP, c.windowsize, c.windowsize));
            && HonestClient(c, late) && RecentClient(c, run)
            && !Exec(c, run).completed && Exec(c, late).completed
  {
    hide BlockCount, Step, Begin, Clean, Inv, FlushReadsWork, CleanFlushes, LosslessRun;
    LosslessCompletes(c);
    var m := LosslessReachesEnd(c, c.Total());
    run := LosslessRun(c, m);
    LosslessClean(c, m);
    LosslessIsRecent(c, m);
    StaleAckAfter(c, run);
  }

  lemma LastStep(c: Config, run: Run, ev: ReadEngine.Event)
    ensures Exec(c, Then(run, ev)) == Step(c, Exec(c, run), ev)
  {
    hide Step;
  }

  lemma StaleAckAfter(c: Config, run: Run)
    requires c.Valid() && c.Total() > WRAP && HonestClient(c, run)
    requires Exec(c, run).state == SendRrq && Exec(c, run).eof
    ensures var late := Then(run, ReadEngine.Ack(c.Total() - WRAP, c.windowsize, c.windowsize));
            HonestClient(c, late) && !Exec(c, run).completed && Exec(c, late).completed
  {
    hide BlockCount, OnAck, Inv, Exec;
    RunKeeps(c, run);
    EofMeansAll(c, Exec(c, run));
    CycleBefore(c.Total());
    StaleAckCompletes(c, Exec(c, run), c.Total() - WRAP, c.windowsize, c.windowsize);
    LastStep(c, run, ReadEngine.Ack(c.Total() - WRAP, c.windowsize, c.windowsize));
  }

  lemma EofMeansAll(c: Config, s: Session)
    requires c.Valid() && Inv(c, s) && s.state == SendRrq && s.eof
    ensures s.windowLast == c.Total() && !s.completed
  {
    hide BlockCount, AllTrue, AllSent, PrebuiltAgrees;
  }

  lemma CycleBefore(n: nat)
    requires n >= WRAP
    ensures Wire(n - WRAP) == Wire(n)
  {
  }

  lemma {:induction false} LosslessIsRecent(c: Config, n: nat)
    ensures RecentClient(c, LosslessRun(c, n))
  {
    hide Step, Begin;
    if n > 0 {
      LosslessIsRecent(c, n - 1);
    }
  }
}
