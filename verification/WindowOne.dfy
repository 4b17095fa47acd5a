/** C downloads with a window of one block: while disk reads work, every flush is covered in every run,
    whatever is lost, repeated or late, so nothing is ever sent beyond the window. */
module WindowOne {
  import opened Blocks
  import opened Protocol
  import opened ReadEngine
  import opened ReadRefinement
  import opened DownloadWindow

  /** Every disk read works, and the retries spent before the transfer are no more than allowed. */
  predicate Regular(c: Config, run: Run) {
    match run
    case Started(retrans, readable, preReadable) =>
      retrans <= MAX_RETRANS && readable >= c.windowsize && preReadable >= c.windowsize
    case Then(before, ev) =>
      Regular(c, before) && (ev.ClientError? || (ev.readable >= c.windowsize && ev.preReadable >= c.windowsize))
  }

  /** The most a queued frame costs: record and packet headers, opcode and number, and the largest block. */
  const MOST := 2064

  lemma {:induction false} QueueBytesBound(c: Config, q: seq<Frame>)
    requires c.Valid() && AllTrue(c, q)
    ensures QueueBytes(c, q) <= |q| * MOST
  {
    hide BlockCount, Slice, PackData;
    if q != [] {
      var f := q[|q| - 1];
      PacketLength(Wire(f.block), Slice(c.file, c.blksize, f.block));
      QueueBytesBound(c, q[..|q| - 1]);
    }
  }

  /** With a window of one block and room in the queue, a fill adds exactly that block. */
  lemma OneFrame(c: Config, q: seq<Frame>, b: nat, offset: nat, readable: nat)
    requires c.Valid() && c.windowsize == 1 && 1 <= b <= c.Total() && offset == (b - 1) * c.blksize && readable > 0
    requires Fits(c, b) && QueueBytes(c, q) + MOST <= QUEUE_CAP
    ensures FillWindow(c, q, b, offset, readable) == Filled(q + [FrameOf(c, b)], b, b == c.Total(), true)
  {
    hide BlockCount, Slice, PackData, ReadAt, QueueBytes;
    NextOffset(c, b);
    PacketLength(Wire(b), Slice(c.file, c.blksize, b));
  }

  /** One block is out and unacknowledged; what is prebuilt are copies of the one after it, no more than
      there were retries. */
  predicate Lone(c: Config, s: Session) {
    s.state == SendRrq ==>
      && s.nextBlock == s.windowLast && s.retrans <= MAX_RETRANS
      && Copies(s, s.retrans + 1)
      && (if c.hasPrebuilt && !s.eof then s.preValid && s.preLast == s.windowLast + 1 else !s.preValid)
      && (!c.hasPrebuilt ==> s.prebuilt == [])
  }

  predicate Copies(s: Session, most: nat) {
    |s.prebuilt| <= most && forall i | 0 <= i < |s.prebuilt| :: s.prebuilt[i].block == s.windowLast + 1
  }

  lemma LonePrebuild(c: Config, s: Session, readable: nat)
    requires c.Valid() && c.windowsize == 1 && readable > 0 && ReadyToPrebuild(c, s) && s.windowLast >= 1
    requires s.nextBlock == s.windowLast && s.retrans <= MAX_RETRANS && Copies(s, s.retrans)
    requires !c.hasPrebuilt ==> s.prebuilt == []
    ensures Lone(c, PrebuildNext(c, s, readable))
  {
    hide BlockCount, FillWindow, FrameOf, AllTrue, AllSent, QueueBytes;
    if !s.eof && c.hasPrebuilt {
      var b := s.windowLast + 1;
      PrebuildStart(c, s);
      QueueBytesBound(c, s.prebuilt);
      LaterFits(c, s, b);
      OneFrame(c, s.prebuilt, b, s.windowLast * c.blksize, readable);
      assert FrameOf(c, b).block == b by { FrameBlock(c, b); }
    }
  }

  lemma FrameBlock(c: Config, b: nat)
    requires c.blksize > 0 && b > 0
    ensures FrameOf(c, b).block == b
  {
    hide Slice, PackData;
  }

  /** Once a full block was sent, every block fits. */
  lemma LaterFits(c: Config, s: Session, b: nat)
    requires c.Valid() && ReadyToPrebuild(c, s) && 1 <= s.windowLast < c.Total() && 1 <= b <= c.Total()
    ensures Fits(c, b)
  {
    hide BlockCount, Slice, PackData, FillWindow, AllTrue, AllSent;
    FullBlockFits(c, s);
    OnlyLastIsShort(c.file, c.blksize, b);
  }

  lemma LoneSend(c: Config, s: Session, readable: nat, preReadable: nat)
    requires c.Valid() && c.windowsize == 1 && readable > 0 && preReadable > 0 && ReadyToSend(c, s)
    requires s.retrans <= MAX_RETRANS && |s.prebuilt| <= s.retrans
    requires forall i | 0 <= i < |s.prebuilt| :: s.prebuilt[i].block == s.nextBlock + 1
    requires !c.hasPrebuilt ==> s.prebuilt == []
    ensures Lone(c, SendWindow(c, s, readable, preReadable))
  {
    hide BlockCount, FillWindow, FrameOf, AllTrue, AllSent, PrebuildNext, QueueBytes;
    var r := FillWindow(c, [], s.nextBlock, s.windowFirstOffset, readable);
    if r.ok {
      AfterFillKeeps(c, s, readable);
      FillProgress(c, s.nextBlock, readable);
      LonePrebuild(c, AfterFill(s, r), preReadable);
    }
  }

  lemma LoneAck(c: Config, s: Session, block: nat, readable: nat, preReadable: nat)
    requires c.Valid() && c.windowsize == 1 && readable > 0 && preReadable > 0
    requires Inv(c, s) && s.state == SendRrq && Lone(c, s) && block <= s.windowLast
    ensures Lone(c, OnAck(c, s, Wire(block), readable, preReadable))
  {
    hide BlockCount, SendWindow, FlushPrebuilt, Credit, MapAck, AllTrue, AllSent;
    WireSmall(block);
    MapAckExact(s.windowLast, Wire(block));
    var cand := MapAck(s.windowLast, Wire(block));
    if cand >= s.nextBlock {
      CreditKeeps(c, s, cand);
      CreditFrame(c, s, cand);
      var s' := Credit(c, s, cand);
      if !s'.completed {
        if s.preValid {
          CreditBeforeFlush(c, s);
          FlushMakes(c, s, preReadable);
          FlushedReady(c, s);
          LonePrebuild(c, Flushed(c, s), preReadable);
        } else {
          CreditRetries(c, s, cand);
          LoneSend(c, s'.(preValid := false), readable, preReadable);
        }
      }
    }
  }

  lemma CreditRetries(c: Config, s: Session, cand: nat)
    ensures var s' := Credit(c, s, cand); s'.state != Done ==> s'.retrans == 0
  {
  }

  lemma LoneStep(c: Config, s: Session, ev: ReadEngine.Event)
    requires c.Valid() && c.windowsize == 1 && Inv(c, s) && Lone(c, s)
    requires ev.ClientError? || (ev.readable > 0 && ev.preReadable > 0)
    requires ev.Ack? && s.state == SendRrq ==> ev.block <= s.windowLast
    ensures Lone(c, Step(c, s, ev))
  {
    hide BlockCount, OnAck, SendWindow, AllTrue, FrameOf, PrebuiltAgrees;
    if s.state == SendRrq {
      match ev
      case Ack(block, readable, preReadable) => LoneAck(c, s, block, readable, preReadable);
      case Expire(readable, preReadable) =>
        if s.retrans + 1 <= MAX_RETRANS {
          LoneSend(c, s.(retrans := s.retrans + 1, preValid := false), readable, preReadable);
        }
      case ClientError =>
    }
  }

  lemma LoneBegin(c: Config, retrans: nat, readable: nat, preReadable: nat)
    requires c.Valid() && c.windowsize == 1 && retrans <= MAX_RETRANS && readable > 0 && preReadable > 0
    ensures Lone(c, Begin(c, retrans, readable, preReadable))
  {
    hide BlockCount, SendWindow, AllTrue, FrameOf;
    NothingIsTrue(c);
    LoneSend(c, Unsent(retrans), readable, preReadable);
  }

  lemma LoneIsCovered(c: Config, s: Session, ev: ReadEngine.Event)
    requires Lone(c, s) && FlushEvent(s, ev)
    ensures Covered(s)
  {
    hide MapAck;
  }

  /** With a window of one block, working reads and a client that acknowledges only what it was sent,
      every flush is covered, timeouts and all. */
  lemma {:induction false} WindowOneCovered(c: Config, run: Run)
    requires c.Valid() && c.windowsize == 1 && SentOnly(c, run) && Regular(c, run)
    ensures CoveredFlushes(c, run) && Lone(c, Exec(c, run))
  {
    hide BlockCount, Step, Begin, Covered, FlushEvent, Lone, Tidy;
    match run
    case Started(retrans, readable, preReadable) => LoneBegin(c, retrans, readable, preReadable);
    case Then(before, ev) =>
      WindowOneCovered(c, before);
      SentWithinWindow(c, before);
      RunKeeps(c, before);
      var s := Exec(c, before);
      HonestNext(c, before, ev);
      LoneStep(c, s, ev);
      if FlushEvent(s, ev) {
        LoneIsCovered(c, s, ev);
      }
  }

  /** What was sent is within the window, so the next ACK is as well. */
  lemma HonestNext(c: Config, run: Run, ev: ReadEngine.Event)
    requires SentOnly(c, Then(run, ev)) && Within(Exec(c, run))
    ensures ev.Ack? && Exec(c, run).state == SendRrq ==> ev.block <= Exec(c, run).windowLast
  {
    hide Exec;
  }

  /** An engine without the queue, or with blocks too large for a packet, never flushes. */
  lemma {:induction false} NeverFlushes(c: Config, run: Run)
    requires c.Valid() && SentOnly(c, run) && (!c.hasPrebuilt || c.blksize > MAX_CHUNK)
    ensures CoveredFlushes(c, run)
  {
    hide BlockCount, Step, Begin, Covered, Tidy, Inv, MapAck;
    if run.Then? {
      NeverFlushes(c, run.before);
      SentWithinWindow(c, run.before);
      RunKeeps(c, run.before);
      var s := Exec(c, run.before);
      if s.state == SendRrq && s.preValid && s.nextBlock <= s.windowLast {
        if !c.hasPrebuilt {
          NoQueueNoPrebuild(c, run.before);
        } else {
          ValidMeansMore(c, s);
          FullBlockFits(c, s);
        }
      }
    }
  }

  lemma ValidMeansMore(c: Config, s: Session)
    requires c.Valid() && Inv(c, s) && s.state == SendRrq && s.preValid && s.nextBlock <= s.windowLast
    ensures 1 <= s.windowLast < c.Total()
  {
    hide BlockCount, AllTrue, AllSent;
  }
}
