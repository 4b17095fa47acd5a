/** How far ahead of its window a C download can have sent. Nothing sent lies beyond the window exactly
    as long as no flush finds leftover frames beyond its prebuild; a client that acknowledges only
    what it was sent is then always understood. */
module DownloadWindow {
  import opened Blocks
  import opened Protocol
  import opened ReadEngine
  import opened ReadRefinement

  // ---- Bytes in a queue ----------------------------------------------

  lemma {:induction false} QueueBytesAppend(c: Config, p: seq<Frame>, q: seq<Frame>)
    ensures QueueBytes(c, p + q) == QueueBytes(c, p) + QueueBytes(c, q)
  {
    if q == [] {
      assert p + q == p;
    } else {
      var n := |q| - 1;
      QueueBytesAppend(c, p, q[..n]);
      assert (p + q)[..|p + q| - 1] == p + q[..n];
    }
  }

  lemma FramesSplit(c: Config, lo: nat, mid: nat, hi: int)
    requires c.blksize > 0 && 1 <= lo <= mid <= hi + 1
    ensures FramesOf(c, lo, hi) == FramesOf(c, lo, mid - 1) + FramesOf(c, mid, hi)
  {
    hide FrameOf;
  }

  /** A queue never holds more than its capacity. */
  lemma {:induction false} FillKeepsCap(c: Config, q: seq<Frame>, last: nat, block: nat, offset: nat, left: nat,
      readable: nat)
    requires QueueBytes(c, q) <= QUEUE_CAP
    ensures QueueBytes(c, Fill(c, q, last, block, offset, left, readable).queue) <= QUEUE_CAP
    decreases left
  {
    hide PackData, ReadAt, QueueBytes;
    if left > 0 && readable > 0 {
      var chunk := ReadAt(c, offset);
      var f := Frame(block, PackData(Wire(block), chunk));
      QueueBytesPush(c, q, f);
      if QueueBytes(c, q + [f]) <= QUEUE_CAP {
        FillKeepsCap(c, q + [f], block, U32(block + 1), offset + |chunk|, left - 1, readable - 1);
      }
    }
  }

  /** A successful fill goes at least as far as there is room for. */
  lemma {:induction false} FillReaches(c: Config, q: seq<Frame>, b: nat, offset: nat, left: nat, readable: nat, to: nat)
    requires c.Valid() && 1 <= b <= c.Total() && offset == (b - 1) * c.blksize
    requires b <= to + 1 <= b + left && to <= c.Total()
    requires QueueBytes(c, q) + QueueBytes(c, FramesOf(c, b, to)) <= QUEUE_CAP
    ensures var r := Fill(c, q, b - 1, b, offset, left, readable); r.ok ==> r.last >= to
    decreases left
  {
    hide BlockCount, Slice, PackData, ReadAt, QueueBytes;
    FillIsTrue(c, q, b, offset, left, readable);
    if b <= to && readable > 0 {
      NextOffset(c, b);
      var f := FrameOf(c, b);
      FirstFrame(c, b, to);
      QueueBytesPush(c, q, f);
      if b < to {
        FillReaches(c, q + [f], b + 1, b * c.blksize, left - 1, readable - 1, to);
      } else if b < c.Total() {
        FillIsTrue(c, q + [f], b + 1, b * c.blksize, left - 1, readable - 1);
      }
    }
  }

  lemma FirstFrame(c: Config, b: nat, to: nat)
    requires c.blksize > 0 && 1 <= b <= to
    ensures QueueBytes(c, FramesOf(c, b, to)) == Cost(c, FrameOf(c, b)) + QueueBytes(c, FramesOf(c, b + 1, to))
  {
    hide FrameOf, Cost;
    QueueBytesAppend(c, [FrameOf(c, b)], FramesOf(c, b + 1, to));
    assert QueueBytes(c, [FrameOf(c, b)]) == Cost(c, FrameOf(c, b)) by {
      QueueBytesPush(c, [], FrameOf(c, b));
      assert [] + [FrameOf(c, b)] == [FrameOf(c, b)];
    }
  }

  // ---- The window never shrinks --------------------------------------

  /** Every frame's block is `top` or below. */
  predicate UpTo(fs: seq<Frame>, top: int) {
    forall i | 0 <= i < |fs| :: fs[i].block <= top
  }

  /** The window fits an empty queue, the prebuilt frames fit theirs, and nothing sent is beyond the
      window. */
  predicate Tidy(c: Config, s: Session)
    requires c.blksize > 0
  {
    s.state == SendRrq ==>
      && 1 <= s.nextBlock
      && QueueBytes(c, FramesOf(c, s.nextBlock, s.windowLast)) <= QUEUE_CAP
      && QueueBytes(c, s.prebuilt) <= QUEUE_CAP
      && UpTo(s.wire, s.windowLast)
  }

  lemma FramesUpTo(c: Config, fs: seq<Frame>, lo: nat, hi: nat)
    requires c.blksize > 0 && 1 <= lo <= hi + 1 && UpTo(fs, hi)
    ensures UpTo(fs + FramesOf(c, lo, hi), hi)
  {
    hide Slice, PackData;
  }

  lemma PrebuildTidy(c: Config, s: Session, readable: nat)
    requires c.blksize > 0 && Tidy(c, s)
    ensures Tidy(c, PrebuildNext(c, s, readable))
  {
    hide Fill, QueueBytes, FramesOf, UpTo, U32;
    if s.state == SendRrq {
      var first := U32(s.windowLast + 1);
      var offset := s.windowFirstOffset + U32(s.windowLast + 1 - s.nextBlock) * c.blksize;
      FillKeepsCap(c, s.prebuilt, if first > 0 then first - 1 else 0, first, offset, c.windowsize, readable);
    }
  }

  /** Sending the window that starts at the next block from disk goes at least as far as before. */
  lemma SendTidy(c: Config, s: Session, readable: nat, preReadable: nat)
    requires c.Valid() && ReadyToSend(c, s)
    requires s.nextBlock <= s.windowLast + 1 <= s.nextBlock + c.windowsize && s.windowLast <= c.Total() && Tidy(c, s)
    ensures var s' := SendWindow(c, s, readable, preReadable);
            Tidy(c, s') && (s'.state == SendRrq ==> s'.windowLast >= s.windowLast)
  {
    hide BlockCount, FillWindow, PrebuildNext, QueueBytes, FramesOf, UpTo, AllTrue, AllSent;
    var r := FillWindow(c, [], s.nextBlock, s.windowFirstOffset, readable);
    FillFromEmpty(c, s.nextBlock, s.windowFirstOffset, readable, s.windowLast);
    if r.ok {
      WireGrows(c, s.wire, s.windowLast, r.last, s.nextBlock);
      PrebuildTidy(c, AfterFill(s, r), preReadable);
      PrebuildIsInvisible(c, AfterFill(s, r), preReadable);
    }
  }

  lemma FillFromEmpty(c: Config, b: nat, offset: nat, readable: nat, to: nat)
    requires c.Valid() && 1 <= b <= c.Total() && offset == (b - 1) * c.blksize
    requires b <= to + 1 <= b + c.windowsize && to <= c.Total() && QueueBytes(c, FramesOf(c, b, to)) <= QUEUE_CAP
    ensures var r := FillWindow(c, [], b, offset, readable);
            r.ok ==> r.queue == FramesOf(c, b, r.last) && to <= r.last && QueueBytes(c, r.queue) <= QUEUE_CAP
  {
    hide BlockCount, Fill, FramesOf, QueueBytes, Fits;
    EmptyFits(c);
    FillReaches(c, [], b, offset, c.windowsize, readable, to);
    FillIsTrue(c, [], b, offset, c.windowsize, readable);
    FillKeepsCap(c, [], b - 1, b, offset, c.windowsize, readable);
    var r := FillWindow(c, [], b, offset, readable);
    assert [] + FramesOf(c, b, r.last) == FramesOf(c, b, r.last);
  }

  lemma WireGrows(c: Config, wire: seq<Frame>, last: nat, last': nat, lo: nat)
    requires c.blksize > 0 && UpTo(wire, last) && last <= last' && 1 <= lo <= last' + 1
    ensures UpTo(wire + FramesOf(c, lo, last'), last')
  {
    hide FramesOf;
    FramesUpTo(c, wire, lo, last');
  }

  /** A partial or full ACK leaves a shorter window, which still fits. */
  lemma CreditTidy(c: Config, s: Session, cand: nat)
    requires c.Valid() && Inv(c, s) && s.state == SendRrq && Tidy(c, s) && s.nextBlock <= cand <= s.windowLast
    ensures Tidy(c, Credit(c, s, cand))
  {
    hide BlockCount, QueueBytes, FramesOf, UpTo, AllTrue, AllSent, PrebuiltAgrees;
    FramesSplit(c, s.nextBlock, cand + 1, s.windowLast);
    QueueBytesAppend(c, FramesOf(c, s.nextBlock, cand), FramesOf(c, cand + 1, s.windowLast));
  }

  /** No frame left from before the prebuild lies beyond it. */
  predicate Covered(s: Session) {
    UpTo(Leftover(s), s.preLast)
  }

  /** The session between the flush and the prebuild that follows. */
  function Flushed(c: Config, s: Session): Session {
    var s' := Credit(c, s, s.windowLast);
    s'.(windowLast := s.preLast, eof := s.preEof, wire := s'.wire + s.prebuilt, prebuilt := [], preValid := false)
  }

  /** What a flush makes of a session, whatever was queued. */
  lemma FlushMakes(c: Config, s: Session, preReadable: nat)
    requires c.Valid() && Inv(c, s) && s.state == SendRrq && s.preValid
    ensures var s' := FlushPrebuilt(c, Credit(c, s, s.windowLast), preReadable);
            && s'.state == SendRrq && s'.wire == s.wire + s.prebuilt
            && s'.windowLast == s.preLast >= s.windowLast && s'.nextBlock == s.windowLast + 1 && s'.eof == s.preEof
    ensures FlushPrebuilt(c, Credit(c, s, s.windowLast), preReadable) == PrebuildNext(c, Flushed(c, s), preReadable)
  {
    hide BlockCount, PrebuildNext, Credit, FillWindow, AllTrue, AllSent;
    CreditBeforeFlush(c, s);
    PrebuildIsInvisible(c, Flushed(c, s), preReadable);
  }

  /** A covered flush moves on to the prebuilt window and sends nothing beyond it. */
  lemma FlushTidy(c: Config, s: Session, preReadable: nat)
    requires c.Valid() && Inv(c, s) && s.state == SendRrq && Tidy(c, s) && s.preValid && Covered(s)
    ensures Tidy(c, FlushPrebuilt(c, Credit(c, s, s.windowLast), preReadable))
  {
    hide BlockCount, FillWindow, PrebuildNext, QueueBytes, FramesOf, UpTo, AllTrue, AllSent, Credit, Leftover;
    FlushMakes(c, s, preReadable);
    CreditBeforeFlush(c, s);
    PrebuiltContents(c, s);
    var q, fs := Leftover(s), FramesOf(c, s.windowLast + 1, s.preLast);
    QueueBytesAppend(c, q, fs);
    CoveredWire(c, s.wire, s.windowLast, q, s.windowLast + 1, s.preLast);
    EmptyFits(c);
    PrebuildTidy(c, Flushed(c, s), preReadable);
  }

  lemma CoveredWire(c: Config, wire: seq<Frame>, last: nat, q: seq<Frame>, lo: nat, hi: nat)
    requires c.blksize > 0 && UpTo(wire, last) && last <= hi && UpTo(q, hi) && 1 <= lo <= hi + 1
    ensures UpTo(wire + (q + FramesOf(c, lo, hi)), hi)
  {
    hide FramesOf;
    FramesUpTo(c, wire + q, lo, hi);
    assert wire + (q + FramesOf(c, lo, hi)) == wire + q + FramesOf(c, lo, hi);
  }

  lemma EmptyFits(c: Config)
    ensures QueueBytes(c, []) == 0
  {
  }

  lemma AckTidy(c: Config, s: Session, ack: word, readable: nat, preReadable: nat)
    requires c.Valid() && Inv(c, s) && s.state == SendRrq && Tidy(c, s) && ack <= s.windowLast
    requires Flushes(s, ack) ==> Covered(s)
    ensures var s' := OnAck(c, s, ack, readable, preReadable);
            Tidy(c, s') && (s'.state == SendRrq ==> s'.windowLast >= s.windowLast)
  {
    hide BlockCount, Slice, PackData, SendWindow, FlushPrebuilt, Credit, MapAck, AllTrue, AllSent, Covered, Tidy;
    MapAckExact(s.windowLast, ack);
    var cand := MapAck(s.windowLast, ack);
    if cand >= s.nextBlock {
      CreditKeeps(c, s, cand);
      CreditFrame(c, s, cand);
      CreditTidy(c, s, cand);
      CreditWindow(c, s, cand);
      var s' := Credit(c, s, cand);
      if !s'.completed {
        if s.preValid && s.preFirst == s'.nextBlock && cand == s.windowLast {
          FlushMakes(c, s, preReadable);
          FlushTidy(c, s, preReadable);
        } else {
          ForgetTidy(c, s');
          SendTidy(c, s'.(preValid := false), readable, preReadable);
        }
      }
    }
  }

  lemma CreditWindow(c: Config, s: Session, cand: nat)
    ensures Credit(c, s, cand).windowLast == s.windowLast
  {
  }

  lemma ForgetTidy(c: Config, s: Session)
    requires c.blksize > 0 && Tidy(c, s)
    ensures Tidy(c, s.(preValid := false)) && Tidy(c, s.(preValid := false, retrans := s.retrans + 1))
  {
  }

  lemma TimeoutTidy(c: Config, s: Session, readable: nat, preReadable: nat)
    requires c.Valid() && Inv(c, s) && s.state == SendRrq && Tidy(c, s)
    ensures var s' := OnTimeout(c, s, readable, preReadable);
            Tidy(c, s') && (s'.state == SendRrq ==> s'.windowLast >= s.windowLast)
  {
    hide BlockCount, SendWindow, AllTrue, PrebuiltAgrees;
    ForgetTidy(c, s);
    if s.retrans + 1 <= MAX_RETRANS {
      SendTidy(c, s.(retrans := s.retrans + 1, preValid := false), readable, preReadable);
    }
  }

  lemma BeginTidy(c: Config, retrans: nat, readable: nat, preReadable: nat)
    requires c.Valid()
    ensures Tidy(c, Begin(c, retrans, readable, preReadable))
  {
    hide BlockCount, SendWindow, AllTrue;
    EmptyFits(c);
    NothingIsTrue(c);
    assert FramesOf(c, 1, 0) == [];
    SendTidy(c, Unsent(retrans), readable, preReadable);
  }

  /** Every step keeps what was sent within the window, and the window never shrinks. */
  lemma StepTidy(c: Config, s: Session, ev: ReadEngine.Event)
    requires c.Valid() && Inv(c, s) && Tidy(c, s)
    requires ev.Ack? && s.state == SendRrq ==> ev.block <= s.windowLast
    requires FlushEvent(s, ev) ==> Covered(s)
    ensures var s' := Step(c, s, ev);
            Tidy(c, s') && (s'.state == SendRrq ==> s.state == SendRrq && s'.windowLast >= s.windowLast)
  {
    hide BlockCount, OnAck, OnTimeout, Inv, Covered, QueueBytes, FramesOf, UpTo;
    if s.state == SendRrq {
      match ev
      case Ack(block, readable, preReadable) =>
        WireSmall(block);
        AckTidy(c, s, Wire(block), readable, preReadable);
      case Expire(readable, preReadable) => TimeoutTidy(c, s, readable, preReadable);
      case ClientError =>
    }
  }

  /** Block b was sent, or is 0. */
  predicate WasSent(s: Session, b: nat) {
    b == 0 || exists i | 0 <= i < |s.wire| :: s.wire[i].block == b
  }

  /** A sending session hears only ACKs of what was sent, or 0. */
  predicate SentOnly(c: Config, run: Run) {
    run.Then? ==>
      && SentOnly(c, run.before)
      && (run.ev.Ack? && Exec(c, run.before).state == SendRrq ==> WasSent(Exec(c, run.before), run.ev.block))
  }

  /** Every flush was covered. */
  predicate CoveredFlushes(c: Config, run: Run) {
    run.Then? ==>
      && CoveredFlushes(c, run.before)
      && (FlushEvent(Exec(c, run.before), run.ev) ==> Covered(Exec(c, run.before)))
  }

  lemma {:induction false} CleanIsCovered(c: Config, run: Run)
    requires CleanFlushes(c, run)
    ensures CoveredFlushes(c, run)
  {
    hide Step, Leftover, FlushEvent;
    if run.Then? {
      CleanIsCovered(c, run.before);
    }
  }

  /** While sending, nothing sent lies beyond the window. */
  predicate Within(s: Session) {
    s.state == SendRrq ==> UpTo(s.wire, s.windowLast)
  }

  /** Now and at every earlier point. */
  predicate AlwaysWithin(c: Config, run: Run) {
    Within(Exec(c, run)) && (run.Then? ==> AlwaysWithin(c, run.before))
  }

  /** With covered flushes, nothing sent lies beyond the window, so a client that acknowledges only what
      it was sent stays within it. */
  lemma {:induction false} SentWithinWindow(c: Config, run: Run)
    requires c.Valid() && SentOnly(c, run) && CoveredFlushes(c, run)
    ensures HonestClient(c, run) && Tidy(c, Exec(c, run)) && AlwaysWithin(c, run)
  {
    hide Step, Covered, QueueBytes, FramesOf, FlushEvent, Begin;
    match run
    case Started(retrans, readable, preReadable) => BeginTidy(c, retrans, readable, preReadable);
    case Then(before, ev) =>
      SentWithinWindow(c, before);
      RunKeeps(c, before);
      StepTidy(c, Exec(c, before), ev);
  }

  /** A flush that is not covered sends beyond the window it moves on to. */
  lemma UncoveredOverruns(c: Config, s: Session, ev: ReadEngine.Event)
    requires c.Valid() && Inv(c, s) && FlushEvent(s, ev) && !Covered(s)
    ensures !Within(Step(c, s, ev))
    ensures var s' := Step(c, s, ev);
            s'.state == SendRrq && s'.wire == s.wire + s.prebuilt && s'.windowLast == s.preLast
  {
    hide BlockCount, FillWindow, FlushPrebuilt, Credit, MapAck, AllTrue, AllSent, Leftover;
    CreditBeforeFlush(c, s);
    FlushMakes(c, s, ev.preReadable);
    PrebuiltContents(c, s);
    var q, s' := Leftover(s), Step(c, s, ev);
    assert s' == FlushPrebuilt(c, Credit(c, s, s.windowLast), ev.preReadable);
    var i :| 0 <= i < |q| && q[i].block > s.preLast;
    assert s'.wire[|s.wire| + i] == q[i];
  }

  /** For a client that acknowledges only what it was sent: nothing was ever sent beyond the window exactly
      when every flush was covered. */
  lemma {:induction false} SentWithinIff(c: Config, run: Run)
    requires c.Valid() && SentOnly(c, run)
    ensures AlwaysWithin(c, run) <==> CoveredFlushes(c, run)
  {
    hide Step, Covered, Within, FlushEvent, Begin, Tidy;
    if CoveredFlushes(c, run) {
      SentWithinWindow(c, run);
    } else {
      SentWithinIff(c, run.before);
      if CoveredFlushes(c, run.before) {
        SentWithinWindow(c, run.before);
        RunKeeps(c, run.before);
        UncoveredOverruns(c, Exec(c, run.before), run.ev);
      }
    }
  }

  // ---- No gaps -------------------------------------------------------

  /** Everything up to a sent frame was sent, and everything between the window and a prebuilt frame is
      prebuilt. */
  predicate Gapless(c: Config, s: Session)
    requires c.blksize > 0
  {
    s.state == SendRrq ==> NoGaps(c, s.wire, 0) && NoGaps(c, s.prebuilt, s.windowLast)
  }

  predicate NoGaps(c: Config, fs: seq<Frame>, from: nat)
    requires c.blksize > 0
  {
    forall f, b | f in fs && from < b <= f.block :: FrameOf(c, b) in fs
  }

  lemma NoGapsWith(c: Config, fs: seq<Frame>, from: nat, lo: nat, hi: int)
    requires c.blksize > 0 && NoGaps(c, fs, from) && 1 <= lo <= from + 1
    ensures NoGaps(c, fs + FramesOf(c, lo, hi), from)
  {
    hide FrameOf;
    var gs := FramesOf(c, lo, hi);
    forall f, b | f in fs + gs && from < b <= f.block ensures FrameOf(c, b) in fs + gs {
      if f in gs {
        InFrames(c, lo, hi, f);
        assert gs[b - lo] == FrameOf(c, b);
      }
    }
  }

  lemma InFrames(c: Config, lo: nat, hi: int, f: Frame)
    requires c.blksize > 0 && lo > 0 && f in FramesOf(c, lo, hi)
    ensures lo <= f.block <= hi
  {
    hide Slice, PackData;
    var i :| 0 <= i < |FramesOf(c, lo, hi)| && FramesOf(c, lo, hi)[i] == f;
    assert f == FrameOf(c, lo + i);
  }

  lemma PrebuildGapless(c: Config, s: Session, readable: nat)
    requires c.Valid() && ReadyToPrebuild(c, s) && Gapless(c, s)
    ensures Gapless(c, PrebuildNext(c, s, readable))
  {
    hide BlockCount, FillWindow, FramesOf, NoGaps, AllTrue, AllSent;
    if !s.eof && c.hasPrebuilt {
      PrebuildStart(c, s);
      FillWindowTrue(c, s.prebuilt, s.windowLast + 1, s.windowLast * c.blksize, readable);
      var r := FillWindow(c, s.prebuilt, s.windowLast + 1, s.windowLast * c.blksize, readable);
      NoGapsWith(c, s.prebuilt, s.windowLast, s.windowLast + 1, r.last);
    }
  }

  lemma SentGapless(c: Config, wire: seq<Frame>, lo: nat, hi: nat)
    requires c.blksize > 0 && NoGaps(c, wire, 0) && lo > 0 && AllSent(c, wire + FramesOf(c, lo, hi), hi)
    ensures NoGaps(c, wire + FramesOf(c, lo, hi), 0)
  {
    hide FrameOf;
    var gs := FramesOf(c, lo, hi);
    forall f, b | f in wire + gs && 0 < b <= f.block ensures FrameOf(c, b) in wire + gs {
      if f in gs {
        InFrames(c, lo, hi, f);
      }
    }
  }

  lemma SendGapless(c: Config, s: Session, readable: nat, preReadable: nat)
    requires c.Valid() && ReadyToSend(c, s)
    requires s.nextBlock <= s.windowLast + 1 <= s.nextBlock + c.windowsize && s.windowLast <= c.Total()
    requires Tidy(c, s) && Gapless(c, s)
    ensures Gapless(c, SendWindow(c, s, readable, preReadable))
  {
    hide BlockCount, FillWindow, PrebuildNext, QueueBytes, FramesOf, UpTo, AllTrue, AllSent, FrameOf;
    var r := FillWindow(c, [], s.nextBlock, s.windowFirstOffset, readable);
    FillFromEmpty(c, s.nextBlock, s.windowFirstOffset, readable, s.windowLast);
    if r.ok {
      AfterFillKeeps(c, s, readable);
      SentGapless(c, s.wire, s.nextBlock, r.last);
      PrebuildGapless(c, AfterFill(s, r), preReadable);
    }
  }

  lemma FlushGapless(c: Config, s: Session, preReadable: nat)
    requires c.Valid() && Inv(c, s) && s.state == SendRrq && s.preValid && Gapless(c, s)
    ensures Gapless(c, FlushPrebuilt(c, Credit(c, s, s.windowLast), preReadable))
  {
    hide BlockCount, FillWindow, FlushPrebuilt, PrebuildNext, Credit, FrameOf, AllTrue, Leftover, FramesOf;
    FlushMakes(c, s, preReadable);
    FlushedReady(c, s);
    assert NoGaps(c, s.wire + s.prebuilt, 0);
    PrebuildGapless(c, Flushed(c, s), preReadable);
  }

  /** A flush leaves a session that is ready to prebuild. */
  lemma FlushedReady(c: Config, s: Session)
    requires c.Valid() && Inv(c, s) && s.state == SendRrq && s.preValid
    ensures var t := Flushed(c, s);
            ReadyToPrebuild(c, t) && t.wire == s.wire + s.prebuilt && t.prebuilt == [] && t.windowLast == s.preLast
  {
    hide BlockCount, FillWindow, Credit, FrameOf, AllTrue, AllSent, Leftover, FramesOf;
    CreditBeforeFlush(c, s);
    PrebuiltContents(c, s);
    NothingIsTrue(c);
    BothTrue(c, s.wire, s.prebuilt);
    var s', q := Credit(c, s, s.windowLast), Leftover(s);
    assert s.prebuilt[|q|..] == FramesOf(c, s.windowLast + 1, s.preLast);
    SentAfter(c, s', Flushed(c, s), s.prebuilt, s.windowLast + 1, s.preLast);
  }

  lemma AckGapless(c: Config, s: Session, ack: word, readable: nat, preReadable: nat)
    requires c.Valid() && Inv(c, s) && s.state == SendRrq && Tidy(c, s) && Gapless(c, s) && ack <= s.windowLast
    ensures Gapless(c, OnAck(c, s, ack, readable, preReadable))
  {
    hide BlockCount, SendWindow, FlushPrebuilt, Credit, MapAck, AllTrue, AllSent, Tidy, NoGaps;
    MapAckExact(s.windowLast, ack);
    var cand := MapAck(s.windowLast, ack);
    if cand >= s.nextBlock {
      CreditKeeps(c, s, cand);
      CreditFrame(c, s, cand);
      CreditTidy(c, s, cand);
      CreditWindow(c, s, cand);
      var s' := Credit(c, s, cand);
      if !s'.completed {
        if s.preValid && s.preFirst == s'.nextBlock && cand == s.windowLast {
          FlushGapless(c, s, preReadable);
        } else {
          ForgetTidy(c, s');
          SendGapless(c, s'.(preValid := false), readable, preReadable);
        }
      }
    }
  }

  lemma StepGapless(c: Config, s: Session, ev: ReadEngine.Event)
    requires c.Valid() && Inv(c, s) && Tidy(c, s) && Gapless(c, s)
    requires ev.Ack? && s.state == SendRrq ==> ev.block <= s.windowLast
    ensures Gapless(c, Step(c, s, ev))
  {
    hide BlockCount, OnAck, SendWindow, Tidy, NoGaps, AllTrue, FrameOf, PrebuiltAgrees;
    if s.state == SendRrq {
      match ev
      case Ack(block, readable, preReadable) =>
        WireSmall(block);
        AckGapless(c, s, Wire(block), readable, preReadable);
      case Expire(readable, preReadable) =>
        ForgetTidy(c, s);
        if s.retrans + 1 <= MAX_RETRANS {
          SendGapless(c, s.(retrans := s.retrans + 1, preValid := false), readable, preReadable);
        }
      case ClientError =>
    }
  }

  lemma BeginGapless(c: Config, retrans: nat, readable: nat, preReadable: nat)
    requires c.Valid()
    ensures Gapless(c, Begin(c, retrans, readable, preReadable))
  {
    hide BlockCount, SendWindow, AllTrue;
    EmptyFits(c);
    NothingIsTrue(c);
    assert FramesOf(c, 1, 0) == [];
    SendGapless(c, Unsent(retrans), readable, preReadable);
  }

  /** What was sent has no gaps, up to and including the first flush that is not covered. */
  lemma {:induction false} GaplessRun(c: Config, run: Run)
    requires c.Valid() && HonestClient(c, run)
    requires run.Then? ==> SentOnly(c, run.before) && CoveredFlushes(c, run.before)
    ensures Gapless(c, Exec(c, run))
  {
    hide Step, Covered, Gapless, Tidy, FlushEvent, Begin;
    match run
    case Started(retrans, readable, preReadable) => BeginGapless(c, retrans, readable, preReadable);
    case Then(before, ev) =>
      GaplessRun(c, before);
      SentWithinWindow(c, before);
      RunKeeps(c, before);
      StepGapless(c, Exec(c, before), ev);
  }

  // ---- ACKs beyond the window ----------------------------------------

  /** The ACK of a block beyond the window makes the session send an empty block under the next number,
      which tells the client that the file is over. */
  lemma EmptyBlockFollows(c: Config, s: Session, ack: word, readable: nat, preReadable: nat)
    requires c.Valid() && Inv(c, s) && s.state == SendRrq && !s.eof && ack > s.windowLast && readable > 0
    ensures var s' := OnAck(c, s, ack, readable, preReadable);
            && s'.state == SendRrq && s'.eof
            && s'.wire == s.wire + [Frame(U32(TWO32 - 65535 + ack), PackData(Wire(ack + 1), []))]
  {
    hide BlockCount, Inv, PackData, Credit, MapAck;
    var n := U32(TWO32 - 65535 + ack);
    MapAckExact(s.windowLast, ack) by { WindowBelow(c, s); }
    JumpedCredit(c, s, ack);
    EmptyFill(c, n, readable);
  }

  lemma JumpedCredit(c: Config, s: Session, ack: word)
    requires c.Valid() && Inv(c, s) && s.state == SendRrq && !s.eof && ack > s.windowLast
    ensures s.nextBlock <= TWO32 - 65536 + ack
    ensures var s' := Credit(c, s, TWO32 - 65536 + ack);
            && s'.state == SendRrq && s'.nextBlock == U32(TWO32 - 65535 + ack) && s'.windowFirstOffset == |c.file|
            && s'.wire == s.wire && s'.preValid == s.preValid && s'.preFirst == s.preFirst
    ensures s.windowLast < TWO32 - 65536 + ack
  {
    hide Slice, PackData, FillWindow, AllTrue, AllSent;
    FullBlocks(|c.file|, c.blksize, c.Total());
    JumpPastEnd(s.windowFirstOffset, U32(TWO32 - 65536 + ack + 1 - s.nextBlock), c.blksize, c.Total());
  }

  lemma EmptyFill(c: Config, n: nat, readable: nat)
    requires c.Valid() && readable > 0 && n < TWO32
    ensures FillWindow(c, [], n, |c.file|, readable) == Filled([Frame(n, PackData(Wire(n), []))], n, true, true)
  {
    hide BlockCount;
    assert ReadAt(c, |c.file|) == [];
    PacketLength(Wire(n), []);
    EmptyFits(c);
  }

  /** An ACK keeps the session's invariant exactly when its value is within the window or everything is
      sent. */
  lemma AckKeepsIff(c: Config, s: Session, ack: word, readable: nat, preReadable: nat)
    requires c.Valid() && Inv(c, s) && s.state == SendRrq && readable > 0
    ensures Inv(c, OnAck(c, s, ack, readable, preReadable)) <==> ack <= s.windowLast || s.eof
  {
    hide BlockCount, OnAck, Inv;
    if ack <= s.windowLast {
      OnAckKeeps(c, s, ack, readable, preReadable);
    } else if s.eof {
      BelievedCompletes(c, s, ack, readable, preReadable);
    } else {
      UntransmittedAckBelieved(c, s, ack, readable, preReadable);
      EmptyBlockFollows(c, s, ack, readable, preReadable);
      MisplacedBreaks(c, OnAck(c, s, ack, readable, preReadable));
    }
  }

  lemma MisplacedBreaks(c: Config, s: Session)
    requires c.blksize > 0 && s.state == SendRrq && !Positioned(c, s)
    ensures !Inv(c, s)
  {
  }

  /** The invariant now and at every earlier point. */
  predicate AlwaysInv(c: Config, run: Run)
    requires c.blksize > 0
  {
    Inv(c, Exec(c, run)) && (run.Then? ==> AlwaysInv(c, run.before))
  }

  /** The first read after an ACK works. */
  predicate AckReadsWork(run: Run) {
    run.Then? ==> AckReadsWork(run.before) && (run.ev.Ack? ==> run.ev.readable > 0)
  }

  /** Over every run the invariant holds throughout exactly when no ACK beyond the window reaches a session
      that still has something to send. */
  lemma {:induction false} InvariantIff(c: Config, run: Run)
    requires c.Valid() && AckReadsWork(run)
    ensures AlwaysInv(c, run) <==> Understood(c, run)
  {
    hide BlockCount, Inv, OnAck, OnTimeout, Begin;
    match run
    case Started(_, _, _) => UnderstoodKeeps(c, run);
    case Then(before, ev) =>
      InvariantIff(c, before);
      if Understood(c, before) {
        var s := Exec(c, before);
        if ev.Ack? && s.state == SendRrq {
          AckKeepsIff(c, s, Wire(ev.block), ev.readable, ev.preReadable);
        } else {
          UnderstoodKeeps(c, run);
        }
      }
  }
}
